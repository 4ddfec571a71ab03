// A heap segment as the row of its blocks: taking and releasing blocks as values.
module HeapLayout {

  const HEAP_SIZE: nat := 0xFFF0
  const HEADER: nat := 4        // sizeof(ULONG), in front of every block

  datatype Block = Block(at: nat, size: nat, free: bool) {
    function End(): nat { at + HEADER + size }
    function Address(): nat { at + HEADER }
  }

  // The blocks follow each other without gaps from `from` to `to`; all sizes are even.
  ghost predicate Tiles(bs: seq<Block>, from: nat, to: nat) {
    if bs == [] then from == to
    else bs[0].at == from && bs[0].size % 2 == 0 && bs[0].End() <= to && Tiles(bs[1..], bs[0].End(), to)
  }

  predicate FirstFree(bs: seq<Block>) { bs != [] && bs[0].free }

  predicate LastFree(bs: seq<Block>) { bs != [] && bs[|bs| - 1].free }

  // No two neighbours are free.
  ghost predicate Apart(bs: seq<Block>) {
    bs == [] || (Apart(bs[1..]) && !(bs[0].free && FirstFree(bs[1..])))
  }

  // What CheckHeap checks of a segment, and what first fit keeps.
  ghost predicate Sound(bs: seq<Block>) { Tiles(bs, 0, HEAP_SIZE) && Apart(bs) }

  function Fresh(): seq<Block> { [Block(0, HEAP_SIZE - HEADER, true)] }

  lemma FreshSound()
    ensures Sound(Fresh())
  {
    assert Fresh()[1..] == [];
  }

  lemma {:induction false} TilesConcat(a: seq<Block>, b: seq<Block>, from: nat, to: nat) returns (mid: nat)
    ensures Tiles(a + b, from, to) ==> from <= mid <= to && Tiles(a, from, mid) && Tiles(b, mid, to)
    ensures a != [] ==> mid == a[|a| - 1].End()
    ensures a == [] ==> mid == from
    decreases |a|
  {
    if a == [] {
      assert a + b == b;
      mid := from;
    } else {
      assert (a + b)[1..] == a[1..] + b;
      mid := TilesConcat(a[1..], b, a[0].End(), to);
    }
  }

  lemma {:induction false} TilesJoin(a: seq<Block>, b: seq<Block>, from: nat, mid: nat, to: nat)
    requires Tiles(a, from, mid) && Tiles(b, mid, to) && mid <= to
    ensures Tiles(a + b, from, to)
    decreases |a|
  {
    if a == [] {
      assert a + b == b;
    } else {
      assert (a + b)[1..] == a[1..] + b;
      TilesJoin(a[1..], b, a[0].End(), mid, to);
    }
  }

  lemma {:induction false} ApartConcat(a: seq<Block>, b: seq<Block>)
    ensures Apart(a + b) <==> Apart(a) && Apart(b) && !(LastFree(a) && FirstFree(b))
    decreases |a|
  {
    if a == [] {
      assert a + b == b;
    } else {
      assert (a + b)[1..] == a[1..] + b;
      ApartConcat(a[1..], b);
    }
  }

  // ---------------------------------------------------------------- taking

  predicate Fits(b: Block, n: nat) { b.free && b.size >= n }

  // FindFreeSpace splits the block when more than a header is left over.
  function Split(b: Block, n: nat): (r: seq<Block>)
    requires n <= b.size
  {
    if b.size - n > HEADER then [Block(b.at, n, false), Block(b.at + HEADER + n, b.size - n - HEADER, true)]
    else [b.(free := false)]
  }

  function Taken(bs: seq<Block>, i: nat, n: nat): seq<Block>
    requires i < |bs| && n <= bs[i].size
  {
    bs[..i] + Split(bs[i], n) + bs[i + 1..]
  }

  lemma Around(bs: seq<Block>, i: nat)
    requires i < |bs|
    ensures bs == bs[..i] + [bs[i]] + bs[i + 1..]
  {
  }

  // A row with its middle replaced by one that covers the same stretch.
  lemma Replaced(a: seq<Block>, m: seq<Block>, m': seq<Block>, c: seq<Block>)
    requires Sound(a + m + c) && m != [] && m' != [] && Tiles(m', m[0].at, m[|m| - 1].End())
    requires Apart(m') && !(LastFree(a) && FirstFree(m')) && !(LastFree(m') && FirstFree(c))
    ensures Sound(a + m' + c)
  {
    hide Tiles, Apart;
    var hi := TilesConcat(a + m, c, 0, HEAP_SIZE);
    var lo := TilesConcat(a, m, 0, hi);
    FrontAt(m, lo, hi);
    LastOf(a, m);
    TilesJoin(a, m', 0, lo, hi);
    TilesJoin(a + m', c, 0, hi, HEAP_SIZE);
    ApartConcat(a + m, c);
    ApartConcat(a, m);
    ApartConcat(a, m');
    LastOf(a, m');
    ApartConcat(a + m', c);
  }

  lemma FrontAt(m: seq<Block>, lo: nat, hi: nat)
    requires Tiles(m, lo, hi) && m != []
    ensures m[0].at == lo
  {
  }

  lemma LastOf(a: seq<Block>, m: seq<Block>)
    requires m != []
    ensures (a + m)[|a + m| - 1] == m[|m| - 1] && (LastFree(a + m) <==> LastFree(m))
  {
  }

  lemma TakenSound(bs: seq<Block>, i: nat, n: nat)
    requires Sound(bs) && i < |bs| && Fits(bs[i], n) && n % 2 == 0
    ensures Sound(Taken(bs, i, n))
  {
    var a, b, c := bs[..i], bs[i], bs[i + 1..];
    Around(bs, i);
    Neighbours(a, b, c);
    SplitTiles(b, n);
    Replaced(a, [b], Split(b, n), c);
  }

  lemma Neighbours(a: seq<Block>, b: Block, c: seq<Block>)
    requires Sound(a + [b] + c)
    ensures b.size % 2 == 0 && b.End() <= HEAP_SIZE
    ensures b.free ==> !LastFree(a) && !FirstFree(c)
  {
    hide Tiles, Apart;
    ApartConcat(a + [b], c);
    ApartConcat(a, [b]);
    LastOf(a, [b]);
    var hi := TilesConcat(a + [b], c, 0, HEAP_SIZE);
    var lo := TilesConcat(a, [b], 0, hi);
    OneTile(b, lo, hi);
  }

  lemma OneTile(b: Block, lo: nat, hi: nat)
    ensures Tiles([b], lo, hi) <==> b.at == lo && b.End() == hi && b.size % 2 == 0
    ensures Apart([b])
  {
    assert [b][1..] == [];
  }

  lemma SplitTiles(b: Block, n: nat)
    requires Fits(b, n) && n % 2 == 0 && b.size % 2 == 0
    ensures Tiles(Split(b, n), b.at, b.End()) && Apart(Split(b, n)) && !FirstFree(Split(b, n))
  {
    var s := Split(b, n);
    if |s| == 2 {
      OneTile(s[1], s[1].at, b.End());
      assert s[1..] == [s[1]];
    } else {
      OneTile(s[0], b.at, b.End());
    }
  }

  // ---------------------------------------------------------------- releasing

  // The block and its free neighbours, from `lo` up to `hi`, become one free block.
  function Lo(bs: seq<Block>, i: nat): nat
    requires i < |bs|
  {
    if i > 0 && bs[i - 1].free then i - 1 else i
  }

  function Hi(bs: seq<Block>, i: nat): nat
    requires i < |bs|
  {
    if i + 1 < |bs| && bs[i + 1].free then i + 2 else i + 1
  }

  function Merged(bs: seq<Block>, lo: nat, hi: nat): Block
    requires lo < hi <= |bs|
  {
    Block(bs[lo].at, if bs[hi - 1].End() >= bs[lo].Address() then bs[hi - 1].End() - bs[lo].Address() else 0, true)
  }

  function Released(bs: seq<Block>, i: nat): seq<Block>
    requires i < |bs|
  {
    bs[..Lo(bs, i)] + [Merged(bs, Lo(bs, i), Hi(bs, i))] + bs[Hi(bs, i)..]
  }

  lemma ReleasedSound(bs: seq<Block>, i: nat)
    requires Sound(bs) && i < |bs|
    ensures Sound(Released(bs, i))
  {
    NotFreeBeside(bs, Lo(bs, i), Hi(bs, i), i);
    MergedSound(bs, Lo(bs, i), Hi(bs, i));
  }

  lemma MergedSound(bs: seq<Block>, lo: nat, hi: nat)
    requires Sound(bs) && lo < hi <= |bs| && !LastFree(bs[..lo]) && !FirstFree(bs[hi..])
    ensures Sound(bs[..lo] + [Merged(bs, lo, hi)] + bs[hi..])
    ensures Merged(bs, lo, hi).End() == bs[hi - 1].End()
  {
    hide Tiles, Apart;
    var a, m, c := bs[..lo], bs[lo..hi], bs[hi..];
    assert bs == a + m + c;
    assert m[0] == bs[lo] && m[|m| - 1] == bs[hi - 1];
    Stretch(a, m, c);
    var b := Merged(bs, lo, hi);
    OneTile(b, m[0].at, m[|m| - 1].End());
    Replaced(a, m, [b], c);
  }

  // A stretch of a row has its ends in order, at an even distance.
  lemma Stretch(a: seq<Block>, m: seq<Block>, c: seq<Block>)
    requires Sound(a + m + c) && m != []
    ensures m[0].Address() <= m[|m| - 1].End() && (m[|m| - 1].End() - m[0].at) % 2 == 0
  {
    hide Tiles, Apart;
    var hi := TilesConcat(a + m, c, 0, HEAP_SIZE);
    var lo := TilesConcat(a, m, 0, hi);
    LastOf(a, m);
    FrontAt(m, lo, hi);
    EvenTiles(m, lo, hi);
  }

  lemma {:induction false} EvenTiles(m: seq<Block>, lo: nat, hi: nat)
    requires Tiles(m, lo, hi)
    ensures lo <= hi && (hi - lo) % 2 == 0
    ensures m != [] ==> m[0].Address() <= hi && m[|m| - 1].End() == hi
  {
    if m != [] {
      EvenTiles(m[1..], m[0].End(), hi);
    }
  }

  lemma NotFreeBeside(bs: seq<Block>, lo: nat, hi: nat, i: nat)
    requires Apart(bs) && i < |bs| && lo == Lo(bs, i) && hi == Hi(bs, i)
    ensures !LastFree(bs[..lo]) && !FirstFree(bs[hi..])
  {
    hide Apart;
    if lo > 0 { NoPair(bs, lo - 1); }
    if hi < |bs| { NoPair(bs, hi - 1); }
  }

  lemma NoPair(bs: seq<Block>, k: nat)
    requires Apart(bs) && k + 1 < |bs|
    ensures !(bs[k].free && bs[k + 1].free)
  {
    hide Apart;
    ApartConcat(bs[..k + 1], bs[k + 1..]);
    assert bs[..k + 1] + bs[k + 1..] == bs;
  }

  // The row after releasing, block for block: one free block over the block and those of
  // its two neighbours that are free.
  lemma ReleasedIs(bs: seq<Block>, i: nat, lo: nat, hi: nat)
    requires Sound(bs) && i < |bs|
    requires lo == if i > 0 && bs[i - 1].free then i - 1 else i
    requires hi == if i + 1 < |bs| && bs[i + 1].free then i + 2 else i + 1
    ensures bs[lo].at <= bs[hi - 1].at
    ensures Released(bs, i) ==
      bs[..lo] + [Block(bs[lo].at, bs[hi - 1].at + bs[hi - 1].size - bs[lo].at, true)] + bs[hi..]
  {
    hide Sound;
    forall j: nat, k: nat | lo <= j < k < hi ensures bs[j].End() <= bs[k].at {
      Disjoint(bs, j, k);
    }
  }

  // malloc and then free of the result: the same blocks as before.
  lemma TakeRelease(bs: seq<Block>, i: nat, n: nat)
    requires Sound(bs) && i < |bs| && Fits(bs[i], n)
    ensures Released(Taken(bs, i, n), i) == bs
  {
    hide Tiles, Apart;
    var a, b, c := bs[..i], bs[i], bs[i + 1..];
    Around(bs, i);
    Neighbours(a, b, c);
    Undone(a, b, c, n);
  }

  lemma Undone(a: seq<Block>, b: Block, c: seq<Block>, n: nat)
    requires Fits(b, n) && !LastFree(a) && !FirstFree(c)
    ensures Released(a + Split(b, n) + c, |a|) == a + [b] + c
  {
    var s := Split(b, n);
    var t := a + s + c;
    assert t[..|a|] == a && t[|a| + |s|..] == c && t[|a|] == s[0] && t[|a| + |s| - 1] == s[|s| - 1];
    assert Lo(t, |a|) == |a| && Hi(t, |a|) == |a| + |s|;
    assert Merged(t, |a|, |a| + |s|) == b;
  }

  // A block that is free already stays as it is.
  lemma ReleaseTwice(bs: seq<Block>, i: nat)
    requires Sound(bs) && i < |bs| && bs[i].free
    ensures Released(bs, i) == bs
  {
    Around(bs, i);
    Neighbours(bs[..i], bs[i], bs[i + 1..]);
  }

  // Different blocks do not overlap.
  lemma Disjoint(bs: seq<Block>, i: nat, j: nat)
    requires Sound(bs) && i < j < |bs|
    ensures bs[i].End() <= bs[j].at && bs[j].End() <= HEAP_SIZE
  {
    hide Tiles, Apart;
    var a, m, c := bs[..i + 1], bs[i + 1..j], bs[j..];
    assert bs == a + (m + c);
    var x := TilesConcat(a, m + c, 0, HEAP_SIZE);
    var y := TilesConcat(m, c, x, HEAP_SIZE);
    EvenTiles(m, x, y);
    FrontAt(c, y, HEAP_SIZE);
    Tiled(c, y, HEAP_SIZE);
  }

  lemma Tiled(c: seq<Block>, y: nat, to: nat)
    requires Tiles(c, y, to) && c != []
    ensures c[0].End() <= to
  {
  }

  lemma NextAt(bs: seq<Block>, i: nat)
    requires Sound(bs) && i < |bs|
    ensures bs[i].End() == if i + 1 < |bs| then bs[i + 1].at else HEAP_SIZE
  {
    hide Tiles, Apart;
    var a, c := bs[..i + 1], bs[i + 1..];
    assert bs == a + c;
    var mid := TilesConcat(a, c, 0, HEAP_SIZE);
    if c == [] {
      EndOfNone(mid, HEAP_SIZE);
    } else {
      FrontAt(c, mid, HEAP_SIZE);
    }
  }

  lemma EndOfNone(from: nat, to: nat)
    ensures Tiles([], from, to) ==> from == to
  {
  }

  // ---------------------------------------------------------------- who owns what

  ghost function Used(bs: seq<Block>): set<Block> { set b | b in bs && !b.free }

  lemma UsedMiddle(a: seq<Block>, m: seq<Block>, c: seq<Block>)
    ensures Used(a + m + c) == Used(a) + Used(m) + Used(c)
  {
    assert forall b :: b in a + m + c <==> b in a || b in m || b in c;
  }

  // The row after taking, block for block: a rest of more than four bytes stays free.
  lemma TakenIs(bs: seq<Block>, i: nat, n: nat)
    requires i < |bs| && n <= bs[i].size
    ensures Taken(bs, i, n) == bs[..i] +
      (if bs[i].size > n + 4
       then [Block(bs[i].at, n, false), Block(bs[i].at + 4 + n, bs[i].size - n - 4, true)]
       else [Block(bs[i].at, bs[i].size, false)]) + bs[i + 1..]
  {
  }

  // Taking hands out one block of `n` to `n + 4` bytes, inside what was one free block.
  lemma TakenUsed(bs: seq<Block>, i: nat, n: nat)
    requires Sound(bs) && i < |bs| && Fits(bs[i], n)
    ensures var b := Split(bs[i], n)[0];
      && b.at == bs[i].at && n <= b.size <= n + 4 && b.End() <= bs[i].End() && !b.free
      && Used(Taken(bs, i, n)) == Used(bs) + {b} && b !in Used(bs)
  {
    hide Sound;
    var a, c, b := bs[..i], bs[i + 1..], Split(bs[i], n)[0];
    Around(bs, i);
    UsedMiddle(a, [bs[i]], c);
    UsedMiddle(a, Split(bs[i], n), c);
    assert Used([bs[i]]) == {} && Used(Split(bs[i], n)) == {b};
    if b in bs {
      var k :| 0 <= k < |bs| && bs[k] == b;
      SameAddress(bs, i, k);
    }
  }

  lemma SameAddress(bs: seq<Block>, i: nat, k: nat)
    requires Sound(bs) && i < |bs| && k < |bs| && bs[i].at == bs[k].at
    ensures i == k
  {
    hide Sound;
    if i < k {
      Disjoint(bs, i, k);
    } else if k < i {
      Disjoint(bs, k, i);
    }
  }

  // Releasing takes exactly that block back.
  lemma ReleasedUsed(bs: seq<Block>, i: nat)
    requires Sound(bs) && i < |bs|
    ensures Used(Released(bs, i)) == Used(bs) - {bs[i]}
  {
    hide Sound;
    var lo, hi := Lo(bs, i), Hi(bs, i);
    var a, m, c, b := bs[..lo], bs[lo..hi], bs[hi..], Merged(bs, lo, hi);
    Thirds(bs, lo, hi);
    UsedMiddle(a, m, c);
    UsedMiddle(a, [b], c);
    assert Used([b]) == {};
    UsedJoined(bs, lo, hi, i);
    OnlyOnce(bs, lo, hi, i);
  }

  lemma Thirds(bs: seq<Block>, lo: nat, hi: nat)
    requires lo <= hi <= |bs|
    ensures bs[..lo] + bs[lo..hi] + bs[hi..] == bs
  {
  }

  lemma UsedJoined(bs: seq<Block>, lo: nat, hi: nat, i: nat)
    requires i < |bs| && lo == Lo(bs, i) && hi == Hi(bs, i)
    ensures Used(bs[lo..hi]) == if bs[i].free then {} else {bs[i]}
  {
    var m := bs[lo..hi];
    assert m[i - lo] == bs[i];
    assert forall k :: 0 <= k < |m| ==> m[k] == bs[lo + k] && (lo + k == i || bs[lo + k].free);
  }

  lemma OnlyOnce(bs: seq<Block>, lo: nat, hi: nat, i: nat)
    requires Sound(bs) && lo <= i < hi <= |bs|
    ensures bs[i] !in bs[..lo] && bs[i] !in bs[hi..]
  {
    hide Sound;
    forall k | 0 <= k < lo ensures bs[k] != bs[i] {
      Disjoint(bs, k, i);
    }
    forall k | hi <= k < |bs| ensures bs[k] != bs[i] {
      Disjoint(bs, i, k);
    }
  }
}

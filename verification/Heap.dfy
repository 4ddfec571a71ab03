// The driver's heap: first fit in segments of HEAP_SIZE bytes whose blocks are
// chained by four-byte headers inside the segment itself.
module Heap {
  import opened FatCodec
  import opened HeapLayout

  const MAX_SELECTORS: nat := 100

  // The ULONG at `p`.
  function Long(m: seq<Byte>, p: nat): nat
    requires p + 4 <= |m|
  {
    var b0: int, b1: int, b2: int, b3: int := m[p], m[p + 1], m[p + 2], m[p + 3];
    b0 + 0x100 * b1 + 0x1_0000 * b2 + 0x100_0000 * b3
  }

  function PutLong(m: seq<Byte>, p: nat, v: nat): (r: seq<Byte>)
    requires p + 4 <= |m| && v < 0x1_0000_0000
    ensures |r| == |m|
  {
    m[p := v % 0x100][p + 1 := v / 0x100 % 0x100][p + 2 := v / 0x1_0000 % 0x100][p + 3 := v / 0x100_0000]
  }

  lemma LongPut(m: seq<Byte>, p: nat, v: nat)
    requires p + 4 <= |m| && v < 0x1_0000_0000
    ensures Long(PutLong(m, p, v), p) == v
    ensures SameOutside(m, PutLong(m, p, v), p, p + 4)
  {
    var a, b, c := v / 0x100, v / 0x1_0000, v / 0x100_0000;
    assert v == v % 0x100 + 0x100 * a && a == a % 0x100 + 0x100 * b && b == b % 0x100 + 0x100 * c;
    var r := PutLong(m, p, v);
    assert r[p] == v % 0x100 && r[p + 1] == a % 0x100 && r[p + 2] == b % 0x100 && r[p + 3] == c;
  }

  ghost predicate SameOutside(m: seq<Byte>, m': seq<Byte>, from: nat, to: nat) {
    |m'| == |m| && forall k :: 0 <= k < |m| && !(from <= k < to) ==> m'[k] == m[k]
  }

  lemma LongElsewhere(m: seq<Byte>, m': seq<Byte>, from: nat, to: nat, p: nat)
    requires SameOutside(m, m', from, to) && p + 4 <= |m| && (p + 4 <= from || to <= p)
    ensures Long(m', p) == Long(m, p)
  {
  }

  // A block's header: its size, and bit 0 when it is free.
  function HeaderOf(b: Block): nat { b.size + (if b.free then 1 else 0) }

  ghost predicate HeaderIs(m: seq<Byte>, b: Block) {
    b.at + HEADER <= |m| && Long(m, b.at) == HeaderOf(b)
  }

  ghost predicate Mirrors(m: seq<Byte>, bs: seq<Block>) {
    |m| == HEAP_SIZE && forall i :: 0 <= i < |bs| ==> HeaderIs(m, bs[i])
  }

  ghost predicate NoFit(bs: seq<Block>, n: nat) {
    forall k :: 0 <= k < |bs| ==> !Fits(bs[k], n)
  }

  ghost predicate FirstFit(bs: seq<Block>, i: nat, n: nat) {
    i < |bs| && Fits(bs[i], n) && forall k :: 0 <= k < i ==> !Fits(bs[k], n)
  }

  // Only the middle `m` of the row changed, and only inside its stretch.
  lemma MirrorsMiddle(a: seq<Block>, m: seq<Block>, m': seq<Block>, c: seq<Block>, x: seq<Byte>, y: seq<Byte>)
    requires Sound(a + m + c) && m != [] && Mirrors(x, a + m + c)
    requires SameOutside(x, y, m[0].at, m[|m| - 1].End()) && forall k :: 0 <= k < |m'| ==> HeaderIs(y, m'[k])
    ensures Mirrors(y, a + m' + c)
  {
    hide Tiles, Apart, SameOutside, Sound;
    var bs, bs' := a + m + c, a + m' + c;
    var from, to := m[0].at, m[|m| - 1].End();
    SameLength(x, y, from, to);
    assert bs[|a|] == m[0] && bs[|a| + |m| - 1] == m[|m| - 1];
    forall k | 0 <= k < |bs'| ensures HeaderIs(y, bs'[k]) {
      if k < |a| {
        assert bs'[k] == bs[k] && HeaderIs(x, bs[k]);
        Disjoint(bs, k, |a|);
        LongElsewhere(x, y, from, to, bs[k].at);
      } else if k >= |a| + |m'| {
        var j := k - |m'| + |m|;
        assert bs'[k] == bs[j] && HeaderIs(x, bs[j]);
        Disjoint(bs, |a| + |m| - 1, j);
        LongElsewhere(x, y, from, to, bs[j].at);
      } else {
        assert bs'[k] == m'[k - |a|];
      }
    }
  }

  lemma SameLength(x: seq<Byte>, y: seq<Byte>, from: nat, to: nat)
    requires SameOutside(x, y, from, to)
    ensures |y| == |x|
  {
  }

  // A segment of its own, obtained for one request, or an address in a heap segment.
  datatype Ptr = Whole(bytes: nat) | At(segment: nat, offset: nat)

  // Odd sizes are rounded up in a 16-bit size_t.
  function Rounded(size: nat): nat { (size + size % 2) % 0x1_0000 }

  type Rows = seq<seq<Block>>

  // An empty segment has no room for exactly these requests, which then find room nowhere.
  lemma TooLarge(size: nat, row: seq<Block>)
    requires size < 0x1_0000
    ensures Rounded(size) != 0 && NoFit(HeapLayout.Fresh(), Rounded(size)) <==> 65517 <= size <= 65534
    ensures 65517 <= size && Sound(row) ==> NoFit(row, Rounded(size)) || Rounded(size) == 0
  {
    hide Sound;
    assert Fits(HeapLayout.Fresh()[0], Rounded(size)) <==> Rounded(size) <= 65516;
    if Sound(row) {
      forall k | 0 <= k < |row| ensures row[k].size <= HEAP_SIZE - HEADER {
        InSegment(row, k);
      }
    }
  }

  // Every block ends inside the segment.
  lemma InSegment(bs: seq<Block>, k: nat)
    requires Sound(bs) && k < |bs|
    ensures bs[k].End() <= HEAP_SIZE
  {
    hide Tiles, Apart;
    HeapLayout.Around(bs, k);
    Neighbours(bs[..k], bs[k], bs[k + 1..]);
  }

  // The row a request sees in segment `s`; a missing segment is created.
  function RowOr(rows: Rows, s: nat): seq<Block>
    requires s < |rows|
  {
    if rows[s] == [] then HeapLayout.Fresh() else rows[s]
  }

  // First fit over the segments that exist, else in the first that does not.
  ghost predicate Chosen(rows: Rows, s: nat, n: nat) {
    && s < |rows|
    && if rows[s] != [] then forall t :: 0 <= t < s ==> NoFit(rows[t], n)
       else (forall t :: 0 <= t < |rows| ==> NoFit(rows[t], n)) && forall t :: 0 <= t < s ==> rows[t] != []
  }

  ghost predicate Malloced(rows: Rows, rows': Rows, n: nat, s: nat, offset: nat, i: nat) {
    && Chosen(rows, s, n) && FirstFit(RowOr(rows, s), i, n)
    && offset == RowOr(rows, s)[i].Address() && rows' == rows[s := Taken(RowOr(rows, s), i, n)]
  }

  // No request is served from the heap when nothing fits and no segment can be added;
  // a request too large for any segment creates all of them.
  ghost predicate Refused(rows: Rows, rows': Rows, n: nat) {
    && |rows'| == |rows| && (forall t :: 0 <= t < |rows| ==> NoFit(RowOr(rows, t), n) && rows'[t] == RowOr(rows, t))
  }

  // free, when block `i` of segment `s` is the one: an empty segment other than the
  // first is given back.
  function Freed(rows: Rows, s: nat, i: nat): Rows
    requires s < |rows| && i < |rows[s]|
  {
    var row := Released(rows[s], i);
    rows[s := if s > 0 && row == HeapLayout.Fresh() then [] else row]
  }

  ghost predicate FreedBlock(rows: Rows, rows': Rows, s: nat, offset: nat, i: nat) {
    s < |rows| && i < |rows[s]| && rows[s][i].Address() == offset && rows' == Freed(rows, s, i)
  }

  // A request that is served, block for block.
  lemma MallocedIs(rows: Rows, rows': Rows, size: nat, s: nat, offset: nat, i: nat)
    requires |rows| == MAX_SELECTORS && 0 < size < 65535 && Malloced(rows, rows', Rounded(size), s, offset, i)
    ensures s < 100 == |rows|
    ensures
      var bs, n := if rows[s] == [] then [Block(0, 65516, true)] else rows[s], size + size % 2;
      && i < |bs| && bs[i].free && n <= bs[i].size && offset == bs[i].at + 4
      && (forall k :: 0 <= k < i ==> !(bs[k].free && bs[k].size >= n))
      && rows' == rows[s := bs[..i] +
        (if bs[i].size > n + 4
         then [Block(bs[i].at, n, false), Block(bs[i].at + 4 + n, bs[i].size - n - 4, true)]
         else [Block(bs[i].at, bs[i].size, false)]) + bs[i + 1..]]
    ensures forall t, k :: 0 <= t < (if rows[s] == [] then 100 else s) && 0 <= k < |rows[t]| ==>
      !(rows[t][k].free && rows[t][k].size >= size + size % 2)
    ensures rows[s] == [] ==> forall t :: 0 <= t < s ==> rows[t] != []
  {
    hide Taken;
    TakenIs(RowOr(rows, s), i, Rounded(size));
    forall t, k | 0 <= t < (if rows[s] == [] then 100 else s) && 0 <= k < |rows[t]|
      ensures !(rows[t][k].free && rows[t][k].size >= size + size % 2)
    {
      assert NoFit(rows[t], Rounded(size)) && !Fits(rows[t][k], Rounded(size));
    }
    forall k | 0 <= k < i ensures var b := RowOr(rows, s)[k]; !(b.free && b.size >= size + size % 2) {
      assert !Fits(RowOr(rows, s)[k], Rounded(size));
    }
  }

  lemma RefusedIs(rows: Rows, rows': Rows, size: nat)
    requires |rows| == MAX_SELECTORS && 0 < size < 65535 && Refused(rows, rows', Rounded(size))
    ensures forall t, k :: 0 <= t < 100 && 0 <= k < |rows[t]| ==>
      !(rows[t][k].free && rows[t][k].size >= size + size % 2)
    ensures size > 65516 || forall t :: 0 <= t < 100 ==> rows[t] != []
  {
    forall t, k | 0 <= t < 100 && 0 <= k < |rows[t]| ensures !(rows[t][k].free && rows[t][k].size >= size + size % 2) {
      assert NoFit(RowOr(rows, t), Rounded(size)) && RowOr(rows, t) == rows[t] && !Fits(rows[t][k], Rounded(size));
    }
    if size <= 65516 {
      forall t | 0 <= t < 100 ensures rows[t] != [] {
        assert NoFit(RowOr(rows, t), Rounded(size)) && !Fits(RowOr(rows, t)[0], Rounded(size));
      }
    }
  }

  class Heap {
    const mem: array2<Byte>       // mem[s, p]: byte p of segment s
    const present: array<bool>    // rgpSegment[s] is not NULL
    ghost var rows: seq<seq<Block>>

    ghost predicate Shape()
      reads this
    {
      mem.Length0 == MAX_SELECTORS && mem.Length1 == HEAP_SIZE && present.Length == MAX_SELECTORS &&
          |rows| == MAX_SELECTORS
    }

    ghost function Segment(s: nat): (r: seq<Byte>)
      requires s < mem.Length0
      reads mem
      ensures |r| == mem.Length1
    {
      seq(mem.Length1, p requires 0 <= p < mem.Length1 reads mem => mem[s, p])
    }

    ghost function Bytes(): (r: seq<seq<Byte>>)
      reads mem
      ensures |r| == mem.Length0 && forall s :: 0 <= s < |r| ==> r[s] == Segment(s) && |r[s]| == mem.Length1
    {
      seq(mem.Length0, s requires 0 <= s < mem.Length0 reads mem => Segment(s))
    }

    // The row of segment `s` is what its headers say.
    ghost predicate SegmentOk(s: nat)
      requires Shape() && s < MAX_SELECTORS
      reads this, mem, present
    {
      if present[s] then Sound(rows[s]) && Mirrors(Segment(s), rows[s]) else rows[s] == []
    }

    ghost predicate Valid()
      reads this, mem, present
    {
      Shape() && forall s: nat :: s < MAX_SELECTORS ==> SegmentOk(s)
    }

    constructor ()
      ensures Valid() && fresh(mem) && fresh(present) && forall s :: 0 <= s < MAX_SELECTORS ==> rows[s] == []
    {
      mem := new Byte[MAX_SELECTORS, HEAP_SIZE];
      present := new bool[MAX_SELECTORS](_ => false);
      rows := seq(MAX_SELECTORS, _ => []);
    }

    // ------------------------------------------------------------ block headers

    function BlockSize(s: nat, p: nat): nat
      requires s < mem.Length0 && p + HEADER <= mem.Length1
      reads mem
    {
      var v := ReadLong(s, p);
      v - v % 2
    }

    predicate IsBlockFree(s: nat, p: nat)
      requires s < mem.Length0 && p + HEADER <= mem.Length1
      reads mem
    {
      ReadLong(s, p) % 2 == 1
    }

    function ReadLong(s: nat, p: nat): (v: nat)
      requires s < mem.Length0 && p + HEADER <= mem.Length1
      reads mem
      ensures v == Long(Segment(s), p)
    {
      var b0: int, b1: int, b2: int, b3: int := mem[s, p], mem[s, p + 1], mem[s, p + 2], mem[s, p + 3];
      b0 + 0x100 * b1 + 0x1_0000 * b2 + 0x100_0000 * b3
    }

    method WriteLong(s: nat, p: nat, v: nat)
      requires s < mem.Length0 && p + HEADER <= mem.Length1 && v < 0x1_0000_0000
      modifies mem
      ensures Segment(s) == PutLong(old(Segment(s)), p, v)
      ensures Long(Segment(s), p) == v && SameOutside(old(Segment(s)), Segment(s), p, p + HEADER)
      ensures forall t: nat :: t < mem.Length0 && t != s ==> Segment(t) == old(Segment(t))
    {
      LongPut(Segment(s), p, v);
      mem[s, p], mem[s, p + 1] := v % 0x100, v / 0x100 % 0x100;
      mem[s, p + 2], mem[s, p + 3] := v / 0x1_0000 % 0x100, v / 0x100_0000;
      assert Segment(s) == PutLong(old(Segment(s)), p, v);
    }

    method SetFree(s: nat, p: nat)
      requires s < mem.Length0 && p + HEADER <= mem.Length1
      modifies mem
      ensures Long(Segment(s), p) == old(BlockSize(s, p)) + 1 && SameOutside(old(Segment(s)), Segment(s), p, p + HEADER)
      ensures forall t: nat :: t < mem.Length0 && t != s ==> Segment(t) == old(Segment(t))
    {
      hide Long, PutLong, SameOutside;
      var v := ReadLong(s, p);
      SmallLong(s, p);
      WriteLong(s, p, v - v % 2 + 1);
    }

    method SetInUse(s: nat, p: nat)
      requires s < mem.Length0 && p + HEADER <= mem.Length1
      modifies mem
      ensures Long(Segment(s), p) == old(BlockSize(s, p)) && SameOutside(old(Segment(s)), Segment(s), p, p + HEADER)
      ensures forall t: nat :: t < mem.Length0 && t != s ==> Segment(t) == old(Segment(t))
    {
      hide Long, PutLong, SameOutside;
      var v := ReadLong(s, p);
      SmallLong(s, p);
      WriteLong(s, p, v - v % 2);
    }

    lemma SmallLong(s: nat, p: nat)
      requires s < mem.Length0 && p + HEADER <= mem.Length1
      ensures ReadLong(s, p) < 0x1_0000_0000
    {
    }

    // SetBlockSize keeps the free bit.
    method SetBlockSize(s: nat, p: nat, size: nat)
      requires s < mem.Length0 && p + HEADER <= mem.Length1 && size % 2 == 0 && size < HEAP_SIZE
      modifies mem
      ensures Long(Segment(s), p) == size + (if old(IsBlockFree(s, p)) then 1 else 0)
      ensures SameOutside(old(Segment(s)), Segment(s), p, p + HEADER)
      ensures forall t: nat :: t < mem.Length0 && t != s ==> Segment(t) == old(Segment(t))
    {
      hide Long, PutLong, SameOutside;
      var free := IsBlockFree(s, p);
      ghost var m := Segment(s);
      WriteLong(s, p, size);
      ghost var m1 := Segment(s);
      if free {
        SetFree(s, p);
        SameTwice(m, m1, Segment(s), p, p + HEADER, p, p + HEADER);
      }
    }

    lemma HeaderReads(s: nat, bs: seq<Block>, i: nat)
      requires s < mem.Length0 && Sound(bs) && Mirrors(Segment(s), bs) && i < |bs|
      ensures bs[i].at + HEADER <= mem.Length1 == HEAP_SIZE && bs[i].End() <= HEAP_SIZE && bs[i].size % 2 == 0
      ensures BlockSize(s, bs[i].at) == bs[i].size && IsBlockFree(s, bs[i].at) == bs[i].free
      ensures Long(Segment(s), bs[i].at) == HeaderOf(bs[i])
      ensures bs[i].End() == if i + 1 < |bs| then bs[i + 1].at else HEAP_SIZE
    {
      hide Tiles, Apart, Long;
      HeapLayout.Around(bs, i);
      Neighbours(bs[..i], bs[i], bs[i + 1..]);
      NextAt(bs, i);
      assert HeaderIs(Segment(s), bs[i]);
    }

    // FindFreeSpace: the first free block that is large enough, split if it can be.
    method FindFreeSpace(s: nat, n: nat, ghost bs: seq<Block>) returns (r: nat, ghost i: nat)
      requires s < mem.Length0 && mem.Length1 == HEAP_SIZE && Sound(bs) && Mirrors(Segment(s), bs) && n % 2 == 0
      modifies mem
      ensures r == 0 ==> NoFit(bs, n) && forall t: nat :: t < mem.Length0 ==> Segment(t) == old(Segment(t))
      ensures r != 0 ==>
        && FirstFit(bs, i, n) && r == bs[i].Address() && Mirrors(Segment(s), Taken(bs, i, n))
        && SameOutside(old(Segment(s)), Segment(s), bs[i].at, bs[i].End())
      // A rest of more than four bytes becomes a free block behind the used one, otherwise
      // the whole block is used; both headers, byte by byte.
      ensures r != 0 ==>
        && i < |bs| && 4 <= r == bs[i].at + 4 && n <= bs[i].size && r + bs[i].size <= 0xFFF0
        && var used := if bs[i].size > n + 4 then n else bs[i].size;
        && mem[s, r - 4] as int + 256 * (mem[s, r - 3] as int) == used && mem[s, r - 2] == 0 == mem[s, r - 1]
      ensures r != 0 && bs[i].size > n + 4 ==>
        && mem[s, r + n] as int + 256 * (mem[s, r + n + 1] as int) == bs[i].size - n - 4 + 1
        && mem[s, r + n + 2] == 0 == mem[s, r + n + 3]
      ensures forall t: nat :: t < mem.Length0 && t != s ==> Segment(t) == old(Segment(t))
    {
      hide Tiles, Apart, Long, Mirrors, Sound, Segment, BlockSize, IsBlockFree;
      FirstAt(bs);
      var work := 0;
      i := 0;
      while work < HEAP_SIZE
        invariant i <= |bs| && work == if i < |bs| then bs[i].at else HEAP_SIZE
        invariant forall k :: 0 <= k < i ==> !Fits(bs[k], n)
        invariant forall t: nat :: t < mem.Length0 ==> Segment(t) == old(Segment(t))
        decreases |bs| - i
      {
        StartsBelow(bs, i);
        HeaderReads(s, bs, i);
        if BlockSize(s, work) >= n && IsBlockFree(s, work) {
          Take(s, work, n, bs, i);
          TakenBytes(s, bs, i, n);
          return work + HEADER, i;
        }
        work := work + BlockSize(s, work) + HEADER;
        i := i + 1;
      }
      if i < |bs| { StartsBelow(bs, i); HeaderReads(s, bs, i); }
      r := 0;
    }

    // Take a free block, all of it or its first `n` bytes.
    method Take(s: nat, work: nat, n: nat, ghost bs: seq<Block>, ghost i: nat)
      requires s < mem.Length0 && mem.Length1 == HEAP_SIZE && Sound(bs) && Mirrors(Segment(s), bs) && n % 2 == 0
      requires i < |bs| && work == bs[i].at && Fits(bs[i], n)
      modifies mem
      ensures Mirrors(Segment(s), Taken(bs, i, n))
      ensures SameOutside(old(Segment(s)), Segment(s), bs[i].at, bs[i].End())
      ensures forall t: nat :: t < mem.Length0 && t != s ==> Segment(t) == old(Segment(t))
    {
      hide Tiles, Apart, Long, Mirrors, Sound, Segment, SameOutside, ReadLong;
      HeaderReads(s, bs, i);
      var size := BlockSize(s, work);
      var remaining := size - n;
      ghost var m0 := Segment(s);
      if remaining > HEADER {
        var next := work + HEADER + n;
        SetBlockSize(s, next, size - n - HEADER);
        ghost var m1 := Segment(s);
        SetFree(s, next);
        ghost var m2 := Segment(s);
        LongElsewhere(m0, m1, next, next + HEADER, work);
        LongElsewhere(m1, m2, next, next + HEADER, work);
        SetBlockSize(s, work, n);
        ghost var m3 := Segment(s);
        LongElsewhere(m2, m3, work, work + HEADER, next);
        SetInUse(s, work);
        LongElsewhere(m3, Segment(s), work, work + HEADER, next);
        SameTwice(m0, m1, m2, next, next + HEADER, next, next + HEADER);
        SameTwice(m0, m2, m3, next, next + HEADER, work, work + HEADER);
        SameTwice(m0, m3, Segment(s), work, next + HEADER, work, work + HEADER);
        Wider(m0, Segment(s), work, next + HEADER, bs[i].at, bs[i].End());
      } else {
        SetInUse(s, work);
        Wider(m0, Segment(s), work, work + HEADER, bs[i].at, bs[i].End());
      }
      SameLength(m0, Segment(s), bs[i].at, bs[i].End());
      MirrorsTaken(m0, Segment(s), bs, i, n);
    }

    // The headers of a split in bytes, the low byte first.
    lemma TakenBytes(s: nat, bs: seq<Block>, i: nat, n: nat)
      requires s < mem.Length0 && mem.Length1 == HEAP_SIZE && Sound(bs) && i < |bs| && Fits(bs[i], n) && n % 2 == 0
      requires Mirrors(Segment(s), Taken(bs, i, n))
      ensures bs[i].at + 4 + bs[i].size <= HEAP_SIZE
      ensures BytesAre(s, bs[i].at, if bs[i].size > n + 4 then n else bs[i].size)
      ensures bs[i].size > n + 4 ==> BytesAre(s, bs[i].at + 4 + n, bs[i].size - n - 4 + 1)
    {
      hide Sound, Mirrors, Long, Segment, Taken, BytesAre;
      InSegment(bs, i);
      TakenSound(bs, i, n);
      TakenIs(bs, i, n);
      var row := Taken(bs, i, n);
      assert row[i].at == bs[i].at && row[i].size == if bs[i].size > n + 4 then n else bs[i].size;
      HeaderReads(s, row, i);
      HeaderBytes(s, row[i].at, row[i].size);
      if bs[i].size > n + 4 {
        assert row[i + 1] == Block(bs[i].at + 4 + n, bs[i].size - n - 4, true);
        HeaderReads(s, row, i + 1);
        HeaderBytes(s, row[i + 1].at, row[i + 1].size + 1);
      }
    }

    ghost predicate BytesAre(s: nat, p: nat, v: nat)
      requires s < mem.Length0
      reads mem
    {
      && p + 4 <= mem.Length1 && mem[s, p] as int + 256 * (mem[s, p + 1] as int) == v
      && mem[s, p + 2] == 0 == mem[s, p + 3]
    }

    lemma HeaderBytes(s: nat, p: nat, v: nat)
      requires s < mem.Length0 && p + 4 <= mem.Length1 && Long(Segment(s), p) == v < 0x1_0000
      ensures BytesAre(s, p, v)
    {
      var b0, b1, b2, b3 := mem[s, p] as int, mem[s, p + 1] as int, mem[s, p + 2] as int, mem[s, p + 3] as int;
      assert ReadLong(s, p) == b0 + 0x100 * b1 + 0x1_0000 * b2 + 0x100_0000 * b3;
    }

    // The loop of free: find the block and join it with its free neighbours.
    method FreeBlock(s: nat, p: nat, ghost bs: seq<Block>) returns (found: bool, ghost i: nat)
      requires s < mem.Length0 && mem.Length1 == HEAP_SIZE && Sound(bs) && Mirrors(Segment(s), bs)
      modifies mem
      ensures !found ==> (forall k :: 0 <= k < |bs| ==> bs[k].Address() != p) && Segment(s) == old(Segment(s))
      ensures found ==>
        && i < |bs| && bs[i].Address() == p && Mirrors(Segment(s), Released(bs, i))
        && SameOutside(old(Segment(s)), Segment(s), bs[Lo(bs, i)].at, bs[Lo(bs, i)].Address())
      ensures forall t: nat :: t < mem.Length0 && t != s ==> Segment(t) == old(Segment(t))
    {
      hide Tiles, Apart, Long, Mirrors, Sound, Segment, BlockSize, IsBlockFree, SameOutside;
      FirstAt(bs);
      var work, prev := 0, -1;
      i := 0;
      while work < HEAP_SIZE
        invariant i <= |bs| && work == if i < |bs| then bs[i].at else HEAP_SIZE
        invariant prev == if i > 0 then bs[i - 1].at else -1
        invariant forall k :: 0 <= k < i ==> bs[k].Address() != p
        invariant forall t: nat :: t < mem.Length0 ==> Segment(t) == old(Segment(t))
        decreases |bs| - i
      {
        StartsBelow(bs, i);
        HeaderReads(s, bs, i);
        if work + HEADER == p {
          Join(s, work, prev, bs, i);
          return true, i;
        }
        prev := work;
        work := work + BlockSize(s, work) + HEADER;
        i := i + 1;
      }
      if i < |bs| { StartsBelow(bs, i); HeaderReads(s, bs, i); }
      found := false;
    }

    method Join(s: nat, work: nat, prev: int, ghost bs: seq<Block>, ghost i: nat)
      requires s < mem.Length0 && mem.Length1 == HEAP_SIZE && Sound(bs) && Mirrors(Segment(s), bs)
      requires i < |bs| && work == bs[i].at && prev == if i > 0 then bs[i - 1].at else -1
      modifies mem
      ensures Mirrors(Segment(s), Released(bs, i))
      ensures SameOutside(old(Segment(s)), Segment(s), bs[Lo(bs, i)].at, bs[Lo(bs, i)].Address())
      ensures forall t: nat :: t < mem.Length0 && t != s ==> Segment(t) == old(Segment(t))
    {
      hide Tiles, Apart, Long, Mirrors, Sound, Segment, SameOutside, Released, BlockSize, IsBlockFree;
      HeaderReads(s, bs, i);
      if i + 1 < |bs| { HeaderReads(s, bs, i + 1); }
      ghost var m0, lo := Segment(s), Lo(bs, i);
      var c := JoinPrevious(s, work, prev, bs, i);
      ghost var m1 := Segment(s);
      if i + 1 < |bs| { LongElsewhere(m0, m1, c, c + HEADER, bs[i + 1].at); }
      JoinNext(s, c, bs, i);
      SameTwice(m0, m1, Segment(s), bs[lo].at, bs[lo].Address(), bs[lo].at, bs[lo].Address());
      MirrorsReleased(m0, Segment(s), bs, i);
    }

    // With the previous block, when that is free.
    method JoinPrevious(s: nat, work: nat, prev: int, ghost bs: seq<Block>, ghost i: nat) returns (c: nat)
      requires s < mem.Length0 && mem.Length1 == HEAP_SIZE && Sound(bs) && Mirrors(Segment(s), bs)
      requires i < |bs| && work == bs[i].at && prev == if i > 0 then bs[i - 1].at else -1
      modifies mem
      ensures c == bs[Lo(bs, i)].at && c + HEADER <= bs[i].End() <= HEAP_SIZE
      ensures Long(Segment(s), c) == bs[i].End() - c - HEADER + (if bs[Lo(bs, i)].free then 1 else 0)
      ensures (bs[i].End() - c) % 2 == 0
      ensures SameOutside(old(Segment(s)), Segment(s), c, c + HEADER)
      ensures forall t: nat :: t < mem.Length0 && t != s ==> Segment(t) == old(Segment(t))
    {
      hide Tiles, Apart, Long, Mirrors, Sound, Segment, SameOutside, BlockSize, IsBlockFree;
      HeaderReads(s, bs, i);
      c := work;
      ghost var m0 := Segment(s);
      NotChanged(m0, c, c + HEADER);
      if prev != -1 {
        HeaderReads(s, bs, i - 1);
        if IsBlockFree(s, prev) {
          SetBlockSize(s, prev, BlockSize(s, prev) + BlockSize(s, work) + HEADER);
          c := prev;
        }
      }
    }

    static ghost predicate NextOk(m: seq<Byte>, b: Block, next: Block) {
      b.End() == next.at && next.End() <= HEAP_SIZE == |m| && next.size % 2 == 0 && Long(m, next.at) == HeaderOf(next)
    }

    lemma HeaderParts(s: nat, b: Block)
      requires s < mem.Length0 && b.at + HEADER <= mem.Length1 && b.size % 2 == 0
      requires Long(Segment(s), b.at) == HeaderOf(b)
      ensures BlockSize(s, b.at) == b.size && IsBlockFree(s, b.at) == b.free
    {
      hide Long, Segment;
    }

    // With the next block, when there is one and it is free.
    method JoinNext(s: nat, c: nat, ghost bs: seq<Block>, ghost i: nat)
      requires s < mem.Length0 && mem.Length1 == HEAP_SIZE && Sound(bs)
      requires i < |bs| && c == bs[Lo(bs, i)].at && c + HEADER <= bs[i].End() <= HEAP_SIZE && (bs[i].End() - c) % 2 == 0
      requires Long(Segment(s), c) == bs[i].End() - c - HEADER + (if bs[Lo(bs, i)].free then 1 else 0)
      requires if i + 1 < |bs| then NextOk(Segment(s), bs[i], bs[i + 1]) else bs[i].End() == HEAP_SIZE
      modifies mem
      ensures Long(Segment(s), c) == Merged(bs, Lo(bs, i), Hi(bs, i)).size + 1
      ensures SameOutside(old(Segment(s)), Segment(s), c, c + HEADER)
      ensures forall t: nat :: t < mem.Length0 && t != s ==> Segment(t) == old(Segment(t))
    {
      hide Tiles, Apart, Long, Segment, SameOutside, Sound, BlockSize, IsBlockFree;
      ghost var m0 := Segment(s);
      NotChanged(m0, c, c + HEADER);
      HeaderParts(s, Block(c, bs[i].End() - c - HEADER, bs[Lo(bs, i)].free));
      if i + 1 < |bs| { HeaderParts(s, bs[i + 1]); }
      var next := c + BlockSize(s, c) + HEADER;
      if next < HEAP_SIZE && IsBlockFree(s, next) {
        SetBlockSize(s, c, BlockSize(s, c) + BlockSize(s, next) + HEADER);
      }
      ghost var m1 := Segment(s);
      HeaderParts(s, Block(c, Merged(bs, Lo(bs, i), Hi(bs, i)).size, bs[Lo(bs, i)].free));
      SetFree(s, c);
      SameTwice(m0, m1, Segment(s), c, c + HEADER, c, c + HEADER);
    }

    lemma RowFacts(s: nat)
      requires Valid() && s < MAX_SELECTORS
      ensures Shape() && SegmentOk(s)
      ensures present[s] ==> Sound(rows[s]) && Mirrors(Segment(s), rows[s]) && rows[s] != []
      ensures !present[s] ==> rows[s] == []
    {
      assert SegmentOk(s);
      if present[s] { FirstAt(rows[s]); }
    }

    // The first loop of malloc, on one segment.
    method TryExisting(s: nat, n: nat) returns (r: nat, ghost i: nat)
      requires Valid() && s < MAX_SELECTORS && present[s] && n % 2 == 0
      modifies `rows, mem
      ensures Valid()
      ensures r == 0 ==> rows == old(rows) && NoFit(rows[s], n)
      ensures r != 0 ==>
        && FirstFit(old(rows[s]), i, n) && r == old(rows[s])[i].Address()
        && rows == old(rows)[s := Taken(old(rows[s]), i, n)]
        && SameOutside(old(Segment(s)), Segment(s), old(rows[s])[i].at, old(rows[s])[i].End())
      ensures forall t: nat :: t < MAX_SELECTORS && (t != s || r == 0) ==> Segment(t) == old(Segment(t))
    {
      hide Sound, Mirrors, SameOutside, NoFit, FirstFit, Segment, Taken;
      RowFacts(s);
      ghost var bs := rows[s];
      r, i := FindFreeSpace(s, n, bs);
      if r != 0 {
        FitsSound(bs, i, n);
        rows := rows[s := Taken(bs, i, n)];
      }
      forall t: nat | t < MAX_SELECTORS && t != s ensures SegmentOk(t) {
        assert old(SegmentOk(t));
      }
    }

    // gdtAlloc of a segment: one free block.
    method NewSegment(s: nat)
      requires Valid() && s < MAX_SELECTORS && !present[s]
      modifies `rows, mem, present
      ensures Valid() && present[s] && rows == old(rows)[s := HeapLayout.Fresh()]
      ensures forall t: nat :: t < MAX_SELECTORS && t != s ==>
        Segment(t) == old(Segment(t)) && present[t] == old(present[t])
    {
      hide Sound, Mirrors, SameOutside, Segment, Long;
      present[s] := true;
      SetBlockSize(s, 0, HEAP_SIZE - HEADER);
      SetFree(s, 0);
      HeaderParts(s, HeapLayout.Fresh()[0]);
      FreshSound();
      rows := rows[s := HeapLayout.Fresh()];
      FreshMirrors(Segment(s));
      forall t: nat | t < MAX_SELECTORS && t != s ensures SegmentOk(t) {
        assert old(SegmentOk(t));
      }
    }

    // malloc: first fit over the segments there are, then in a new one; sizes that wrap
    // to zero and requests the heap refuses get a segment of their own.
    method Malloc(size: nat) returns (p: Ptr, ghost i: nat)
      requires Valid() && size < 0x1_0000
      modifies `rows, mem, present
      ensures Valid()
      ensures p.At? ==> Malloced(old(rows), rows, Rounded(size), p.segment, p.offset, i)
      ensures p.Whole? ==>
        if Rounded(size) == 0 then p.bytes == 0x1_0000 && rows == old(rows)
        else p.bytes == Rounded(size) && Refused(old(rows), rows, Rounded(size))
      ensures forall t: nat :: t < MAX_SELECTORS && old(present[t]) && !(p.At? && t == p.segment) ==>
        Segment(t) == old(Segment(t))
      ensures p.At? && old(rows)[p.segment] != [] ==>
        && i < |old(rows)[p.segment]|
        && var b := old(rows)[p.segment][i]; SameOutside(old(Segment(p.segment)), Segment(p.segment), b.at, b.End())
      // Block for block: an odd size is rounded up, and a rest of more than four bytes stays
      // free behind the used block. In the segment nothing before the block was large enough.
      ensures p.At? ==>
        && p.segment < 100 == |old(rows)| && 0 < size < 65535
        && var bs, n := if old(rows)[p.segment] == [] then [Block(0, 65516, true)] else old(rows)[p.segment],
          size + size % 2;
        && i < |bs| && bs[i].free && n <= bs[i].size && p.offset == bs[i].at + 4
        && (forall k :: 0 <= k < i ==> !(bs[k].free && bs[k].size >= n))
        && rows == old(rows)[p.segment := bs[..i] +
          (if bs[i].size > n + 4
           then [Block(bs[i].at, n, false), Block(bs[i].at + 4 + n, bs[i].size - n - 4, true)]
           else [Block(bs[i].at, bs[i].size, false)]) + bs[i + 1..]]
      // No segment before it has room, and a new one is added only when none has.
      ensures p.At? ==> forall t, k ::
        0 <= t < (if old(rows)[p.segment] == [] then 100 else p.segment) && 0 <= k < |old(rows)[t]| ==>
          !(old(rows)[t][k].free && old(rows)[t][k].size >= size + size % 2)
      ensures p.At? && old(rows)[p.segment] == [] ==> forall t :: 0 <= t < p.segment ==> old(rows)[t] != []
      // Otherwise the request has a segment of its own: size 0, a size that wraps, or no room.
      ensures p.Whole? ==>
        && p.bytes == (if size == 0 then 65536 else size + size % 2)
        && (0 < size < 65535 ==>
          && (forall t, k :: 0 <= t < 100 && 0 <= k < |old(rows)[t]| ==>
               !(old(rows)[t][k].free && old(rows)[t][k].size >= size + size % 2))
          && (size > 65516 || forall t :: 0 <= t < 100 ==> old(rows)[t] != []))
    {
      hide Sound, Mirrors, SameOutside, Segment, NoFit, Taken, Valid;
      var n := Rounded(size);
      i := 0;
      if n > 0 {
        ghost var was := rows;
        ShapeOf();
        var s := 0;
        while s < MAX_SELECTORS
          invariant s <= MAX_SELECTORS && Valid() && rows == was && Shape()
          invariant forall t: nat :: t < MAX_SELECTORS ==> Segment(t) == old(Segment(t))
          invariant forall t :: 0 <= t < s ==> NoFit(was[t], n)
          invariant forall t: nat :: t < MAX_SELECTORS ==> present[t] == old(present[t])
        {
          RowFacts(s);
          if present[s] {
            var r;
            r, i := TryExisting(s, n);
            if r != 0 {
              MallocedIs(was, rows, size, s, r, i);
              return At(s, r), i;
            }
          } else {
            NothingFits(n);
          }
          s := s + 1;
        }
        p, i := Grow(n);
        if p.At? {
          MallocedIs(was, rows, size, p.segment, p.offset, i);
        } else {
          RefusedIs(was, rows, size);
        }
        return;
      }
      p := Whole(0x1_0000);
    }

    lemma ShapeOf()
      requires Valid()
      ensures Shape()
    {
    }

    // The second loop of malloc, after nothing fit.
    method Grow(n: nat) returns (p: Ptr, ghost i: nat)
      requires Valid() && n % 2 == 0 && n > 0 && Shape() && forall t :: 0 <= t < MAX_SELECTORS ==> NoFit(rows[t], n)
      modifies `rows, mem, present
      ensures Valid()
      ensures p.At? ==> Malloced(old(rows), rows, n, p.segment, p.offset, i) && old(rows)[p.segment] == []
      ensures p.Whole? ==> p.bytes == n && Refused(old(rows), rows, n)
      ensures forall t: nat :: t < MAX_SELECTORS && old(present[t]) ==> Segment(t) == old(Segment(t))
    {
      hide Sound, Mirrors, SameOutside, Segment, NoFit, FirstFit, Taken, Valid;
      ghost var was := rows;
      i := 0;
      var s := 0;
      while s < MAX_SELECTORS
        invariant s <= MAX_SELECTORS && Valid() && Shape()
        invariant forall t: nat :: t < MAX_SELECTORS && old(present[t]) ==> Segment(t) == old(Segment(t))
        invariant forall t :: 0 <= t < s ==> rows[t] == RowOr(was, t) && NoFit(RowOr(was, t), n)
        invariant forall t: nat :: s <= t < MAX_SELECTORS ==> rows[t] == was[t] && present[t] == old(present[t])
      {
        RowFacts(s);
        if !present[s] {
          NewSegment(s);
          var r;
          r, i := TryExisting(s, n);
          if r != 0 {
            FirstGap(was, rows, s, n, i);
            return At(s, r), i;
          }
        }
        s := s + 1;
      }
      p := Whole(n);
    }

    // free
    method Free(p: Ptr) returns (found: bool, ghost i: nat)
      requires Valid()
      modifies `rows, mem, present
      ensures Valid()
      ensures found ==> p.At? && p.segment < MAX_SELECTORS && FreedBlock(old(rows), rows, p.segment, p.offset, i)
      ensures !found ==>
        && rows == old(rows)
        && (p.At? && 0 < p.offset && p.segment < MAX_SELECTORS ==> forall k :: 0 <= k < |rows[p.segment]| ==>
            rows[p.segment][k].Address() != p.offset)
      ensures forall t: nat :: t < MAX_SELECTORS && !(found && t == p.segment) ==> Segment(t) == old(Segment(t))
      ensures found ==>
        var b := old(rows)[p.segment][Lo(old(rows)[p.segment], i)];
        SameOutside(old(Segment(p.segment)), Segment(p.segment), b.at, b.Address())
      // Block for block: one free block over the released one and its free neighbours; a
      // segment other than the first that has become one free block goes back.
      ensures found ==>
        && p.segment < 100 == |old(rows)|
        && var bs := old(rows)[p.segment];
        && i < |bs| && p.offset == bs[i].at + 4
        && var lo, hi := if i > 0 && bs[i - 1].free then i - 1 else i,
          if i + 1 < |bs| && bs[i + 1].free then i + 2 else i + 1;
        && bs[lo].at <= bs[hi - 1].at
        && var row :=
          bs[..lo] + [Block(bs[lo].at, bs[hi - 1].at + bs[hi - 1].size - bs[lo].at, true)] + bs[hi..];
        && rows == old(rows)[p.segment := if p.segment > 0 && row == [Block(0, 65516, true)] then [] else row]
    {
      hide Sound, Mirrors, SameOutside, Segment, Released, Lo, Hi, Valid;
      ShapeOf();
      i, found := 0, false;
      if p.Whole? || p.offset == 0 {
        return;                 // a segment of its own goes back as a whole
      }
      if p.segment >= MAX_SELECTORS || !present[p.segment] {
        if p.segment < MAX_SELECTORS { RowFacts(p.segment); }
        return;                 // no heap segment has this selector
      }
      var s := p.segment;
      RowFacts(s);
      ghost var bs := rows[s];
      found, i := FreeInSegment(s, p.offset);
      if found {
        ghost var lo, hi := if i > 0 && bs[i - 1].free then i - 1 else i,
          if i + 1 < |bs| && bs[i + 1].free then i + 2 else i + 1;
        ReleasedIs(bs, i, lo, hi);
      }
    }

    method FreeInSegment(s: nat, offset: nat) returns (found: bool, ghost i: nat)
      requires Valid() && s < MAX_SELECTORS && present[s]
      modifies `rows, mem, present
      ensures Valid()
      ensures found ==> FreedBlock(old(rows), rows, s, offset, i)
      ensures !found ==> rows == old(rows) && forall k :: 0 <= k < |rows[s]| ==> rows[s][k].Address() != offset
      ensures forall t: nat :: t < MAX_SELECTORS && !(found && t == s) ==> Segment(t) == old(Segment(t))
      ensures found ==>
        var b := old(rows)[s][Lo(old(rows)[s], i)]; SameOutside(old(Segment(s)), Segment(s), b.at, b.Address())
    {
      hide Sound, Mirrors, SameOutside, Segment, Released, Lo, Hi, BlockSize, IsBlockFree;
      RowFacts(s);
      ghost var bs := rows[s];
      found, i := FreeBlock(s, offset, bs);
      if found {
        ReleasedSound(bs, i);
        ghost var row := Released(bs, i);
        rows := rows[s := row];
        FirstAt(row);
        HeaderReads(s, row, 0);
        OnlyBlock(row);
        if s > 0 && BlockSize(s, 0) == HEAP_SIZE - HEADER && IsBlockFree(s, 0) {
          present[s] := false;
          rows := rows[s := []];
        }
      }
      forall t: nat | t < MAX_SELECTORS && t != s ensures SegmentOk(t) {
        assert old(SegmentOk(t));
      }
    }
  }

  lemma SameTwice(x: seq<Byte>, y: seq<Byte>, z: seq<Byte>, from: nat, to: nat, from': nat, to': nat)
    requires SameOutside(x, y, from, to) && SameOutside(y, z, from', to')
    ensures SameOutside(x, z, if from < from' then from else from', if to < to' then to' else to)
  {
  }

  lemma FirstAt(bs: seq<Block>)
    requires Sound(bs)
    ensures bs != [] && bs[0].at == 0
  {
  }

  lemma StartsBelow(bs: seq<Block>, i: nat)
    requires Sound(bs) && i <= |bs|
    ensures i < |bs| ==> bs[i].at < HEAP_SIZE
  {
    if i < |bs| {
      HeapLayout.Around(bs, i);
      Neighbours(bs[..i], bs[i], bs[i + 1..]);
    }
  }

  lemma Wider(x: seq<Byte>, y: seq<Byte>, from: nat, to: nat, from': nat, to': nat)
    requires SameOutside(x, y, from, to) && from' <= from && to <= to'
    ensures SameOutside(x, y, from', to')
  {
  }

  lemma MirrorsTaken(x: seq<Byte>, y: seq<Byte>, bs: seq<Block>, i: nat, n: nat)
    requires Sound(bs) && Mirrors(x, bs) && i < |bs| && n <= bs[i].size && SameOutside(x, y, bs[i].at, bs[i].End())
    requires forall k :: 0 <= k < |Split(bs[i], n)| ==> HeaderIs(y, Split(bs[i], n)[k])
    ensures Mirrors(y, Taken(bs, i, n))
  {
    hide Tiles, Apart, SameOutside, Mirrors, HeaderIs;
    HeapLayout.Around(bs, i);
    MirrorsMiddle(bs[..i], [bs[i]], Split(bs[i], n), bs[i + 1..], x, y);
  }

  lemma NotChanged(x: seq<Byte>, from: nat, to: nat)
    ensures SameOutside(x, x, from, to)
  {
  }

  lemma MirrorsReleased(x: seq<Byte>, y: seq<Byte>, bs: seq<Block>, i: nat)
    requires Sound(bs) && Mirrors(x, bs) && i < |bs|
    requires SameOutside(x, y, bs[Lo(bs, i)].at, bs[Lo(bs, i)].Address())
    requires HeaderIs(y, Merged(bs, Lo(bs, i), Hi(bs, i)))
    ensures Mirrors(y, Released(bs, i))
  {
    hide Tiles, Apart, SameOutside, Mirrors, HeaderIs;
    MirrorsMerged(x, y, bs, Lo(bs, i), Hi(bs, i));
  }

  lemma MirrorsMerged(x: seq<Byte>, y: seq<Byte>, bs: seq<Block>, lo: nat, hi: nat)
    requires Sound(bs) && Mirrors(x, bs) && lo < hi <= |bs| && SameOutside(x, y, bs[lo].at, bs[lo].Address())
    requires HeaderIs(y, Merged(bs, lo, hi))
    ensures Mirrors(y, bs[..lo] + [Merged(bs, lo, hi)] + bs[hi..])
  {
    hide Tiles, Apart, SameOutside, Mirrors, HeaderIs;
    var a, m, c := bs[..lo], bs[lo..hi], bs[hi..];
    assert bs == a + m + c;
    assert m[0] == bs[lo] && m[|m| - 1] == bs[hi - 1];
    Stretch(a, m, c);
    Wider(x, y, bs[lo].at, bs[lo].Address(), bs[lo].at, bs[hi - 1].End());
    MirrorsMiddle(a, m, [Merged(bs, lo, hi)], c, x, y);
  }

  lemma FitsSound(bs: seq<Block>, i: nat, n: nat)
    requires Sound(bs) && FirstFit(bs, i, n) && n % 2 == 0
    ensures i < |bs| && n <= bs[i].size && Sound(Taken(bs, i, n)) && Taken(bs, i, n) != []
  {
    hide Sound;
    TakenSound(bs, i, n);
    FirstAt(Taken(bs, i, n));
  }

  lemma FreshMirrors(m: seq<Byte>)
    requires |m| == HEAP_SIZE && Long(m, 0) == HEAP_SIZE - HEADER + 1
    ensures Mirrors(m, HeapLayout.Fresh())
  {
  }

  lemma NothingFits(n: nat)
    ensures NoFit([], n)
  {
  }

  // A new segment has room only if no segment had to be created before it.
  lemma FirstGap(was: Rows, rows: Rows, s: nat, n: nat, i: nat)
    requires s < |was| == |rows| && FirstFit(HeapLayout.Fresh(), i, n) && rows[s] == Taken(HeapLayout.Fresh(), i, n)
    requires forall t :: 0 <= t < s ==> rows[t] == RowOr(was, t) && NoFit(RowOr(was, t), n)
    requires forall t :: s < t < |was| ==> rows[t] == was[t]
    ensures (forall t :: 0 <= t < s ==> was[t] != []) && rows == was[s := Taken(HeapLayout.Fresh(), i, n)]
  {
    forall t | 0 <= t < s ensures was[t] != [] {
      assert NoFit(RowOr(was, t), n);
    }
  }

  lemma OnlyBlock(row: seq<Block>)
    requires Sound(row)
    ensures row != [] && (row == HeapLayout.Fresh() <==> row[0].size == HEAP_SIZE - HEADER && row[0].free)
  {
    FirstAt(row);
    NextAt(row, 0);
    if row[0].size == HEAP_SIZE - HEADER && |row| > 1 {
      StartsBelow(row, 1);
    }
  }

  // The bytes inside every other block survive a request ...
  lemma RequestKeepsBytes(x: seq<Byte>, y: seq<Byte>, bs: seq<Block>, i: nat, k: nat)
    requires Sound(bs) && i < |bs| && k < |bs| && k != i && |x| == HEAP_SIZE && SameOutside(x, y, bs[i].at, bs[i].End())
    ensures bs[k].End() <= HEAP_SIZE == |y| && x[bs[k].Address()..bs[k].End()] == y[bs[k].Address()..bs[k].End()]
  {
    hide Tiles, Apart;
    if i < k { Disjoint(bs, i, k); } else { Disjoint(bs, k, i); }
    HeapLayout.Around(bs, k);
    Neighbours(bs[..k], bs[k], bs[k + 1..]);
  }

  // ... and a release, which writes one header only.
  lemma ReleaseKeepsBytes(x: seq<Byte>, y: seq<Byte>, bs: seq<Block>, lo: nat, k: nat)
    requires Sound(bs) && lo < |bs| && k < |bs| && |x| == HEAP_SIZE && SameOutside(x, y, bs[lo].at, bs[lo].Address())
    ensures bs[k].End() <= HEAP_SIZE == |y| && x[bs[k].Address()..bs[k].End()] == y[bs[k].Address()..bs[k].End()]
  {
    hide Tiles, Apart;
    if lo < k { Disjoint(bs, lo, k); } else if k < lo { Disjoint(bs, k, lo); }
    HeapLayout.Around(bs, k);
    Neighbours(bs[..k], bs[k], bs[k + 1..]);
  }
}

// The flat FAT as a value: free clusters, chains, and what allocating, linking
// and deleting do to them.
module FatChains {
  import opened Common
  import opened FatCodec

  type Fat = seq<nat>

  const ULONG: nat := 0x1_0000_0000

  // The FAT with the two FSInfo counters.
  datatype FatState = FatState(f: Fat, free: nat, next: nat)

  datatype Run = Run(start: nat, len: nat)

  // The two reserved entries are never free, and every entry is a number of the
  // FAT, a bad mark or an end mark.
  ghost predicate WellFormed(t: FatType, f: Fat) {
    && 2 <= |f| <= Bad(t) && f[0] != 0 && f[1] != 0
    && forall c :: 0 <= c < |f| ==> f[c] < |f| || Bad(t) <= f[c] <= Eof(t)
  }

  predicate EndMark(t: FatType, v: nat) { Eof2(t) <= v <= Eof(t) }

  ghost predicate IsFree(f: Fat, c: nat) { 2 <= c < |f| && f[c] == 0 }

  ghost function FreeSet(f: Fat): set<nat> { set c: nat | c < |f| && IsFree(f, c) }

  ghost predicate FreeRun(f: Fat, start: nat, len: nat) {
    2 <= start && start + len <= |f| && forall c :: start <= c < start + len ==> f[c] == 0
  }

  // A file's clusters in order: distinct, each pointing at the next, the last at an end mark.
  ghost predicate IsChain(t: FatType, f: Fat, cs: seq<nat>) {
    && cs != [] && Distinct(cs)
    && (forall i :: 0 <= i < |cs| ==> 2 <= cs[i] < |f|)
    && (forall i :: 0 <= i < |cs| - 1 ==> f[cs[i]] == cs[i + 1])
    && EndMark(t, f[cs[|cs| - 1]])
  }

  lemma ChainNonZero(t: FatType, f: Fat, cs: seq<nat>, i: nat)
    requires IsChain(t, f, cs) && i < |cs|
    ensures f[cs[i]] != 0 && f[cs[i]] != 1
  {
    if i < |cs| - 1 { assert f[cs[i]] == cs[i + 1]; }
  }

  ghost function Cells(cs: seq<nat>): set<nat> { set c | c in cs }

  // ---------------------------------------------------------------- linking

  // MakeChain: the clusters of one run, linked in order.
  ghost function LinkRun(t: FatType, f: Fat, start: nat, len: nat): (r: Fat)
    ensures |r| == |f|
  {
    seq(|f|, c requires 0 <= c < |f| => LinkedEntry(t, f, start, len, c))
  }

  function LinkedEntry(t: FatType, f: Fat, start: nat, len: nat, c: nat): nat
    requires c < |f|
  {
    if start <= c < start + len then (if c == start + len - 1 then Eof(t) else c + 1) else f[c]
  }

  // `g` is `f` with the free clusters `cs` chained and, unless `prev` is the end
  // mark, appended to the chain that ended in `prev`.
  ghost predicate Appended(t: FatType, f: Fat, g: Fat, prev: nat, cs: seq<nat>) {
    && |g| == |f| && cs != [] && Distinct(cs)
    && (forall i :: 0 <= i < |cs| ==> IsFree(f, cs[i]))
    && (forall i :: 0 <= i < |cs| - 1 ==> g[cs[i]] == cs[i + 1])
    && g[cs[|cs| - 1]] == Eof(t)
    && (prev != Eof(t) ==> prev < |f| && f[prev] != 0 && g[prev] == cs[0])
    && (forall c :: 0 <= c < |f| && c !in cs && c != prev ==> g[c] == f[c])
  }

  lemma AppendedFreeSet(t: FatType, f: Fat, g: Fat, prev: nat, cs: seq<nat>)
    requires Appended(t, f, g, prev, cs) && |f| <= Bad(t)
    ensures FreeSet(g) == FreeSet(f) - Cells(cs)
    ensures |FreeSet(g)| == |FreeSet(f)| - |cs|
  {
    forall c: nat ensures c in FreeSet(g) <==> c in FreeSet(f) - Cells(cs) {
      if c in cs {
        var i :| 0 <= i < |cs| && cs[i] == c;
        assert IsFree(f, cs[i]);
        assert g[c] != 0 by {
          if i < |cs| - 1 { assert IsFree(f, cs[i + 1]); }
        }
      } else if c == prev && prev != Eof(t) {
        assert IsFree(f, cs[0]);
      }
    }
    assert Cells(cs) <= FreeSet(f) by {
      forall c | c in cs ensures c in FreeSet(f) {
        var i :| 0 <= i < |cs| && cs[i] == c;
        assert IsFree(f, cs[i]);
      }
    }
    CellsCount(cs);
  }

  lemma {:induction false} CellsCount(cs: seq<nat>)
    requires Distinct(cs)
    ensures |Cells(cs)| == |cs|
  {
    if cs == [] {
      assert Cells(cs) == {};
    } else {
      var n := |cs| - 1;
      CellsCount(cs[..n]);
      assert cs[n] !in cs[..n];
      assert Cells(cs) == Cells(cs[..n]) + {cs[n]};
    }
  }

  lemma RunAppended(t: FatType, f: Fat, prev: nat, start: nat, len: nat)
    requires |f| <= Bad(t) && len > 0 && FreeRun(f, start, len)
    requires prev == Eof(t) || (prev < |f| && f[prev] != 0)
    ensures var g := LinkRun(t, f, start, len);
      Appended(t, f, if prev == Eof(t) then g else g[prev := start], prev, RunClusters(Run(start, len)))
  {
    var cs := RunClusters(Run(start, len));
    forall c: nat ensures c in cs <==> start <= c < start + len {
      if start <= c < start + len {
        assert cs[c - start] == c;
      }
    }
  }

  // Appending `cs` and then `ds` to its tail appends both.
  lemma AppendedTwice(t: FatType, f: Fat, g: Fat, h: Fat, prev: nat, cs: seq<nat>, ds: seq<nat>)
    requires |f| <= Bad(t) && Appended(t, f, g, prev, cs) && Appended(t, g, h, cs[|cs| - 1], ds)
    ensures Appended(t, f, h, prev, cs + ds)
  {
    AppendedFreeSet(t, f, g, prev, cs);
    var all := cs + ds;
    forall j | 0 <= j < |ds| ensures IsFree(f, ds[j]) && ds[j] !in cs && ds[j] != prev {
      assert IsFree(g, ds[j]);
      assert ds[j] in FreeSet(g);
    }
    assert IsFree(f, cs[0]) && IsFree(f, cs[|cs| - 1]);
    forall i | 0 <= i < |all| - 1 ensures h[all[i]] == all[i + 1] {
      if i < |cs| - 1 {
        assert cs[i] != cs[|cs| - 1] && cs[i] !in ds;
      }
    }
  }

  // What is free after appending `cs` is what is free with `cs` taken.
  lemma AppendedTaken(t: FatType, f: Fat, g: Fat, prev: nat, cs: seq<nat>)
    requires |f| <= Bad(t) && Appended(t, f, g, prev, cs)
    ensures forall s: nat, l: nat :: FreeRun(g, s, l) <==> FreeRun(Taken(f, cs), s, l)
  {
    AppendedFreeSet(t, f, g, prev, cs);
    forall c: nat | 2 <= c < |f| ensures g[c] == 0 <==> Taken(f, cs)[c] == 0 {
      assert c in FreeSet(g) <==> c in FreeSet(f) - Cells(cs);
    }
    forall s: nat, l: nat ensures FreeRun(g, s, l) <==> FreeRun(Taken(f, cs), s, l) {
    }
  }

  lemma AppendedIsChain(t: FatType, f: Fat, g: Fat, prev: nat, cs: seq<nat>)
    requires |f| <= Bad(t) && Appended(t, f, g, prev, cs)
    ensures IsChain(t, g, cs)
  {
    forall i | 0 <= i < |cs| ensures 2 <= cs[i] < |f| {
      assert IsFree(f, cs[i]);
    }
  }

  // Deleting the appended clusters undoes the append, except for the link in `prev`.
  lemma AppendedCleared(t: FatType, f: Fat, g: Fat, prev: nat, cs: seq<nat>)
    requires |f| <= Bad(t) && Appended(t, f, g, prev, cs)
    ensures Cleared(g, cs) == if prev == Eof(t) then f else f[prev := cs[0]]
  {
    forall c | 0 <= c < |f| && c in cs ensures f[c] == 0 {
      var i :| 0 <= i < |cs| && cs[i] == c;
      assert IsFree(f, cs[i]);
    }
  }

  // A chain appended to another is one chain; alone it is a chain of its own.
  lemma AppendedChain(t: FatType, f: Fat, g: Fat, prev: nat, cs: seq<nat>, head: seq<nat>)
    requires |f| <= Bad(t) && Appended(t, f, g, prev, cs)
    requires if head == [] then prev == Eof(t) else IsChain(t, f, head) && prev == head[|head| - 1]
    ensures IsChain(t, g, head + cs)
  {
    var all := head + cs;
    forall i | 0 <= i < |head| ensures head[i] !in cs {
      ChainNonZero(t, f, head, i);
    }
    forall i | 0 <= i < |cs| ensures 2 <= cs[i] < |f| {
      assert IsFree(f, cs[i]);
    }
    forall i | 0 <= i < |all| - 1 ensures g[all[i]] == all[i + 1] {
      if i < |head| - 1 {
        assert head[i] != prev;
      }
    }
  }

  // A chain that shares nothing with the appended clusters, nor has `prev`, is untouched.
  lemma AppendedElsewhere(t: FatType, f: Fat, g: Fat, prev: nat, cs: seq<nat>, other: seq<nat>)
    requires |f| <= Bad(t) && Appended(t, f, g, prev, cs)
    requires IsChain(t, f, other) && prev !in other
    ensures IsChain(t, g, other) && forall i :: 0 <= i < |other| ==> other[i] !in cs
  {
    forall i | 0 <= i < |other| ensures other[i] !in cs && g[other[i]] == f[other[i]] {
      ChainNonZero(t, f, other, i);
    }
  }

  // ---------------------------------------------------------------- deleting

  ghost function NonZero(f: Fat): set<nat> { set c: nat | c < |f| && f[c] != 0 }

  // Every entry is a number of the FAT, a bad mark or an end mark.
  ghost predicate InRange(t: FatType, f: Fat) {
    |f| <= Bad(t) && forall c :: 0 <= c < |f| ==> f[c] < |f| || Bad(t) <= f[c] <= Eof(t)
  }

  datatype Deletion = Deletion(f: Fat, freed: nat, intact: bool)

  // DeleteFatChain from cluster `c` on: every entry on the way is zeroed and
  // counted; `intact` says that the walk met an end mark or a bad mark and not a zero.
  ghost function DeleteFrom(t: FatType, f: Fat, c: nat): (d: Deletion)
    requires InRange(t, f) && (c < |f| || Bad(t) <= c <= Eof(t))
    ensures |d.f| == |f|
    decreases NonZero(f), if c == 0 then 0 else 1
  {
    if c == 0 then Deletion(f, 0, false)
    else if c >= Bad(t) then Deletion(f, 0, true)
    else
      assert f[c] != 0 ==> NonZero(f[c := 0]) == NonZero(f) - {c} && c in NonZero(f);
      assert f[c] == 0 ==> f[c := 0] == f;
      var d := DeleteFrom(t, f[c := 0], f[c]);
      d.(freed := d.freed + 1)
  }

  ghost function Cleared(f: Fat, cs: seq<nat>): (r: Fat)
    ensures |r| == |f|
  {
    seq(|f|, c requires 0 <= c < |f| => if c in cs then 0 else f[c])
  }

  lemma {:induction false} DeleteChain(t: FatType, f: Fat, cs: seq<nat>)
    requires InRange(t, f) && IsChain(t, f, cs)
    ensures DeleteFrom(t, f, cs[0]) == Deletion(Cleared(f, cs), |cs|, true)
    decreases |cs|
  {
    var c, f' := cs[0], f[cs[0] := 0];
    var d := DeleteFrom(t, f', f[c]);
    if |cs| == 1 {
      assert Cleared(f, cs) == f';
    } else {
      var rest := cs[1..];
      assert IsChain(t, f', rest) by {
        assert forall i :: 0 <= i < |rest| ==> rest[i] == cs[i + 1] && rest[i] != c;
      }
      DeleteChain(t, f', rest);
      assert Cleared(f', rest) == Cleared(f, cs) by {
        assert forall x :: x in cs <==> x == c || x in rest;
      }
    }
  }

  // Distinct entries in order, the last with an end or bad mark; the reserved entry 1
  // may be one of them.
  ghost predicate MarkedChain(t: FatType, f: Fat, cs: seq<nat>) {
    && cs != [] && Distinct(cs)
    && (forall i :: 0 <= i < |cs| ==> 1 <= cs[i] < |f|)
    && (forall i :: 0 <= i < |cs| - 1 ==> f[cs[i]] == cs[i + 1])
    && f[cs[|cs| - 1]] >= Bad(t)
  }

  lemma MarkedFront(t: FatType, f: Fat, c: nat, rest: seq<nat>)
    requires 1 <= c < |f| <= Bad(t) && MarkedChain(t, f[c := 0], rest) && f[c] == rest[0]
    ensures MarkedChain(t, f, [c] + rest)
  {
    var g, cs := f[c := 0], [c] + rest;
    forall i | 0 <= i < |rest| ensures rest[i] != c && f[rest[i]] == g[rest[i]] {
      if i < |rest| - 1 {
        assert g[rest[i]] == rest[i + 1];
      }
    }
  }

  // A walk is intact if and only if there is such a chain from where it starts.
  lemma {:induction false} IntactChain(t: FatType, f: Fat, c: nat)
    requires InRange(t, f) && 1 <= c < |f|
    ensures DeleteFrom(t, f, c).intact <==> exists cs: seq<nat> :: MarkedChain(t, f, cs) && cs[0] == c
    decreases NonZero(f)
  {
    hide DeleteFrom;
    DeleteStep(t, f, c);
    forall cs: seq<nat> | MarkedChain(t, f, cs) ensures f[cs[0]] != 0 {
      assert |cs| > 1 ==> f[cs[0]] == cs[1];
    }
    var g := f[c := 0];
    if f[c] >= Bad(t) {
      assert MarkedChain(t, f, [c]);
    } else if f[c] != 0 {
      assert NonZero(g) == NonZero(f) - {c} && c in NonZero(f);
      IntactChain(t, g, f[c]);
      if rest: seq<nat> :| MarkedChain(t, g, rest) && rest[0] == f[c] {
        MarkedFront(t, f, c, rest);
        assert ([c] + rest)[0] == c;
      }
      if cs: seq<nat> :| MarkedChain(t, f, cs) && cs[0] == c {
        MarkedRest(t, f, cs);
      }
    }
  }

  lemma MarkedRest(t: FatType, f: Fat, cs: seq<nat>)
    requires |f| <= Bad(t) && MarkedChain(t, f, cs) && f[cs[0]] < Bad(t)
    ensures MarkedChain(t, f[cs[0] := 0], cs[1..]) && cs[1..][0] == f[cs[0]]
  {
    var g, rest := f[cs[0] := 0], cs[1..];
    forall i | 0 <= i < |rest| ensures rest[i] == cs[i + 1] && g[rest[i]] == f[rest[i]] {
    }
  }

  lemma DeleteStep(t: FatType, f: Fat, c: nat)
    requires InRange(t, f) && 1 <= c < |f|
    ensures InRange(t, f[c := 0])
    ensures var d := DeleteFrom(t, f[c := 0], f[c]);
      && DeleteFrom(t, f, c) == d.(freed := d.freed + 1)
      && (f[c] >= Bad(t) ==> d.intact && d.f == f[c := 0]) && (f[c] == 0 ==> !d.intact && d.freed == 0 && d.f == f)
      && (f[c] == 0 ==> f[c := 0] == f)
  {
  }

  // The walk over such a chain zeroes exactly its entries.
  lemma {:induction false} MarkedWalk(t: FatType, f: Fat, cs: seq<nat>)
    requires InRange(t, f) && MarkedChain(t, f, cs)
    ensures DeleteFrom(t, f, cs[0]).f == Cleared(f, cs)
    decreases |cs|
  {
    hide DeleteFrom;
    DeleteStep(t, f, cs[0]);
    if f[cs[0]] >= Bad(t) {
      assert |cs| == 1;
    } else {
      MarkedRest(t, f, cs);
      MarkedWalk(t, f[cs[0] := 0], cs[1..]);
      assert forall x :: x in cs <==> x == cs[0] || x in cs[1..];
    }
  }

  // The freed count is what the FAT gained if and only if a chain of clusters from `c` ends
  // in a mark. A walk that ends in a zero entry counts one cluster too many, and so does
  // one over the reserved entry 1.
  lemma DeleteCount(t: FatType, f: Fat, c: nat)
    requires WellFormed(t, f) && 2 <= c < |f|
    ensures var d := DeleteFrom(t, f, c);
      && (|FreeSet(d.f)| == |FreeSet(f)| + d.freed <==>
          exists cs: seq<nat> :: MarkedChain(t, f, cs) && cs[0] == c && 1 !in cs)
      && |FreeSet(d.f)| <= |FreeSet(f)| + d.freed <= |FreeSet(d.f)| + 2
  {
    hide DeleteFrom;
    IntactChain(t, f, c);
    WalkCount(t, f, c);
    forall cs: seq<nat> | MarkedChain(t, f, cs) && cs[0] == c
      ensures OverOne(f, DeleteFrom(t, f, c).f) <==> 1 in cs
    {
      MarkedWalk(t, f, cs);
    }
  }

  // Entry 1 has been zeroed on the way from `f` to `g`.
  ghost predicate OverOne(f: Fat, g: Fat)
    requires 2 <= |f| == |g|
  {
    f[1] != 0 && g[1] == 0
  }

  lemma {:induction false} WalkCount(t: FatType, f: Fat, c: nat)
    requires InRange(t, f) && 2 <= |f| && (c < |f| || Bad(t) <= c <= Eof(t))
    ensures var d := DeleteFrom(t, f, c);
      |FreeSet(d.f)| + (if d.intact || c == 0 then 0 else 1) + (if OverOne(f, d.f) then 1 else 0) ==
      |FreeSet(f)| + d.freed
    decreases NonZero(f), if c == 0 then 0 else 1
  {
    if c != 0 && c < Bad(t) {
      hide DeleteFrom, FreeSet, NonZero;
      DeleteStep(t, f, c);
      if f[c] != 0 {
        OneFreed(f, c);
        WalkCount(t, f[c := 0], f[c]);
        StaysZero(t, f[c := 0], f[c]);
      }
    }
  }

  lemma OneFreed(f: Fat, c: nat)
    requires 1 <= c < |f| && f[c] != 0
    ensures NonZero(f[c := 0]) < NonZero(f)
    ensures |FreeSet(f[c := 0])| == |FreeSet(f)| + if c == 1 then 0 else 1
  {
    assert NonZero(f[c := 0]) == NonZero(f) - {c} && c in NonZero(f);
    assert FreeSet(f[c := 0]) == FreeSet(f) + if c == 1 then {} else {c};
  }

  // A deletion leaves zero entries zero.
  lemma {:induction false} StaysZero(t: FatType, f: Fat, c: nat)
    requires InRange(t, f) && 2 <= |f| && (c < |f| || Bad(t) <= c <= Eof(t))
    ensures f[1] == 0 ==> DeleteFrom(t, f, c).f[1] == 0
    decreases NonZero(f), if c == 0 then 0 else 1
  {
    if c != 0 && c < Bad(t) {
      if f[c] != 0 {
        assert NonZero(f[c := 0]) == NonZero(f) - {c} && c in NonZero(f);
        StaysZero(t, f[c := 0], f[c]);
      } else {
        assert f[c := 0] == f;
      }
    }
  }

  // A loop through entry 1: three are counted and one is gained.
  lemma TwoTooMany()
    ensures var f: Fat := [0xFFF8, 2, 1, 0];
      && WellFormed(Fat16, f)
      && var d := DeleteFrom(Fat16, f, 2); d.freed == 3 && |FreeSet(d.f)| == |FreeSet(f)| + 1
  {
    hide FreeSet, DeleteFrom;
    var f: Fat := [0xFFF8, 2, 1, 0];
    var f1: Fat := [0xFFF8, 2, 0, 0];
    var f2: Fat := [0xFFF8, 0, 0, 0];
    assert f[2 := 0] == f1 && f1[1 := 0] == f2 && f2[2 := 0] == f2;
    DeleteStep(Fat16, f, 2);
    DeleteStep(Fat16, f1, 1);
    DeleteStep(Fat16, f2, 2);
    WalkCount(Fat16, f, 2);
  }

  lemma ClearedFreeSet(t: FatType, f: Fat, cs: seq<nat>)
    requires IsChain(t, f, cs) && |f| <= Bad(t)
    ensures FreeSet(Cleared(f, cs)) == FreeSet(f) + Cells(cs)
    ensures |FreeSet(Cleared(f, cs))| == |FreeSet(f)| + |cs|
  {
    CellsCount(cs);
    forall i | 0 <= i < |cs| ensures f[cs[i]] != 0 && cs[i] !in FreeSet(f) {
      ChainNonZero(t, f, cs, i);
    }
    assert FreeSet(Cleared(f, cs)) == FreeSet(f) + Cells(cs);
    assert FreeSet(f) !! Cells(cs);
  }

  lemma ClearedElsewhere(t: FatType, f: Fat, cs: seq<nat>, other: seq<nat>)
    requires IsChain(t, f, other) && forall c :: c in other ==> c !in cs
    ensures IsChain(t, Cleared(f, cs), other)
  {
    forall i | 0 <= i < |other| ensures Cleared(f, cs)[other[i]] == f[other[i]] {
      assert other[i] in other;
    }
  }

  // ---------------------------------------------------------------- searching

  // The cluster a search for one free cluster must return: the first free one at
  // or after the hint, else the first free one from cluster 2.
  function Hint(f: Fat, next: nat): nat { if next == 0 || next >= |f| then 2 else next }

  ghost predicate NextFree(f: Fat, next: nat, c: nat) {
    var h := Hint(f, next);
    && IsFree(f, c)
    && (c >= h ==> forall i: nat :: h <= i < c ==> !IsFree(f, i))
    && (c < h ==> forall i: nat :: i < c || h <= i < |f| ==> !IsFree(f, i))
  }

  // The same entry by entry: no other free cluster comes earlier in the search, which
  // starts at the hint, or at cluster 2 when the hint is 0 or behind the FAT.
  lemma NextFreeIs(f: Fat, next: nat, c: nat)
    ensures NextFree(f, next, c) <==>
      && 2 <= c < |f| && f[c] == 0
      && forall i :: 2 <= i < |f| && f[i] == 0 ==> !Before(if next == 0 || next >= |f| then 2 else next, i, c)
  {
    if NextFree(f, next, c) {
      forall i | 2 <= i < |f| && f[i] == 0 ensures !Before(if next == 0 || next >= |f| then 2 else next, i, c) {
        assert IsFree(f, i);
      }
    }
  }

  // A hint that is free is taken.
  lemma NextFreeAtHint(f: Fat, next: nat, c: nat)
    requires 2 <= next < |f| && f[next] == 0
    ensures NextFree(f, next, c) ==> c == next
    ensures next in FreeSet(f)
  {
    assert IsFree(f, next);
  }

  // The values that end a chain, and the one that marks a bad cluster.
  lemma Marks(t: FatType, v: nat)
    ensures EndMark(t, v) <==> match t
      case Fat12 => 0xFF8 <= v <= 0xFFF
      case Fat16 => 0xFFF8 <= v <= 0xFFFF
      case Fat32 => 0xFFF_FFF8 <= v <= 0xFFF_FFFF
    ensures v == Bad(t) <==> v == match t case Fat12 => 0xFF7 case Fat16 => 0xFFF7 case Fat32 => 0xFFF_FFF7
  {
  }

  // `len` is the length of a longest free run.
  ghost predicate LongestFree(f: Fat, len: nat) {
    forall s: nat, l: nat :: FreeRun(f, s, l) ==> l <= len
  }

  // No run of more than `len` free clusters starts in [from, end).
  ghost predicate NoLonger(f: Fat, from: nat, end: nat, len: nat) {
    forall s: nat, l: nat :: from <= s < end && FreeRun(f, s, l) ==> l <= len
  }

  // Where the search for `n` clusters stops first: from the hint to the end, then from
  // cluster 2 up to the hint.
  ghost predicate FirstFit(f: Fat, next: nat, n: nat, start: nat)
    requires n > 0
  {
    var h := if next < 2 || next >= |f| then 2 else next;
    && FreeRun(f, start, n)
    && (start >= h ==> NoLonger(f, h, start, n - 1))
    && (start < h ==> NoLonger(f, h, |f|, n - 1) && NoLonger(f, 2, start, n - 1))
  }

  // Cluster `s` comes before `c` in a search that starts at `h` and goes on from cluster 2.
  predicate Before(h: nat, s: nat, c: nat) {
    if c >= h then h <= s < c else s >= h || s < c
  }

  ghost predicate Zeros(f: Fat, s: nat, n: nat) {
    2 <= s && s + n <= |f| && forall c :: s <= c < s + n ==> f[c] == 0
  }

  // The same entry by entry: the `n` entries from `start` are 0, and no `n` entries in a
  // row are that come earlier in the search.
  lemma FirstFitIs(f: Fat, next: nat, n: nat, start: nat)
    requires n > 0
    ensures var h := if next < 2 || next >= |f| then 2 else next;
      FirstFit(f, next, n, start) <==>
        Zeros(f, start, n) && forall s: nat :: Zeros(f, s, n) ==> !Before(h, s, start)
  {
    hide NoLonger;
    var h := if next < 2 || next >= |f| then 2 else next;
    NoLongerIs(f, h, start, n);
    NoLongerIs(f, h, |f|, n);
    NoLongerIs(f, 2, start, n);
    assert forall s: nat :: Zeros(f, s, n) <==> FreeRun(f, s, n);
  }

  lemma NoLongerIs(f: Fat, from: nat, end: nat, n: nat)
    requires n > 0
    ensures NoLonger(f, from, end, n - 1) <==> forall s: nat :: from <= s < end ==> !FreeRun(f, s, n)
  {
    forall s: nat, l: nat | from <= s < end && FreeRun(f, s, l) && n <= l ensures FreeRun(f, s, n) {
    }
  }

  lemma FirstFitSame(f: Fat, g: Fat, next: nat, n: nat, start: nat)
    requires n > 0 && |f| == |g| && forall s: nat, l: nat :: FreeRun(f, s, l) <==> FreeRun(g, s, l)
    ensures FirstFit(f, next, n, start) <==> FirstFit(g, next, n, start)
  {
  }

  ghost function RunClusters(r: Run): (cs: seq<nat>)
    ensures |cs| == r.len && forall i :: 0 <= i < r.len ==> cs[i] == r.start + i
  {
    seq(r.len, i => r.start + i)
  }

  ghost function Flat(runs: seq<Run>): seq<nat> {
    if runs == [] then [] else Flat(runs[..|runs| - 1]) + RunClusters(runs[|runs| - 1])
  }

  // `f` with the clusters `cs` in use.
  ghost function Taken(f: Fat, cs: seq<nat>): (r: Fat)
    ensures |r| == |f|
  {
    seq(|f|, c requires 0 <= c < |f| => if c in cs then 1 else f[c])
  }

  // Where the search of the next round starts.
  ghost function HintAfter(next: nat, runs: seq<Run>): nat {
    if runs == [] then next else runs[|runs| - 1].start + runs[|runs| - 1].len
  }

  // Round `i` of an allocation: the first free run of its length in the search from the
  // hint, and for every round but a final exact fit, no free run left was longer.
  ghost predicate Round(f: Fat, next: nat, runs: seq<Run>, i: nat)
    requires i < |runs|
  {
    var g := Taken(f, Flat(runs[..i]));
    && runs[i].len > 0 && FirstFit(g, HintAfter(next, runs[..i]), runs[i].len, runs[i].start)
    && (i < |runs| - 1 ==> LongestFree(g, runs[i].len))
  }

  ghost predicate Rounds(f: Fat, next: nat, runs: seq<Run>) {
    runs != [] && forall i :: 0 <= i < |runs| ==> Round(f, next, runs, i)
  }

  lemma HintStep(next: nat, runs: seq<Run>, r: Run)
    ensures HintAfter(next, runs + [r]) == r.start + r.len && HintAfter(next, []) == next
  {
  }

  // Clusters that are free at the hint are where the search stops.
  lemma AtHint(f: Fat, next: nat, n: nat, start: nat)
    requires n > 0 && FirstFit(f, next, n, start)
    requires 2 <= next && next + n <= |f| && forall c :: next <= c < next + n ==> f[c] == 0
    ensures start == next
  {
    assert FreeRun(f, next, n);
  }

  lemma NotAtHint(f: Fat, next: nat, n: nat)
    requires n > 0 && LongestFree(f, n - 1)
    ensures !(2 <= next && next + n <= |f| && forall c :: next <= c < next + n ==> f[c] == 0)
  {
    assert !FreeRun(f, next, n);
  }

  // The rounds in full: the first searches from the hint, every other from where the run
  // before it ended.
  lemma RoundsAre(f: Fat, next: nat, runs: seq<Run>)
    requires Rounds(f, next, runs)
    ensures forall i :: 0 <= i < |runs| ==> runs[i].len > 0
    ensures FirstFit(f, next, runs[0].len, runs[0].start)
    ensures forall i :: 0 < i < |runs| ==>
      FirstFit(Taken(f, Flat(runs[..i])), runs[i - 1].start + runs[i - 1].len, runs[i].len, runs[i].start)
    ensures forall i :: 0 <= i < |runs| - 1 ==> LongestFree(Taken(f, Flat(runs[..i])), runs[i].len)
  {
    hide FirstFit, Taken, LongestFree;
    assert Round(f, next, runs, 0) && runs[..0] == [];
    FirstFitSame(f, f, next, runs[0].len, runs[0].start);
    NothingTaken(f);
    forall i | 0 <= i < |runs|
      ensures runs[i].len > 0 && (i < |runs| - 1 ==> LongestFree(Taken(f, Flat(runs[..i])), runs[i].len))
    {
      assert Round(f, next, runs, i);
    }
    forall i | 0 < i < |runs|
      ensures FirstFit(Taken(f, Flat(runs[..i])), runs[i - 1].start + runs[i - 1].len, runs[i].len, runs[i].start)
    {
      assert Round(f, next, runs, i) && runs[..i] != [] && runs[..i][i - 1] == runs[i - 1];
    }
  }

  lemma NothingTaken(f: Fat)
    ensures Taken(f, []) == f
  {
  }

  // What is free after some rounds: what was free and lies in none of their runs.
  lemma {:induction false} LeftFree(f: Fat, runs: seq<Run>, c: nat)
    requires c < |f|
    ensures Taken(f, Flat(runs))[c] == 0 <==>
      f[c] == 0 && forall j :: 0 <= j < |runs| ==> !(runs[j].start <= c < runs[j].start + runs[j].len)
    decreases |runs|
  {
    if runs != [] {
      var most, r := runs[..|runs| - 1], runs[|runs| - 1];
      LeftFree(f, most, c);
      InRun(r, c);
      assert c in Flat(runs) <==> c in Flat(most) || c in RunClusters(r);
      assert forall j :: 0 <= j < |most| ==> most[j] == runs[j];
    }
  }

  lemma InRun(r: Run, c: nat)
    ensures c in RunClusters(r) <==> r.start <= c < r.start + r.len
  {
    if r.start <= c < r.start + r.len {
      assert RunClusters(r)[c - r.start] == c;
    }
  }

  // A free run of the full length is never passed over: the answer is one run.
  lemma ContiguousWhenPossible(f: Fat, next: nat, runs: seq<Run>, s: nat)
    requires Rounds(f, next, runs) && FreeRun(f, s, |Flat(runs)|)
    ensures |runs| == 1
  {
    if |runs| > 1 {
      assert Round(f, next, runs, 0) && Round(f, next, runs, 1);
      assert runs[..0] == [];
      assert Taken(f, []) == f;
      assert FreeRun(f, s, |Flat(runs)|);
      FlatLonger(runs, 1);
      assert runs[..1][..0] == [];
      assert Flat(runs[..1]) == Flat(runs[..1][..0]) + RunClusters(runs[..1][0]);
      assert runs[..2][..1] == runs[..1];
      FlatLonger(runs, 2);
    }
  }

  lemma {:induction false} FlatLonger(runs: seq<Run>, k: nat)
    requires k <= |runs|
    ensures |Flat(runs[..k])| <= |Flat(runs)|
    decreases |runs| - k
  {
    if k == |runs| {
      assert runs[..k] == runs;
    } else {
      FlatLonger(runs, k + 1);
      assert runs[..k + 1][..k] == runs[..k];
    }
  }

  // The state between two rounds of MakeFatChain: `runs` have been taken, their
  // clusters `cs` appended, and `tail` is where the next run is to be linked.
  ghost predicate Progress(t: FatType, f0: Fat, next: nat, f: Fat, prev: nat, tail: nat, cs: seq<nat>, runs: seq<Run>) {
    && cs == Flat(runs)
    && (forall i :: 0 <= i < |runs| ==> Round(f0, next, runs, i))
    && (forall i :: 0 <= i < |runs| ==> LongestFree(Taken(f0, Flat(runs[..i])), runs[i].len))
    && if runs == [] then f == f0 && tail == prev
       else Appended(t, f0, f, prev, cs) && tail == cs[|cs| - 1]
  }

  lemma ProgressStep(t: FatType, f0: Fat, next: nat, f: Fat, f': Fat, prev: nat, tail: nat, cs: seq<nat>,
                     runs: seq<Run>, r: Run)
    requires |f0| <= Bad(t) && Progress(t, f0, next, f, prev, tail, cs, runs)
    requires r.len > 0 && FirstFit(f, HintAfter(next, runs), r.len, r.start) && Appended(t, f, f', tail, RunClusters(r))
    ensures Appended(t, f0, f', prev, cs + RunClusters(r))
    ensures Rounds(f0, next, runs + [r]) && Flat(runs + [r]) == cs + RunClusters(r)
    ensures LongestFree(f, r.len) ==>
      Progress(t, f0, next, f', prev, r.start + r.len - 1, cs + RunClusters(r), runs + [r])
  {
    hide FirstFit, HintAfter, Round, Taken, FreeRun;
    assert (runs + [r])[..|runs|] == runs;
    SameFree(t, f0, next, f, prev, tail, cs, runs);
    if runs == [] {
      assert cs + RunClusters(r) == RunClusters(r);
    } else {
      AppendedTwice(t, f0, f, f', prev, cs, RunClusters(r));
    }
    hide Appended;
    RoundsGrow(f0, next, f, runs, r);
  }

  lemma ProgressStart(t: FatType, f0: Fat, next: nat, prev: nat)
    ensures Progress(t, f0, next, f0, prev, prev, [], [])
  {
  }

  lemma ProgressNone(t: FatType, f0: Fat, next: nat, f: Fat, prev: nat, tail: nat, cs: seq<nat>)
    requires Progress(t, f0, next, f, prev, tail, cs, [])
    ensures f == f0
  {
  }

  // The next run hangs on a used cluster, or on nothing.
  lemma ProgressTail(t: FatType, f0: Fat, next: nat, f: Fat, prev: nat, tail: nat, cs: seq<nat>, runs: seq<Run>)
    requires |f0| <= Bad(t) && Progress(t, f0, next, f, prev, tail, cs, runs)
    requires prev == Eof(t) || (2 <= prev < |f0| && f0[prev] != 0)
    ensures |f| == |f0| && (tail == Eof(t) || (2 <= tail < |f| && f[tail] != 0))
  {
    if runs != [] {
      assert IsFree(f0, cs[|cs| - 1]);
    }
  }

  // The FAT after some rounds has the free runs of `f0` with their clusters taken.
  lemma SameFree(t: FatType, f0: Fat, next: nat, f: Fat, prev: nat, tail: nat, cs: seq<nat>, runs: seq<Run>)
    requires |f0| <= Bad(t) && Progress(t, f0, next, f, prev, tail, cs, runs)
    ensures forall s: nat, l: nat :: FreeRun(f, s, l) <==> FreeRun(Taken(f0, cs), s, l)
  {
    if runs == [] {
      assert Taken(f0, []) == f0;
    } else {
      AppendedTaken(t, f0, f, prev, cs);
    }
  }

  lemma RoundsGrow(f0: Fat, next: nat, f: Fat, runs: seq<Run>, r: Run)
    requires forall i :: 0 <= i < |runs| ==> Round(f0, next, runs, i)
    requires forall i :: 0 <= i < |runs| ==> LongestFree(Taken(f0, Flat(runs[..i])), runs[i].len)
    requires forall s: nat, l: nat :: FreeRun(f, s, l) <==> FreeRun(Taken(f0, Flat(runs)), s, l)
    requires |f| == |f0| && r.len > 0 && FirstFit(f, HintAfter(next, runs), r.len, r.start)
    ensures Rounds(f0, next, runs + [r])
    ensures LongestFree(f, r.len) ==>
      forall i :: 0 <= i < |runs + [r]| ==> LongestFree(Taken(f0, Flat((runs + [r])[..i])), (runs + [r])[i].len)
  {
    FirstFitSame(f, Taken(f0, Flat(runs)), HintAfter(next, runs), r.len, r.start);
    hide FreeRun, Taken, Flat, FirstFit, HintAfter;
    var runs' := runs + [r];
    forall i | 0 <= i < |runs'| ensures Round(f0, next, runs', i) {
      assert runs'[..i] == if i < |runs| then runs[..i] else runs;
      if i < |runs| { assert Round(f0, next, runs, i); }
    }
    if LongestFree(f, r.len) {
      forall i | 0 <= i < |runs'| ensures LongestFree(Taken(f0, Flat(runs'[..i])), runs'[i].len) {
        assert runs'[..i] == if i < |runs| then runs[..i] else runs;
      }
    }
  }

  lemma NothingFree(f: Fat)
    requires LongestFree(f, 0)
    ensures FreeSet(f) == {}
  {
    forall c: nat | c < |f| ensures !IsFree(f, c) {
      assert IsFree(f, c) ==> FreeRun(f, c, 1);
    }
  }

  // A free run ends where a used entry, or the FAT's end, is.
  lemma RunStops(f: Fat, s: nat, l: nat, i: nat)
    requires FreeRun(f, s, l) && s <= i && (i >= |f| || f[i] != 0)
    ensures s + l <= i || s + l <= |f| <= i
  {
  }
}

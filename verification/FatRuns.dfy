// Every run of allocations, extensions, truncations and deletions: the free
// count stays exact and no cluster ever belongs to two files.
module FatRuns {
  import opened Common
  import opened FatCodec
  import opened FatChains
  import opened Volume
  import opened FatTable

  // The FAT, its counters, and the chain each file owns.
  datatype World = World(s: FatState, files: map<nat, seq<nat>>)

  datatype Event =
    | Create(file: nat, n: nat)       // MakeFatChain with no previous cluster
    | Extend(file: nat, n: nat)       // MakeFatChain behind the last cluster
    | Grow(file: nat)                 // SetNextCluster(last, FAT_ASSIGN_NEW)
    | Truncate(file: nat, keep: nat)  // SetNextCluster(cut, end) and DeleteFatChain of the rest
    | Delete(file: nat)               // DeleteFatChain

  ghost predicate Disjoint(a: seq<nat>, b: seq<nat>) {
    forall x :: x in a ==> x !in b
  }

  ghost predicate Inv(t: FatType, w: World) {
    && WellFormed(t, w.s.f)
    && w.s.free == |FreeSet(w.s.f)|
    && (forall k :: k in w.files ==> IsChain(t, w.s.f, w.files[k]))
    && (forall j, k :: j in w.files && k in w.files && j != k ==> Disjoint(w.files[j], w.files[k]))
  }

  function Last(cs: seq<nat>): nat
    requires cs != []
  {
    cs[|cs| - 1]
  }

  // DeleteFatChain as its contract states it.
  ghost function Deleted(t: FatType, s: FatState, c: nat): FatState
    requires WellFormed(t, s.f) && c < |s.f|
  {
    var d := DeleteFrom(t, s.f, c);
    FatState(d.f, (s.free + d.freed) % ULONG, s.next)
  }

  ghost predicate Took(t: FatType, w: World, w': World, prev: nat, n: nat, file: nat, head: seq<nat>) {
    exists runs: seq<Run>, first: nat, last: nat ::
      && Volume.Allocated(t, w.s, w'.s, prev, n, runs, first, last)
      && w'.files == w.files[file := head + Flat(runs)]
  }

  ghost predicate Grew(t: FatType, w: World, w': World, file: nat, c: nat)
    requires file in w.files && w.files[file] != []
  {
    var tail := Last(w.files[file]);
    && w.s.free > 0 && NextFree(w.s.f, w.s.next, c) && tail < |w.s.f|
    && w'.s == FatState(w.s.f[c := Eof(t)][tail := c], w.s.free - 1, c + 1)
    && w'.files == w.files[file := w.files[file] + [c]]
  }

  // One event, or its refusal when the FAT is too full.
  ghost predicate Step(t: FatType, w: World, e: Event, w': World)
    requires Inv(t, w)
  {
    match e
    case Create(file, n) =>
      file !in w.files && if 0 < n <= w.s.free then Took(t, w, w', Eof(t), n, file, []) else w' == w
    case Extend(file, n) =>
      && file in w.files
      && if 0 < n <= w.s.free then Took(t, w, w', Last(w.files[file]), n, file, w.files[file]) else w' == w
    case Grow(file) =>
      && file in w.files
      && if w.s.free == 0 then w' == w else exists c: nat :: Grew(t, w, w', file, c)
    case Truncate(file, keep) =>
      && file in w.files && 0 < keep < |w.files[file]|
      && var cs := w.files[file];
         var s := Volume.Stored(t, w.s, cs[keep - 1], Eof(t));
         WellFormed(t, s.f) && w' == World(Deleted(t, s, cs[keep]), w.files[file := cs[..keep]])
    case Delete(file) =>
      && file in w.files
      && w' == World(Deleted(t, w.s, w.files[file][0]), w.files - {file})
  }

  // ---------------------------------------------------------------- one step

  // One file's chain changes; it stays apart from the others, and they stay chains.
  lemma OneFileChanged(t: FatType, w: World, w': World, file: nat, cs: seq<nat>)
    requires Inv(t, w) && WellFormed(t, w'.s.f) && w'.s.free == |FreeSet(w'.s.f)|
    requires w'.files == w.files[file := cs] && IsChain(t, w'.s.f, cs)
    requires forall k :: k in w.files && k != file ==> KeptApart(t, w'.s.f, w.files[k], cs)
    ensures Inv(t, w')
  {
    hide IsChain, FreeSet, WellFormed, Disjoint;
    forall k | k in w'.files ensures IsChain(t, w'.s.f, w'.files[k]) {
      assert k != file ==> KeptApart(t, w'.s.f, w.files[k], cs);
    }
    forall j, k | j in w'.files && k in w'.files && j != k ensures Disjoint(w'.files[j], w'.files[k]) {
      if j == file {
        assert KeptApart(t, w'.s.f, w.files[k], cs);
      } else if k == file {
        assert KeptApart(t, w'.s.f, w.files[j], cs);
      }
    }
  }

  ghost predicate KeptApart(t: FatType, g: Fat, other: seq<nat>, cs: seq<nat>) {
    IsChain(t, g, other) && Disjoint(other, cs) && Disjoint(cs, other)
  }

  // Every other file's chain is as it was, and apart from this one.
  ghost predicate OthersKept(t: FatType, f: Fat, f': Fat, cs: seq<nat>, cs': seq<nat>) {
    forall other: seq<nat> :: IsChain(t, f, other) && Disjoint(cs, other) ==>
      KeptApart(t, f', other, cs')
  }

  lemma TookKeepsInv(t: FatType, w: World, w': World, prev: nat, n: nat, file: nat, head: seq<nat>)
    requires Inv(t, w) && Took(t, w, w', prev, n, file, head)
    requires if file in w.files then head == w.files[file] && prev == Last(head) else head == [] && prev == Eof(t)
    ensures Inv(t, w')
  {
    var runs: seq<Run>, first: nat, last: nat :|
      Volume.Allocated(t, w.s, w'.s, prev, n, runs, first, last) && w'.files == w.files[file := head + Flat(runs)];
    AppendKeepsInv(t, w, w', prev, Flat(runs), file, head);
  }

  lemma AppendKeepsInv(t: FatType, w: World, w': World, prev: nat, cs: seq<nat>, file: nat, head: seq<nat>)
    requires Inv(t, w) && Appended(t, w.s.f, w'.s.f, prev, cs)
    requires w'.s.free == w.s.free - |cs| && w'.files == w.files[file := head + cs]
    requires if file in w.files then head == w.files[file] && prev == Last(head) else head == [] && prev == Eof(t)
    ensures Inv(t, w')
  {
    hide Appended, IsChain, FreeSet, WellFormed, Disjoint, KeptApart;
    var f, g := w.s.f, w'.s.f;
    FewEntries(t, f);
    if file in w.files { ChainCells(t, f, head, 0); }
    AppendedFreeSet(t, f, g, prev, cs);
    AppendedChain(t, f, g, prev, cs, head);
    AppendedWellFormed(t, f, g, prev, cs, head);
    forall k | k in w.files && k != file ensures KeptApart(t, g, w.files[k], head + cs) {
      OtherFile(t, f, g, prev, cs, head, w.files[k]);
    }
    OneFileChanged(t, w, w', file, head + cs);
  }

  lemma FewEntries(t: FatType, f: Fat)
    requires WellFormed(t, f)
    ensures |f| <= Bad(t)
  {
  }

  lemma OtherFile(t: FatType, f: Fat, g: Fat, prev: nat, cs: seq<nat>, head: seq<nat>, other: seq<nat>)
    requires |f| <= Bad(t) && Appended(t, f, g, prev, cs) && IsChain(t, f, other)
    requires if head == [] then prev == Eof(t) else prev == Last(head) && Disjoint(head, other)
    ensures KeptApart(t, g, other, head + cs)
  {
    if head == [] {
      assert forall i :: 0 <= i < |other| ==> other[i] < |f|;
      assert prev !in other;
    } else {
      assert prev == head[|head| - 1] && prev in head;
      assert prev !in other;
    }
    AppendedElsewhere(t, f, g, prev, cs, other);
    assert forall x :: x in head + cs <==> x in head || x in cs;
  }

  lemma AppendedWellFormed(t: FatType, f: Fat, g: Fat, prev: nat, cs: seq<nat>, head: seq<nat>)
    requires WellFormed(t, f) && Appended(t, f, g, prev, cs)
    requires if head == [] then prev == Eof(t) else IsChain(t, f, head) && prev == Last(head)
    ensures WellFormed(t, g)
  {
    forall i | 0 <= i < |cs| ensures 2 <= cs[i] < |f| {
      assert IsFree(f, cs[i]);
    }
    forall c | 0 <= c < |g| ensures g[c] < |g| || Bad(t) <= g[c] <= Eof(t) {
      if c in cs {
        var i :| 0 <= i < |cs| && cs[i] == c;
        assert i < |cs| - 1 ==> g[c] == cs[i + 1];
      }
    }
  }

  lemma GrewKeepsInv(t: FatType, w: World, w': World, file: nat, c: nat)
    requires Inv(t, w) && file in w.files && Grew(t, w, w', file, c)
    ensures Inv(t, w')
  {
    var head := w.files[file];
    ChainNonZero(t, w.s.f, head, |head| - 1);
    AppendKeepsInv(t, w, w', Last(head), [c], file, head);
  }

  lemma {:induction false} DeleteKeepsInv(t: FatType, w: World, w': World, file: nat)
    requires Inv(t, w) && Step(t, w, Delete(file), w')
    ensures Inv(t, w')
  {
    var f, cs := w.s.f, w.files[file];
    DeletedChain(t, w.s, cs);
    hide IsChain, Deleted, FreeSet, Cleared, WellFormed;
    forall k | k in w'.files ensures IsChain(t, w'.s.f, w'.files[k]) {
      assert Disjoint(w.files[k], cs);
      ClearedElsewhere(t, f, cs, w.files[k]);
    }
  }

  lemma Range(t: FatType, f: Fat)
    requires WellFormed(t, f)
    ensures InRange(t, f)
  {
  }

  // DeleteFatChain on a whole chain frees exactly its clusters.
  lemma DeletedChain(t: FatType, s: FatState, cs: seq<nat>)
    requires WellFormed(t, s.f) && IsChain(t, s.f, cs) && s.free == |FreeSet(s.f)|
    ensures Deleted(t, s, cs[0]) == FatState(Cleared(s.f, cs), s.free + |cs|, s.next)
    ensures WellFormed(t, Cleared(s.f, cs)) && s.free + |cs| == |FreeSet(Cleared(s.f, cs))|
  {
    hide IsChain, DeleteFrom, Cleared, FreeSet, WellFormed;
    FewEntries(t, s.f);
    Range(t, s.f);
    ChainCells(t, s.f, cs, 0);
    DeleteChain(t, s.f, cs);
    ClearedFreeSet(t, s.f, cs);
    FewFree(Cleared(s.f, cs));
    ClearedWellFormed(t, s.f, cs);
  }

  lemma ChainCells(t: FatType, f: Fat, cs: seq<nat>, i: nat)
    requires IsChain(t, f, cs)
    ensures cs != [] && (i < |cs| ==> cs[i] < |f|)
  {
  }

  lemma ClearedWellFormed(t: FatType, f: Fat, cs: seq<nat>)
    requires WellFormed(t, f) && IsChain(t, f, cs)
    ensures WellFormed(t, Cleared(f, cs))
  {
    assert 0 !in cs && 1 !in cs;
  }

  lemma FewFree(f: Fat)
    requires |f| < ULONG
    ensures |FreeSet(f)| < ULONG
  {
    Below(FreeSet(f), |f|);
  }

  lemma {:induction false} Below(s: set<nat>, n: nat)
    requires forall x :: x in s ==> x < n
    ensures |s| <= n
    decreases n
  {
    if n > 0 {
      Below(s - {n - 1}, n - 1);
      assert s <= (s - {n - 1}) + {n - 1};
      assert |s| <= |s - {n - 1}| + 1;
    } else {
      assert s == {};
    }
  }

  // Cutting a chain leaves two chains and frees nothing.
  lemma CutChain(t: FatType, s: FatState, cs: seq<nat>, keep: nat)
    requires WellFormed(t, s.f) && IsChain(t, s.f, cs) && 0 < keep < |cs|
    ensures var g := s.f[cs[keep - 1] := Eof(t)];
      && WellFormed(t, g) && FreeSet(g) == FreeSet(s.f)
      && IsChain(t, g, cs[..keep]) && IsChain(t, g, cs[keep..])
      && (forall c :: c in cs[..keep] ==> c !in cs[keep..])
      && Volume.Stored(t, s, cs[keep - 1], Eof(t)) == FatState(g, s.free, s.next)
  {
    hide IsChain, FreeSet, WellFormed;
    ChainNonZero(t, s.f, cs, keep - 1);
    ChainCells(t, s.f, cs, keep - 1);
    CutSameFree(t, s.f, cs, keep);
    CutFront(t, s.f, cs, keep);
    CutBack(t, s.f, cs, keep);
  }

  lemma CutSameFree(t: FatType, f: Fat, cs: seq<nat>, keep: nat)
    requires WellFormed(t, f) && IsChain(t, f, cs) && 0 < keep < |cs|
    ensures var g := f[cs[keep - 1] := Eof(t)]; WellFormed(t, g) && FreeSet(g) == FreeSet(f)
  {
    ChainNonZero(t, f, cs, keep - 1);
    var g := f[cs[keep - 1] := Eof(t)];
    assert forall c: nat :: c < |f| ==> (IsFree(g, c) <==> IsFree(f, c));
  }

  lemma CutFront(t: FatType, f: Fat, cs: seq<nat>, keep: nat)
    requires IsChain(t, f, cs) && 0 < keep < |cs|
    ensures IsChain(t, f[cs[keep - 1] := Eof(t)], cs[..keep])
    ensures forall c :: c in cs[..keep] ==> c !in cs[keep..]
  {
    assert forall i :: 0 <= i < keep - 1 ==> cs[i] != cs[keep - 1];
  }

  lemma CutBack(t: FatType, f: Fat, cs: seq<nat>, keep: nat)
    requires IsChain(t, f, cs) && 0 < keep < |cs|
    ensures IsChain(t, f[cs[keep - 1] := Eof(t)], cs[keep..])
  {
    assert forall i :: keep <= i < |cs| ==> cs[i] != cs[keep - 1];
  }

  lemma TruncateKeepsInv(t: FatType, w: World, w': World, file: nat, keep: nat)
    requires Inv(t, w) && Step(t, w, Truncate(file, keep), w')
    ensures Inv(t, w')
  {
    hide IsChain, Deleted, FreeSet, Cleared, WellFormed, Disjoint, KeptApart, Volume.Stored;
    var f, cs := w.s.f, w.files[file];
    CutChain(t, w.s, cs, keep);
    ChainCells(t, f, cs, keep - 1);
    var g, rest := f[cs[keep - 1] := Eof(t)], cs[keep..];
    DeletedChain(t, FatState(g, w.s.free, w.s.next), rest);
    ClearedElsewhere(t, g, rest, cs[..keep]);
    forall k | k in w.files && k != file ensures KeptApart(t, w'.s.f, w.files[k], cs[..keep]) {
      CutElsewhere(t, f, cs, keep, w.files[k]);
    }
    OneFileChanged(t, w, w', file, cs[..keep]);
  }

  lemma CutElsewhere(t: FatType, f: Fat, cs: seq<nat>, keep: nat, other: seq<nat>)
    requires IsChain(t, f, cs) && 0 < keep < |cs| && IsChain(t, f, other) && Disjoint(other, cs)
    ensures KeptApart(t, Cleared(f[cs[keep - 1] := Eof(t)], cs[keep..]), other, cs[..keep])
  {
    assert forall x :: x in cs[..keep] || x in cs[keep..] ==> x in cs;
    assert cs[keep - 1] in cs;
    assert forall i :: 0 <= i < |other| ==> other[i] in other && other[i] != cs[keep - 1];
    ClearedElsewhere(t, f[cs[keep - 1] := Eof(t)], cs[keep..], other);
  }

  lemma StepKeepsInv(t: FatType, w: World, e: Event, w': World)
    requires Inv(t, w) && Step(t, w, e, w')
    ensures Inv(t, w')
  {
    match e
    case Create(file, n) =>
      if 0 < n <= w.s.free { TookKeepsInv(t, w, w', Eof(t), n, file, []); }
    case Extend(file, n) =>
      if 0 < n <= w.s.free { TookKeepsInv(t, w, w', Last(w.files[file]), n, file, w.files[file]); }
    case Grow(file) =>
      if w.s.free != 0 {
        var c: nat :| Grew(t, w, w', file, c);
        GrewKeepsInv(t, w, w', file, c);
      }
    case Truncate(file, keep) => TruncateKeepsInv(t, w, w', file, keep);
    case Delete(file) => DeleteKeepsInv(t, w, w', file);
  }

  // ---------------------------------------------------------------- whole runs

  ghost predicate Run(t: FatType, ws: seq<World>, es: seq<Event>) {
    && |ws| == |es| + 1
    && forall i :: 0 <= i < |es| ==> Inv(t, ws[i]) ==> Step(t, ws[i], es[i], ws[i + 1])
  }

  lemma {:induction false} RunKeepsInv(t: FatType, ws: seq<World>, es: seq<Event>, n: nat)
    requires Run(t, ws, es) && Inv(t, ws[0]) && n < |ws|
    ensures Inv(t, ws[n])
  {
    if n > 0 {
      RunKeepsInv(t, ws, es, n - 1);
      StepKeepsInv(t, ws[n - 1], es[n - 1], ws[n]);
    }
  }

  // At every moment of every run: the counter is the number of zero entries, and
  // one cluster has at most one owner.
  lemma RunIsSafe(t: FatType, ws: seq<World>, es: seq<Event>, n: nat, c: nat, j: nat, k: nat)
    requires Run(t, ws, es) && Inv(t, ws[0]) && n < |ws|
    requires j in ws[n].files && k in ws[n].files && c in ws[n].files[j] && c in ws[n].files[k]
    ensures j == k && c !in FreeSet(ws[n].s.f)
    ensures ws[n].s.free == |FreeSet(ws[n].s.f)|
  {
    RunKeepsInv(t, ws, es, n);
    var cs := ws[n].files[j];
    var i :| 0 <= i < |cs| && cs[i] == c;
    ChainNonZero(t, ws[n].s.f, cs, i);
    assert j != k ==> Disjoint(ws[n].files[j], ws[n].files[k]);
  }

  // ---------------------------------------------------------------- the driver's calls

  ghost predicate Enabled(files: map<nat, seq<nat>>, e: Event) {
    match e
    case Create(file, n) => file !in files
    case Extend(file, n) => file in files
    case Grow(file) => file in files
    case Truncate(file, keep) => file in files && 0 < keep < |files[file]|
    case Delete(file) => file in files
  }

  // The calls the driver makes for an event take exactly that step.
  method Perform(v: Volume, files: map<nat, seq<nat>>, e: Event) returns (ghost files': map<nat, seq<nat>>)
    requires v.Valid() && Inv(v.fat.kind, World(v.State(), files)) && Enabled(files, e)
    modifies v, v.fat, v.fat.disk, v.fat.window
    ensures v.Valid()
    ensures Step(v.fat.kind, World(old(v.State()), files), e, World(v.State(), files'))
  {
    hide Volume.Valid, Inv, Step;
    match e
    case Create(file, n) => files' := PerformCreate(v, files, file, n);
    case Extend(file, n) => files' := PerformExtend(v, files, file, n);
    case Grow(file) => files' := PerformGrow(v, files, file);
    case Truncate(file, keep) => files' := PerformTruncate(v, files, file, keep);
    case Delete(file) => files' := PerformDelete(v, files, file);
  }

  method PerformCreate(v: Volume, files: map<nat, seq<nat>>, file: nat, n: nat)
    returns (ghost files': map<nat, seq<nat>>)
    requires v.Valid() && Inv(v.fat.kind, World(v.State(), files)) && file !in files
    modifies v, v.fat, v.fat.disk, v.fat.window
    ensures v.Valid()
    ensures Step(v.fat.kind, World(old(v.State()), files), Create(file, n), World(v.State(), files'))
  {
    hide FatTable.Backed, FatTable.Geometry, FatTable.BlockOf, FatTable.Blocks;
    hide DeleteFrom, WellFormed, Appended, Rounds;
    ghost var t, s := v.fat.kind, v.State();
    files' := files;
    var first, last, runs := v.MakeFatChain(v.End(), n, 0);
    if 0 < n <= s.free {
      files' := files[file := [] + Flat(runs)];
      assert Volume.Allocated(t, s, v.State(), v.End(), n, runs, first, last);
    }
  }

  method PerformExtend(v: Volume, files: map<nat, seq<nat>>, file: nat, n: nat)
    returns (ghost files': map<nat, seq<nat>>)
    requires v.Valid() && Inv(v.fat.kind, World(v.State(), files)) && file in files
    modifies v, v.fat, v.fat.disk, v.fat.window
    ensures v.Valid()
    ensures Step(v.fat.kind, World(old(v.State()), files), Extend(file, n), World(v.State(), files'))
  {
    hide FatTable.Backed, FatTable.Geometry, FatTable.BlockOf, FatTable.Blocks;
    hide DeleteFrom, WellFormed, Appended, Rounds, Distinct;
    ghost var t, s := v.fat.kind, v.State();
    files' := files;
    var prev := Last(files[file]);
    ChainNonZero(t, s.f, files[file], |files[file]| - 1);
    var first, last, runs := v.MakeFatChain(prev, n, 0);
    if 0 < n <= s.free {
      files' := files[file := files[file] + Flat(runs)];
      assert Volume.Allocated(t, s, v.State(), prev, n, runs, first, last);
    }
  }

  method PerformGrow(v: Volume, files: map<nat, seq<nat>>, file: nat) returns (ghost files': map<nat, seq<nat>>)
    requires v.Valid() && Inv(v.fat.kind, World(v.State(), files)) && file in files
    modifies v, v.fat, v.fat.disk, v.fat.window
    ensures v.Valid()
    ensures Step(v.fat.kind, World(old(v.State()), files), Grow(file), World(v.State(), files'))
  {
    hide FatTable.Backed, FatTable.Geometry, FatTable.BlockOf, FatTable.Blocks;
    hide DeleteFrom, NextFree, WellFormed, Distinct;
    ghost var t, s := v.fat.kind, v.State();
    files' := files;
    var prev := Last(files[file]);
    ChainNonZero(t, s.f, files[file], |files[file]| - 1);
    var c := v.SetNextCluster(prev, FAT_ASSIGN_NEW);
    if c != v.End() {
      files' := files[file := files[file] + [c]];
      assert Grew(t, World(s, files), World(v.State(), files'), file, c);
    }
  }

  method PerformTruncate(v: Volume, files: map<nat, seq<nat>>, file: nat, keep: nat)
    returns (ghost files': map<nat, seq<nat>>)
    requires v.Valid() && Inv(v.fat.kind, World(v.State(), files)) && file in files && 0 < keep < |files[file]|
    modifies v, v.fat, v.fat.disk, v.fat.window
    ensures v.Valid()
    ensures Step(v.fat.kind, World(old(v.State()), files), Truncate(file, keep), World(v.State(), files'))
  {
    hide FatTable.Backed, FatTable.Geometry, FatTable.BlockOf, FatTable.Blocks;
    hide DeleteFrom, NextFree, Disjoint, IsChain, FreeSet;
    ghost var t, s := v.fat.kind, v.State();
    var cs := files[file];
    CutChain(t, s, cs, keep);
    CutTail(t, s.f, cs, keep);
    var _ := v.SetNextCluster(cs[keep - 1], v.End());
    var _ := v.DeleteFatChain(cs[keep]);
    files' := files[file := cs[..keep]];
    TruncateKeepsInv(t, World(s, files), World(v.State(), files'), file, keep);
  }

  method PerformDelete(v: Volume, files: map<nat, seq<nat>>, file: nat) returns (ghost files': map<nat, seq<nat>>)
    requires v.Valid() && Inv(v.fat.kind, World(v.State(), files)) && file in files
    modifies v, v.fat, v.fat.disk, v.fat.window
    ensures v.Valid()
    ensures Step(v.fat.kind, World(old(v.State()), files), Delete(file), World(v.State(), files'))
  {
    hide FatTable.Backed, FatTable.Geometry, FatTable.BlockOf, FatTable.Blocks;
    hide DeleteFrom, NextFree, Disjoint, IsChain, FreeSet;
    ghost var t, s := v.fat.kind, v.State();
    CutTail(t, s.f, files[file], 0);
    var _ := v.DeleteFatChain(files[file][0]);
    files' := files - {file};
    DeleteKeepsInv(t, World(s, files), World(v.State(), files'), file);
  }

  lemma CutTail(t: FatType, f: Fat, cs: seq<nat>, keep: nat)
    requires IsChain(t, f, cs) && (keep == 0 || keep < |cs|)
    ensures keep < |cs| && 2 <= cs[keep] < |f| && (keep > 0 ==> 2 <= cs[keep - 1] < |f|)
  {
  }
}

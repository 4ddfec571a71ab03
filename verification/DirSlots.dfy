// Directory slots as values: which are free, which belong to a long name, and what
// holds of a directory read as one sequence of slots.
module DirSlots {
  import opened FatCodec

  const DELETED_ENTRY: Byte := 0xE5
  const FILE_LONGNAME: Byte := 0x0F
  const FILE_VOLID: nat := 0x08

  // The 32 bytes of a DIRENTRY or LNENTRY: bFileName[0] or bNumber, the next ten
  // bytes, bAttr, and the last twenty.
  datatype Slot = Slot(first: Byte, name: Ten, attr: Byte, rest: Twenty)

  type Ten = s: seq<Byte> | |s| == 10 witness seq(10, _ => 0)
  type Twenty = s: seq<Byte> | |s| == 20 witness seq(20, _ => 0)

  function Filled(b: Byte): Slot { Slot(b, seq(10, _ => b), b, seq(20, _ => b)) }

  // The first byte says whether a slot is free.
  predicate Free(s: Slot) { s.first == 0 || s.first == DELETED_ENTRY }

  predicate LongAttr(s: Slot) { s.attr == FILE_LONGNAME }

  predicate LiveLong(s: Slot) { !Free(s) && LongAttr(s) }

  function Deleted(s: Slot): (r: Slot) { s.(first := DELETED_ENTRY) }

  // The live slots in order: the directory's meaning.
  ghost function Live(ss: seq<Slot>): (r: seq<Slot>)
    ensures forall i :: 0 <= i < |r| ==> !Free(r[i])
  {
    if ss == [] then [] else
      var rest := Live(ss[..|ss| - 1]);
      if Free(ss[|ss| - 1]) then rest else rest + [ss[|ss| - 1]]
  }

  function FreeCount(ss: seq<Slot>): (n: nat)
    ensures n <= |ss|
  {
    if ss == [] then 0 else FreeCount(ss[..|ss| - 1]) + (if Free(ss[|ss| - 1]) then 1 else 0)
  }

  lemma Concat(a: seq<Slot>, b: seq<Slot>)
    ensures Live(a + b) == Live(a) + Live(b)
    ensures FreeCount(a + b) == FreeCount(a) + FreeCount(b)
  {
    hide Live, FreeCount;
    LiveConcat(a, b);
    CountConcat(a, b);
  }

  lemma {:induction false} LiveConcat(a: seq<Slot>, b: seq<Slot>)
    ensures Live(a + b) == Live(a) + Live(b)
    decreases |b|
  {
    if b == [] {
      assert a + b == a;
    } else {
      var n := |b| - 1;
      LiveConcat(a, b[..n]);
      assert (a + b)[..|a + b| - 1] == a + b[..n];
    }
  }

  lemma {:induction false} CountConcat(a: seq<Slot>, b: seq<Slot>)
    ensures FreeCount(a + b) == FreeCount(a) + FreeCount(b)
    decreases |b|
  {
    if b == [] {
      assert a + b == a;
    } else {
      var n := |b| - 1;
      CountConcat(a, b[..n]);
      assert (a + b)[..|a + b| - 1] == a + b[..n];
    }
  }

  lemma Cut(ss: seq<Slot>, k: nat)
    requires k <= |ss|
    ensures Live(ss) == Live(ss[..k]) + Live(ss[k..])
    ensures FreeCount(ss) == FreeCount(ss[..k]) + FreeCount(ss[k..])
  {
    hide Live, FreeCount;
    var a, b := ss[..k], ss[k..];
    Rejoin(ss, k);
    Concat(a, b);
  }

  lemma Rejoin<T>(s: seq<T>, k: nat)
    requires k <= |s|
    ensures s[..k] + s[k..] == s
  {
  }

  lemma {:induction false} AllFree(ss: seq<Slot>)
    requires forall i :: 0 <= i < |ss| ==> Free(ss[i])
    ensures Live(ss) == [] && FreeCount(ss) == |ss|
  {
    if ss != [] {
      AllFree(ss[..|ss| - 1]);
    }
  }

  lemma {:induction false} AllLive(ss: seq<Slot>)
    requires forall i :: 0 <= i < |ss| ==> !Free(ss[i])
    ensures Live(ss) == ss && FreeCount(ss) == 0
  {
    if ss != [] {
      AllLive(ss[..|ss| - 1]);
    }
  }

  // ---------------------------------------------------------------- groups

  // A live long-name slot is followed by a live slot, as far as the sequence goes.
  predicate RunAt(ss: seq<Slot>, i: nat) {
    i + 1 < |ss| && LiveLong(ss[i]) ==> !Free(ss[i + 1])
  }

  ghost predicate RunsOk(ss: seq<Slot>) {
    forall i: nat :: i < |ss| ==> RunAt(ss, i)
  }

  // No long name is left open at the end.
  predicate Closed(ss: seq<Slot>) {
    ss == [] || !LiveLong(ss[|ss| - 1])
  }

  ghost predicate WellFormedDir(ss: seq<Slot>) { RunsOk(ss) && Closed(ss) }

  // Nothing but free slots marked 0 follows a slot marked 0: readers stop there.
  ghost predicate ZeroTail(ss: seq<Slot>) {
    forall i, j :: 0 <= i < j < |ss| && ss[i].first == 0 ==> ss[j].first == 0
  }

  lemma RunsConcat(a: seq<Slot>, b: seq<Slot>)
    ensures RunsOk(a + b) <==> RunsOk(a) && RunsOk(b) && (b != [] && !Closed(a) ==> !Free(b[0]))
  {
    var c := a + b;
    if RunsOk(c) {
      forall i: nat | i < |a| ensures RunAt(a, i) {
        assert RunAt(c, i);
      }
      forall i: nat | i < |b| ensures RunAt(b, i) {
        assert RunAt(c, |a| + i);
      }
      if b != [] && !Closed(a) {
        assert RunAt(c, |a| - 1);
      }
    }
    if RunsOk(a) && RunsOk(b) && (b != [] && !Closed(a) ==> !Free(b[0])) {
      forall i: nat | i < |c| ensures RunAt(c, i) {
        if i < |a| {
          assert RunAt(a, i);
        } else {
          assert RunAt(b, i - |a|);
        }
      }
    }
  }

  // Live slots alone keep every long name with what follows it.
  lemma LiveRuns(ss: seq<Slot>)
    ensures RunsOk(Live(ss))
  {
  }

  // In a well-formed stretch the last live slot is a long name only at the very end.
  lemma {:induction false} LiveClosed(ss: seq<Slot>)
    requires RunsOk(ss)
    ensures Closed(Live(ss)) <==> Closed(ss)
  {
    if ss != [] {
      var n := |ss| - 1;
      RunsPrefix(ss, n);
      if Free(ss[n]) {
        LiveClosed(ss[..n]);
        if n > 0 { assert RunAt(ss, n - 1); }
      }
    }
  }

  lemma RunsPrefix(ss: seq<Slot>, k: nat)
    requires RunsOk(ss) && k <= |ss|
    ensures RunsOk(ss[..k]) && RunsOk(ss[k..])
  {
    RunsConcat(ss[..k], ss[k..]);
    assert ss[..k] + ss[k..] == ss;
  }

  // From a live long-name slot on, slots with the long-name attribute are all live.
  lemma {:induction false} LiveSuffix(ss: seq<Slot>, j: nat, k: nat)
    requires RunsOk(ss) && j <= k < |ss| && LiveLong(ss[j]) && forall i :: j <= i < k ==> LongAttr(ss[i])
    ensures !Free(ss[k])
    decreases k - j
  {
    if j < k {
      assert RunAt(ss, j);
      if j + 1 < k {
        LiveSuffix(ss, j + 1, k);
      }
    }
  }

  // Long-name slots and then end marks: the free ones come first.
  lemma FreeFirst(ss: seq<Slot>, t: nat, n: nat)
    requires RunsOk(ss) && t <= |ss| && n <= FreeCount(ss)
    requires (forall i :: 0 <= i < t ==> LongAttr(ss[i])) && (forall i :: t <= i < |ss| ==> ss[i].first == 0)
    ensures n <= |ss| && forall i :: 0 <= i < n ==> Free(ss[i])
  {
    forall j | 0 <= j < n ensures Free(ss[j]) {
      if !Free(ss[j]) {
        forall k | j <= k < |ss| ensures !Free(ss[k]) {
          LiveSuffix(ss, j, if k < t then k else t);
        }
        CountBefore(ss, j);
      }
    }
  }

  lemma CountBefore(ss: seq<Slot>, j: nat)
    requires j <= |ss| && forall k :: j <= k < |ss| ==> !Free(ss[k])
    ensures FreeCount(ss) <= j
  {
    AllLive(ss[j..]);
    Cut(ss, j);
  }
}

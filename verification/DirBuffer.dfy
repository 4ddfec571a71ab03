// The in-place edits of a directory buffer: counting, marking and compacting.
module DirBuffer {
  import opened DirSlots

  // GetFreeEntries
  method GetFreeEntries(buf: array<Slot>, lo: nat, hi: nat) returns (count: nat)
    requires lo <= hi <= buf.Length
    ensures count == FreeCount(buf[lo..hi])
  {
    count := 0;
    var i := lo;
    while i != hi
      invariant lo <= i <= hi && count == FreeCount(buf[lo..i])
    {
      if Free(buf[i]) {
        count := count + 1;
      }
      assert buf[lo..i + 1][..i - lo] == buf[lo..i];
      i := i + 1;
    }
  }

  function Marked(ss: seq<Slot>): (r: seq<Slot>)
    ensures |r| == |ss|
  {
    seq(|ss|, i requires 0 <= i < |ss| => if ss[i].first == 0 then Deleted(ss[i]) else ss[i])
  }

  // MarkFreeEntries
  method MarkFreeEntries(buf: array<Slot>, lo: nat, hi: nat)
    requires lo <= hi <= buf.Length
    modifies buf
    ensures buf[..lo] == old(buf[..lo]) && buf[hi..] == old(buf[hi..])
    ensures buf[lo..hi] == Marked(old(buf[lo..hi]))
  {
    var i := lo;
    while i != hi
      invariant lo <= i <= hi
      invariant forall k :: 0 <= k < buf.Length ==>
        buf[k] == if lo <= k < i && old(buf[k]).first == 0 then Deleted(old(buf[k])) else old(buf[k])
    {
      if buf[i].first == 0 {
        buf[i] := Deleted(buf[i]);
      }
      i := i + 1;
    }
  }

  // Marking changes no live slot; afterwards no slot reads as the end of the directory.
  lemma {:induction false} MarkedSame(ss: seq<Slot>)
    ensures Live(Marked(ss)) == Live(ss) && FreeCount(Marked(ss)) == FreeCount(ss)
  {
    if ss != [] {
      var n := |ss| - 1;
      MarkedSame(ss[..n]);
      assert Marked(ss)[..n] == Marked(ss[..n]);
    }
  }

  // `rr` is `ss` rearranged: `needed` overwritable slots from `p` on, the live slots in
  // the same order, and the gap between two groups.
  ghost predicate Room(ss: seq<Slot>, rr: seq<Slot>, p: nat, needed: nat) {
    && |rr| == |ss| && p + needed <= |ss|
    && (forall i :: p <= i < p + needed ==> Free(rr[i]))
    && Live(rr[..p]) + Live(rr[p + needed..]) == Live(ss)
    && RunsOk(rr[..p]) && Closed(rr[..p])
    && rr[p + needed..] == ss[p + needed..]
    && (ss != [] && !Free(ss[0]) ==> p > 0 && rr[0] == ss[0])
    && (ZeroTail(ss) ==> forall i :: 0 <= i < p ==> rr[i].first != 0)
  }

  function Fill(n: nat): (r: seq<Slot>)
    ensures |r| == n && forall i :: 0 <= i < n ==> Free(r[i])
  {
    seq(n, _ => Filled(DELETED_ENTRY))
  }

  // ---------------------------------------------------------------- CompactDir's plan

  // The buffer `a + m + y`: `a` was searched for free slots, `m` follows untouched, and
  // `y` holds the long-name slots and end marks at the end. CompactDir leaves the live
  // slots of `a`, then `m`, then fill for the free slots of `a`, then `y`.
  ghost predicate Searched(a: seq<Slot>, m: seq<Slot>, y: seq<Slot>, needed: nat) {
    && (m == [] || FreeCount(a) == needed) && FreeCount(a) <= needed
    && (FreeCount(a) == needed ==> a != [] && Free(a[|a| - 1]))
  }

  // The front `x` ends with no long-name slot.
  predicate NoLongEnd(x: seq<Slot>) { x == [] || !LongAttr(x[|x| - 1]) }

  // Long-name slots, then end marks.
  ghost predicate LongThenMarks(y: seq<Slot>, t: nat) {
    && t <= |y| && (forall k :: 0 <= k < t ==> LongAttr(y[k])) && (forall k :: t <= k < |y| ==> y[k].first == 0)
  }

  lemma SqueezedRoom(a: seq<Slot>, m: seq<Slot>, y: seq<Slot>, t: nat, needed: nat)
    requires RunsOk(a + m + y) && 0 < needed <= FreeCount(a + m + y) && Searched(a, m, y, needed)
    requires NoLongEnd(a + m) && LongThenMarks(y, t)
    requires ZeroTail(a + m + y) ==> forall k :: 0 <= k < |a + m| ==> (a + m)[k].first != 0
    ensures Room(a + m + y, Live(a) + m + Fill(FreeCount(a)) + y, |Live(a) + m|, needed)
  {
    hide FreeCount, Live, RunsOk, ZeroTail, Room, LongThenMarks;
    var n, x := needed - FreeCount(a), Live(a) + m;
    LiveCount(a);
    BeforeGap(a, m, y, needed);
    AfterGap(a, m, y, t, needed);
    SplitLive(a, m, y, n);
    FirstKept(a, m, y, t, needed);
    KeptNonzero(a, m, y);
    Assemble(a + m + y, x, Fill(FreeCount(a)), y, needed);
  }

  lemma Assemble(ss: seq<Slot>, x: seq<Slot>, fill: seq<Slot>, y: seq<Slot>, needed: nat)
    requires |x| + |fill| + |y| == |ss| && ss[|x| + |fill|..] == y && |fill| <= needed <= |fill| + |y|
    requires forall k :: 0 <= k < |fill| ==> Free(fill[k])
    requires forall k :: 0 <= k < needed - |fill| ==> Free(y[k])
    requires RunsOk(x) && Closed(x) && Live(x) + Live(y[needed - |fill|..]) == Live(ss)
    requires ss != [] && !Free(ss[0]) ==> x != [] && x[0] == ss[0]
    requires ZeroTail(ss) ==> forall k :: 0 <= k < |x| ==> x[k].first != 0
    ensures Room(ss, x + fill + y, |x|, needed)
  {
    hide RunsOk, ZeroTail, Live, Free;
    var z := fill + y;
    Regroup(x, fill, y);
    DropFront(x, z, needed);
    DropFront(fill, y, needed - |fill|);
    DropDrop(ss, |x| + |fill|, needed - |fill|);
    GapFree(x, fill, y, needed);
  }

  lemma Regroup<T>(x: seq<T>, fill: seq<T>, y: seq<T>)
    ensures x + fill + y == x + (fill + y)
  {
  }

  lemma DropFront<T>(x: seq<T>, z: seq<T>, n: nat)
    requires n <= |z|
    ensures (x + z)[..|x|] == x && (x + z)[|x| + n..] == z[n..]
  {
  }

  lemma DropDrop<T>(s: seq<T>, i: nat, n: nat)
    requires i + n <= |s|
    ensures s[i..][n..] == s[i + n..]
  {
  }

  lemma GapFree(x: seq<Slot>, fill: seq<Slot>, y: seq<Slot>, needed: nat)
    requires |fill| <= needed <= |fill| + |y|
    requires forall k :: 0 <= k < |fill| ==> Free(fill[k])
    requires forall k :: 0 <= k < needed - |fill| ==> Free(y[k])
    ensures forall k :: |x| <= k < |x| + needed ==> Free((x + fill + y)[k])
  {
  }

  lemma {:induction false} LiveCount(ss: seq<Slot>)
    ensures |Live(ss)| + FreeCount(ss) == |ss|
  {
    if ss != [] {
      LiveCount(ss[..|ss| - 1]);
    }
  }

  lemma BeforeGap(a: seq<Slot>, m: seq<Slot>, y: seq<Slot>, needed: nat)
    requires RunsOk(a + m + y) && NoLongEnd(a + m) && Searched(a, m, y, needed)
    ensures RunsOk(Live(a) + m) && Closed(Live(a) + m)
  {
    hide Live, RunsOk, FreeCount;
    RunsConcat(a + m, y);
    RunsConcat(a, m);
    LiveClosed(a);
    LiveRuns(a);
    RunsConcat(Live(a), m);
    if m == [] {
      assert Live(a) + m == Live(a) && a + m == a;
    }
  }

  lemma AfterGap(a: seq<Slot>, m: seq<Slot>, y: seq<Slot>, t: nat, needed: nat)
    requires RunsOk(a + m + y) && needed <= FreeCount(a + m + y) && Searched(a, m, y, needed) && LongThenMarks(y, t)
    ensures needed - FreeCount(a) <= |y| && forall k :: 0 <= k < needed - FreeCount(a) ==> Free(y[k])
  {
    hide FreeCount, RunsOk;
    if FreeCount(a) < needed {
      assert a + m == a;
      Concat(a, y);
      RunsConcat(a, y);
      FreeFirst(y, t, needed - FreeCount(a));
    }
  }

  lemma SplitLive(a: seq<Slot>, m: seq<Slot>, y: seq<Slot>, n: nat)
    requires n <= |y| && forall k :: 0 <= k < n ==> Free(y[k])
    ensures Live(Live(a) + m) + Live(y[n..]) == Live(a + m + y)
  {
    hide Live;
    AllLive(Live(a));
    Concat(Live(a), m);
    Concat(a, m);
    Concat(a + m, y);
    DropFree(y, n);
  }

  // Free slots add nothing.
  lemma DropFree(y: seq<Slot>, n: nat)
    requires n <= |y| && forall k :: 0 <= k < n ==> Free(y[k])
    ensures Live(y) == Live(y[n..])
  {
    hide Live;
    Cut(y, n);
    AllFree(y[..n]);
  }

  lemma LiveHead(ss: seq<Slot>)
    requires ss != [] && !Free(ss[0])
    ensures Live(ss) != [] && Live(ss)[0] == ss[0]
  {
    AllLive(ss[..1]);
    Cut(ss, 1);
  }

  lemma FirstKept(a: seq<Slot>, m: seq<Slot>, y: seq<Slot>, t: nat, needed: nat)
    requires RunsOk(a + m + y) && 0 < needed <= FreeCount(a + m + y) && Searched(a, m, y, needed) && LongThenMarks(y, t)
    ensures var ss := a + m + y; ss != [] && !Free(ss[0]) ==> Live(a) + m != [] && (Live(a) + m)[0] == ss[0]
  {
    if a != [] && !Free(a[0]) {
      LiveHead(a);
    }
    if a == [] {
      AfterGap(a, m, y, t, needed);
    }
  }

  lemma KeptNonzero(a: seq<Slot>, m: seq<Slot>, y: seq<Slot>)
    ensures (forall k :: 0 <= k < |a + m| ==> (a + m)[k].first != 0) ==>
      forall k :: 0 <= k < |Live(a) + m| ==> (Live(a) + m)[k].first != 0
  {
    if forall k :: 0 <= k < |a + m| ==> (a + m)[k].first != 0 {
      forall k | 0 <= k < |m| ensures m[k].first != 0 {
        assert (a + m)[|a| + k] == m[k];
      }
    }
  }

  lemma ZerosRoom(ss: seq<Slot>, f: nat, needed: nat)
    requires RunsOk(ss) && needed > 0 && f + needed <= |ss|
    requires (forall k :: f <= k < |ss| ==> ss[k].first == 0)
    requires (f == 0 || (!LongAttr(ss[f - 1]) && ss[f - 1].first != 0))
    ensures Room(ss, ss, f, needed)
  {
    hide Live, RunsOk;
    RunsPrefix(ss, f);
    DropFree(ss[f..], needed);
    Cut(ss, f);
    assert ss[f..][needed..] == ss[f + needed..];
    if ZeroTail(ss) && f > 0 {
      var last := ss[f - 1];
      assert forall k :: 0 <= k < f ==> ss[k].first != 0;
    }
  }

  // ---------------------------------------------------------------- CompactDir's loops

  ghost predicate MarksFrom(b: seq<Slot>, lo: nat, hi: nat, t: nat) {
    lo <= t <= hi <= |b| && (forall k :: t <= k < hi ==> b[k].first == 0) && (t == lo || b[t - 1].first != 0)
  }

  ghost predicate LongFrom(b: seq<Slot>, lo: nat, t: nat, first: nat) {
    lo <= first <= t <= |b| && (forall k :: first <= k < t ==>
        LongAttr(b[k])) && (first == lo || !LongAttr(b[first - 1]))
  }

  // The live slots of `b` in [lo, i) moved down to [lo, tar).
  ghost predicate MovedDown(b: seq<Slot>, r: seq<Slot>, lo: nat, tar: nat, i: nat) {
    && lo <= tar <= i <= |b| == |r|
    && tar - lo == |Live(b[lo..i])| && i - tar == FreeCount(b[lo..i])
    && (forall k :: lo <= k < tar ==> r[k] == Live(b[lo..i])[k - lo])
    && (forall k :: 0 <= k < |b| && !(lo <= k < tar) ==> r[k] == b[k])
  }

  // The first loop of CompactDir: where the end marks at the end begin.
  method EndMarks(buf: array<Slot>, lo: nat, hi: nat) returns (t: nat, free: nat)
    requires lo <= hi <= buf.Length
    ensures free == hi - t && MarksFrom(buf[..], lo, hi, t)
  {
    t, free := hi, 0;
    while t != lo
      invariant lo <= t <= hi && free == hi - t
      invariant forall k :: t <= k < hi ==> buf[k].first == 0
    {
      if buf[t - 1].first == 0 {
        free := free + 1;
      } else {
        break;
      }
      t := t - 1;
    }
  }

  // The second loop of CompactDir: long-name slots, deleted or not, stay at the end.
  method LongTail(buf: array<Slot>, lo: nat, t: nat) returns (first: nat)
    requires lo <= t <= buf.Length
    ensures LongFrom(buf[..], lo, t, first)
  {
    first := t;
    while first != lo && LongAttr(buf[first - 1])
      invariant lo <= first <= t && forall k :: first <= k < t ==> LongAttr(buf[k])
    {
      first := first - 1;
    }
  }

  // The third loop of CompactDir: move live slots down until enough free ones are found.
  method Squeeze(buf: array<Slot>, lo: nat, first: nat, needed: nat) returns (tar: nat, i: nat, used: nat)
    requires lo <= first <= buf.Length && needed > 0
    modifies buf
    ensures i <= first && MovedDown(old(buf[..]), buf[..], lo, tar, i)
    ensures used == i - tar <= needed && (i == first || used == needed)
    ensures used == needed ==> i > lo && Free(old(buf[i - 1]))
  {
    hide FreeCount, Live;
    ghost var b: seq<Slot> := buf[..];
    ghost var live: seq<Slot> := [];
    tar, i, used := lo, lo, 0;
    CountNone(b, lo);
    while i != first && used < needed
      invariant lo <= tar <= i <= first && used == i - tar == FreeCount(b[lo..i]) <= needed
      invariant live == Live(b[lo..i]) && |live| == tar - lo
      invariant forall k :: lo <= k < tar ==> buf[k] == live[k - lo]
      invariant forall k :: 0 <= k < buf.Length && !(lo <= k < tar) ==> buf[k] == b[k]
      invariant used == needed ==> i > lo && Free(b[i - 1])
    {
      CountNext(b, lo, i);
      if !Free(buf[i]) {
        live := live + [buf[i]];
        if tar != i {
          buf[tar] := buf[i];
        }
        tar := tar + 1;
      } else {
        used := used + 1;
      }
      i := i + 1;
    }
  }

  lemma CountNone(b: seq<Slot>, lo: nat)
    requires lo <= |b|
    ensures FreeCount(b[lo..lo]) == 0 && Live(b[lo..lo]) == []
  {
  }

  lemma CountNext(b: seq<Slot>, lo: nat, i: nat)
    requires lo <= i < |b|
    ensures FreeCount(b[lo..i + 1]) == FreeCount(b[lo..i]) + (if Free(b[i]) then 1 else 0)
    ensures Live(b[lo..i + 1]) == if Free(b[i]) then Live(b[lo..i]) else Live(b[lo..i]) + [b[i]]
  {
    assert b[lo..i + 1][..i - lo] == b[lo..i];
  }

  // The end of CompactDir: move the rest down and fill the gap.
  method CloseUp(buf: array<Slot>, tar: nat, i: nat, first: nat) returns (p: nat)
    requires tar <= i <= first <= buf.Length
    modifies buf
    ensures p == first - (i - tar) && ClosedUp(old(buf[..]), buf[..], tar, i, first)
  {
    p := first;
    if tar != i {
      var used := i - tar;
      forall k | 0 <= k < first - i {
        buf[tar + k] := buf[i + k];
      }
      p := first - used;
      forall k | 0 <= k < used {
        buf[p + k] := Filled(DELETED_ENTRY);
      }
    }
  }

  ghost predicate ClosedUp(b: seq<Slot>, r: seq<Slot>, tar: nat, i: nat, first: nat) {
    && tar <= i <= first <= |b| == |r|
    && forall k :: 0 <= k < |b| ==> r[k] == ClosedSlot(b, tar, i, first, k)
  }

  ghost function ClosedSlot(b: seq<Slot>, tar: nat, i: nat, first: nat, k: nat): Slot
    requires tar <= i <= first <= |b| && k < |b|
  {
    if tar <= k < tar + (first - i) then b[k + (i - tar)]
    else if tar + (first - i) <= k < first then Filled(DELETED_ENTRY)
    else b[k]
  }

  // The end marks at the end of `ss` begin at `t`, the long-name slots in front of them at `f`.
  ghost predicate Tail(ss: seq<Slot>, f: nat, t: nat) {
    && f <= t <= |ss| && (forall k :: t <= k < |ss| ==> ss[k].first == 0) && (t > 0 ==> ss[t - 1].first != 0)
    && (forall k :: f <= k < t ==> ss[k].attr == 0x0F) && (f > 0 ==> ss[f - 1].attr != 0x0F)
  }

  // What CompactDir leaves, slot by slot. It changes nothing when there is room in the end
  // marks and no long name in front of them. Otherwise it takes out the first `needed` free
  // slots, or all, of those in front of the tail, the last of them at `i` - 1.
  ghost predicate Compact(ss: seq<Slot>, rr: seq<Slot>, p: nat, needed: nat, i: nat, f: nat, t: nat) {
    && Tail(ss, f, t) && i <= f
    && if t == f && needed <= |ss| - t then rr == ss && p == t
       else (
         && var free := FreeCount(ss[..i]);
         && free <= needed && (i == f || free == needed) && (free == needed ==> i > 0 && Free(ss[i - 1]))
         && p == f - free && rr == Live(ss[..i]) + ss[i..f] + Fill(free) + ss[f..])
  }

  // `now` is `ss` compacted with the group `g` in the room made, at `p`.
  ghost predicate Fitted(ss: seq<Slot>, now: seq<Slot>, g: seq<Slot>, p: nat) {
    exists rr: seq<Slot>, i: nat, f: nat, t: nat ::
      Compact(ss, rr, p, |g|, i, f, t) && p + |g| <= |rr| && now == rr[..p] + g + rr[p + |g|..]
  }

  lemma FittedBy(ss: seq<Slot>, rr: seq<Slot>, now: seq<Slot>, g: seq<Slot>, p: nat, i: nat, f: nat, t: nat)
    requires Compact(ss, rr, p, |g|, i, f, t) && p + |g| <= |rr| && now == rr[..p] + g + rr[p + |g|..]
    ensures Fitted(ss, now, g, p)
  {
  }

  lemma Unchanged(b: seq<Slot>, lo: nat, hi: nat, t: nat, needed: nat)
    requires MarksFrom(b, lo, hi, t) && (t == lo || !LongAttr(b[t - 1])) && needed <= hi - t
    ensures Compact(b[lo..hi], b[lo..hi], t - lo, needed, 0, t - lo, t - lo)
  {
  }

  // The loops of CompactDir leave exactly that.
  lemma Gathered(b: seq<Slot>, b1: seq<Slot>, r: seq<Slot>, lo: nat, hi: nat, t: nat, first: nat, tar: nat, i: nat,
                 needed: nat)
    requires MarksFrom(b, lo, hi, t) && LongFrom(b, lo, t, first) && i <= first
    requires MovedDown(b, b1, lo, tar, i) && ClosedUp(b1, r, tar, i, first)
    requires i - tar <= needed && (i == first || i - tar == needed)
    requires i - tar == needed ==> i > lo && Free(b[i - 1])
    requires t == first ==> hi - t < needed
    ensures Compact(b[lo..hi], r[lo..hi], first - (i - tar) - lo, needed, i - lo, first - lo, t - lo)
  {
    hide FreeCount, Live, ClosedUp, Tail, MarksFrom, LongFrom, Free;
    TailOf(b, lo, hi, first, t);
    Rearranged(b, b1, r, lo, hi, tar, i, first);
    Stretches(b, lo, i, first, hi);
  }

  lemma TailOf(b: seq<Slot>, lo: nat, hi: nat, first: nat, t: nat)
    requires MarksFrom(b, lo, hi, t) && LongFrom(b, lo, t, first)
    ensures lo <= first <= t <= hi <= |b| && Tail(b[lo..hi], first - lo, t - lo)
  {
    var ss := b[lo..hi];
    forall k | 0 <= k < |ss| ensures ss[k] == b[lo + k] && (t - lo <= k ==> ss[k].first == 0) &&
      (first - lo <= k < t - lo ==> ss[k].attr == 0x0F)
    {
      assert b[lo + k] == ss[k];
    }
  }

  lemma Stretches(b: seq<Slot>, lo: nat, i: nat, first: nat, hi: nat)
    requires lo <= i <= first <= hi <= |b|
    ensures var ss := b[lo..hi];
      ss[..i - lo] == b[lo..i] && ss[i - lo..first - lo] == b[i..first] && ss[first - lo..] == b[first..hi]
    ensures i > lo ==> b[lo..hi][i - lo - 1] == b[i - 1]
  {
    var ss := b[lo..hi];
    assert forall k :: 0 <= k < |ss| ==> ss[k] == b[lo + k];
    assert ss[first - lo..] == b[first..hi];
    assert ss[i - lo..first - lo] == b[i..first];
  }

  // CompactDir: squeeze free slots together behind the live ones, in front of the end
  // marks and of a long name that goes on beyond the buffer.
  method CompactDir(buf: array<Slot>, lo: nat, hi: nat, needed: nat)
    returns (p: nat, ghost i: nat, ghost f: nat, ghost t: nat)
    requires lo <= hi <= buf.Length
    requires 0 < needed <= FreeCount(buf[lo..hi]) && RunsOk(buf[lo..hi])
    modifies buf
    ensures buf[..lo] == old(buf[..lo]) && buf[hi..] == old(buf[hi..])
    ensures lo <= p <= hi && Room(old(buf[lo..hi]), buf[lo..hi], p - lo, needed)
    ensures Compact(old(buf[lo..hi]), buf[lo..hi], p - lo, needed, i, f, t)
  {
    hide FreeCount, Live, RunsOk, Room, MovedDown, ClosedUp, Compact;
    ghost var b: seq<Slot> := buf[..];
    var marks, free := EndMarks(buf, lo, hi);
    if marks == lo || !LongAttr(buf[marks - 1]) {
      if free >= needed {
        ZerosAtEnd(b, lo, hi, marks, needed);
        Unchanged(b, lo, hi, marks, needed);
        return marks, 0, marks - lo, marks - lo;
      }
    }
    var first := LongTail(buf, lo, marks);
    var tar, pos, used := Squeeze(buf, lo, first, needed);
    ghost var b1: seq<Slot> := buf[..];
    p := CloseUp(buf, tar, pos, first);
    Compacted(b, b1, buf[..], lo, hi, marks, first, tar, pos, needed);
    Gathered(b, b1, buf[..], lo, hi, marks, first, tar, pos, needed);
    i, f, t := pos - lo, first - lo, marks - lo;
  }

  lemma ZerosAtEnd(b: seq<Slot>, lo: nat, hi: nat, t: nat, needed: nat)
    requires MarksFrom(b, lo, hi, t) && 0 < needed <= hi - t && (t == lo || !LongAttr(b[t - 1])) && RunsOk(b[lo..hi])
    ensures Room(b[lo..hi], b[lo..hi], t - lo, needed)
  {
    hide RunsOk, Room;
    ZerosRoom(b[lo..hi], t - lo, needed);
  }

  // The steps of CompactDir, put together.
  lemma Compacted(b: seq<Slot>, b1: seq<Slot>, r: seq<Slot>, lo: nat, hi: nat, t: nat, first: nat, tar: nat, i: nat,
                  needed: nat)
    requires MarksFrom(b, lo, hi, t) && LongFrom(b, lo, t, first) && i <= first
    requires MovedDown(b, b1, lo, tar, i) && ClosedUp(b1, r, tar, i, first)
    requires 0 < needed <= FreeCount(b[lo..hi]) && RunsOk(b[lo..hi])
    requires i - tar <= needed && (i == first || i - tar == needed)
    requires i - tar == needed ==> i > lo && Free(b[i - 1])
    ensures r[..lo] == b[..lo] && r[hi..] == b[hi..]
    ensures lo <= first - (i - tar) <= hi && Room(b[lo..hi], r[lo..hi], first - (i - tar) - lo, needed)
  {
    hide Live, FreeCount, RunsOk, Room, Searched, NoLongEnd, LongThenMarks, ClosedUp;
    var a, m, y := b[lo..i], b[i..first], b[first..hi];
    ThreeParts(b, lo, i, first, hi);
    LiveCount(a);
    Rearranged(b, b1, r, lo, hi, tar, i, first);
    Premises(b, lo, hi, t, first, i, needed);
    hide MovedDown, MarksFrom, LongFrom;
    SqueezedRoom(a, m, y, t - first, needed);
  }

  lemma ThreeParts(b: seq<Slot>, lo: nat, i: nat, first: nat, hi: nat)
    requires lo <= i <= first <= hi <= |b|
    ensures b[lo..i] + b[i..first] + b[first..hi] == b[lo..hi] && b[lo..i] + b[i..first] == b[lo..first]
  {
  }

  lemma Rearranged(b: seq<Slot>, b1: seq<Slot>, r: seq<Slot>, lo: nat, hi: nat, tar: nat, i: nat, first: nat)
    requires MovedDown(b, b1, lo, tar, i) && ClosedUp(b1, r, tar, i, first) && first <= hi <= |b|
    ensures r[lo..hi] == Live(b[lo..i]) + b[i..first] + Fill(FreeCount(b[lo..i])) + b[first..hi]
    ensures r[..lo] == b[..lo] && r[hi..] == b[hi..]
  {
    hide Live, FreeCount;
    var q := Live(b[lo..i]) + b[i..first] + Fill(FreeCount(b[lo..i])) + b[first..hi];
    forall k | 0 <= k < hi - lo ensures r[lo..hi][k] == q[k] {
      assert r[lo + k] == ClosedSlot(b1, tar, i, first, lo + k);
    }
  }

  lemma Premises(b: seq<Slot>, lo: nat, hi: nat, t: nat, first: nat, i: nat, needed: nat)
    requires MarksFrom(b, lo, hi, t) && LongFrom(b, lo, t, first) && lo <= i <= first
    requires FreeCount(b[lo..i]) <= needed && (i == first || FreeCount(b[lo..i]) == needed)
    requires FreeCount(b[lo..i]) == needed ==> i > lo && Free(b[i - 1])
    ensures Searched(b[lo..i], b[i..first], b[first..hi], needed)
    ensures NoLongEnd(b[lo..first]) && LongThenMarks(b[first..hi], t - first)
    ensures ZeroTail(b[lo..hi]) ==> forall k :: 0 <= k < first - lo ==> b[lo..first][k].first != 0
  {
    hide FreeCount, LongThenMarks;
    TailMarks(b, lo, hi, t, first);
    if ZeroTail(b[lo..hi]) && t > lo {
      var last := b[lo..hi][t - 1 - lo];
      forall k | 0 <= k < first - lo ensures b[lo..first][k].first != 0 {
        assert b[lo..hi][k] == b[lo..first][k];
      }
    }
  }

  lemma TailMarks(b: seq<Slot>, lo: nat, hi: nat, t: nat, first: nat)
    requires MarksFrom(b, lo, hi, t) && LongFrom(b, lo, t, first)
    ensures LongThenMarks(b[first..hi], t - first)
  {
    var y := b[first..hi];
    assert forall k :: 0 <= k < |y| ==> y[k] == b[first + k];
  }
}

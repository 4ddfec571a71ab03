// A directory as the slots of its clusters in chain order, and what inserting and
// deleting a group of slots means for it.
module DirEdits {
  import opened Common
  import opened FatCodec
  import opened DirSlots
  import opened DirBuffer
  import opened FatChains

  // The slots of the clusters `cs`, whose blocks are in `d`.
  ghost function Entries(d: seq<seq<Slot>>, cs: seq<nat>): (r: seq<Slot>)
    requires forall i :: 0 <= i < |cs| ==> cs[i] < |d|
  {
    if cs == [] then [] else Entries(d, cs[..|cs| - 1]) + d[cs[|cs| - 1]]
  }

  ghost predicate Inside(d: seq<seq<Slot>>, cs: seq<nat>) {
    forall i :: 0 <= i < |cs| ==> cs[i] < |d|
  }

  lemma {:induction false} EntriesConcat(d: seq<seq<Slot>>, a: seq<nat>, b: seq<nat>)
    requires Inside(d, a) && Inside(d, b)
    ensures Inside(d, a + b) && Entries(d, a + b) == Entries(d, a) + Entries(d, b)
    decreases |b|
  {
    if b == [] {
      assert a + b == a;
    } else {
      var m := |b| - 1;
      EntriesConcat(d, a, b[..m]);
      Init(a, b);
      Append(Entries(d, a), Entries(d, b[..m]), d[b[m]]);
    }
  }

  lemma Init<T>(a: seq<T>, b: seq<T>)
    requires b != []
    ensures (a + b)[..|a + b| - 1] == a + b[..|b| - 1] && (a + b)[|a + b| - 1] == b[|b| - 1]
  {
  }

  lemma Append<T>(a: seq<T>, b: seq<T>, c: seq<T>)
    ensures (a + b) + c == a + (b + c)
  {
  }

  // Blocks of other clusters do not matter.
  lemma {:induction false} EntriesElsewhere(d: seq<seq<Slot>>, d': seq<seq<Slot>>, cs: seq<nat>)
    requires Inside(d, cs) && |d'| == |d| && forall i :: 0 <= i < |cs| ==> d'[cs[i]] == d[cs[i]]
    ensures Entries(d', cs) == Entries(d, cs)
    decreases |cs|
  {
    if cs != [] {
      EntriesElsewhere(d, d', cs[..|cs| - 1]);
    }
  }

  lemma EntriesOne(d: seq<seq<Slot>>, c: nat)
    requires c < |d|
    ensures Entries(d, [c]) == d[c]
  {
    assert [c][..0] == [];
  }

  // A group: long-name slots and one live slot that is none.
  ghost predicate Group(g: seq<Slot>) {
    && g != [] && (forall i :: 0 <= i < |g| ==> !Free(g[i]))
    && (forall i :: 0 <= i < |g| - 1 ==> LongAttr(g[i])) && !LongAttr(g[|g| - 1])
  }

  // `now` is `was` with the group `g` at slot `at`: every live slot kept, in order, and
  // no group split.
  ghost predicate Inserted(was: seq<Slot>, now: seq<Slot>, g: seq<Slot>, at: nat) {
    && at + |g| <= |now| && now[at..at + |g|] == g
    && Live(now[..at]) + Live(now[at + |g|..]) == Live(was)
    && Closed(Live(now[..at]))
  }

  // The meaning of an insertion: a new group between two live groups.
  lemma InsertedLive(was: seq<Slot>, now: seq<Slot>, g: seq<Slot>, at: nat) returns (k: nat)
    requires Inserted(was, now, g, at) && Group(g)
    ensures k <= |Live(was)| && Live(now) == Live(was)[..k] + g + Live(was)[k..]
    ensures k == 0 || !LiveLong(Live(was)[k - 1])
  {
    hide Live;
    k := |Live(now[..at])|;
    AllLive(g);
    Cut(now, at);
    Cut(now[at..], |g|);
    assert now[at..][..|g|] == g && now[at..][|g|..] == now[at + |g|..];
  }

  // A group written into room made by CompactDir, inside a larger directory.
  lemma InsertedInto(pre: seq<Slot>, ss: seq<Slot>, post: seq<Slot>, rr: seq<Slot>, p: nat, g: seq<Slot>)
    requires WellFormedDir(pre + ss + post) && Group(g) && Room(ss, rr, p, |g|)
    requires ZeroTail(pre + ss + post) ==> forall i :: 0 <= i < |pre| ==> pre[i].first != 0
    ensures p + |g| <= |rr|
    ensures var now := pre + (rr[..p] + g + rr[p + |g|..]) + post;
      && Inserted(pre + ss + post, now, g, |pre| + p) && WellFormedDir(now)
      && (ZeroTail(pre + ss + post) ==> ZeroTail(now))
  {
    hide Live, RunsOk, ZeroTail, Closed, Group, Room, Inserted;
    RoomParts(ss, rr, p, |g|);
    var x, y, z := rr[..p], rr[p + |g|..], ss[..p + |g|];
    Rejoin(ss, p + |g|);
    LiveParts(pre, ss, post, x, y);
    Flatten(pre, x, g, y, post);
    SplicedRuns(pre, ss, post, x, g, y, z);
    LiveClosed(pre + x);
    InsertedAt(pre + ss + post, pre + x, g, y + post);
    if ZeroTail(pre + ss + post) { SplicedZeros(pre, ss, post, x, g, y, z); }
  }

  lemma InsertedAt(was: seq<Slot>, front: seq<Slot>, g: seq<Slot>, rest: seq<Slot>)
    requires Live(front) + Live(rest) == Live(was) && Closed(Live(front))
    ensures Inserted(was, front + g + rest, g, |front|)
  {
    hide Live;
    Around(front, g, rest);
  }

  lemma Around<T>(a: seq<T>, g: seq<T>, b: seq<T>)
    ensures var s := a + g + b;
      s[..|a|] == a && s[|a|..|a| + |g|] == g && s[|a| + |g|..] == b
  {
  }

  lemma RoomParts(ss: seq<Slot>, rr: seq<Slot>, p: nat, n: nat)
    requires Room(ss, rr, p, n)
    ensures p + n <= |ss| == |rr| && rr[p + n..] == ss[p + n..] && |rr[..p]| == p
    ensures Live(rr[..p]) + Live(rr[p + n..]) == Live(ss) && RunsOk(rr[..p]) && Closed(rr[..p])
    ensures ss != [] && !Free(ss[0]) ==> rr[..p] != [] && rr[..p][0] == ss[0]
    ensures ZeroTail(ss) ==> forall i :: 0 <= i < p ==> rr[..p][i].first != 0
  {
  }

  lemma Flatten<T>(pre: seq<T>, x: seq<T>, g: seq<T>, y: seq<T>, post: seq<T>)
    ensures pre + (x + g + y) + post == (pre + x) + g + (y + post)
  {
  }

  lemma LiveParts(pre: seq<Slot>, ss: seq<Slot>, post: seq<Slot>, x: seq<Slot>, y: seq<Slot>)
    requires Live(x) + Live(y) == Live(ss)
    ensures Live(pre + x) + Live(y + post) == Live(pre + ss + post)
  {
    hide Live;
    Concat(pre, x);
    Concat(y, post);
    Concat(pre, ss);
    Concat(pre + ss, post);
    Associate(Live(pre), Live(x), Live(y), Live(post));
  }

  lemma Associate<T>(a: seq<T>, b: seq<T>, c: seq<T>, d: seq<T>)
    ensures (a + b) + (c + d) == a + (b + c) + d
  {
  }

  // Around the gap, groups stay whole.
  lemma SplicedRuns(pre: seq<Slot>, ss: seq<Slot>, post: seq<Slot>, x: seq<Slot>, g: seq<Slot>, y: seq<Slot>,
                    z: seq<Slot>)
    requires WellFormedDir(pre + ss + post) && ss == z + y && RunsOk(x) && Closed(x) && Group(g)
    requires |z| == |x| + |g|
    requires ss != [] && !Free(ss[0]) ==> x != [] && x[0] == ss[0]
    ensures RunsOk(pre + x) && Closed(pre + x) && WellFormedDir(pre + (x + g + y) + post)
  {
    hide RunsOk;
    RunsConcat(pre + ss, post);
    RunsConcat(pre, ss);
    RunsConcat(z, y);
    RunsConcat(pre, x);
    GroupRuns(g);
    RunsConcat(pre + x, g);
    RunsConcat(pre + x + g, y);
    RunsConcat(pre + x + g + y, post);
    assert pre + (x + g + y) + post == pre + x + g + y + post;
  }

  lemma GroupRuns(g: seq<Slot>)
    requires Group(g)
    ensures RunsOk(g) && Closed(g)
  {
  }

  lemma ZeroTailSuffix(a: seq<Slot>, b: seq<Slot>)
    requires ZeroTail(a + b)
    ensures ZeroTail(b)
  {
    var c := a + b;
    forall i, j | 0 <= i < j < |b| && b[i].first == 0 ensures b[j].first == 0 {
      assert c[|a| + i] == b[i] && c[|a| + j] == b[j];
    }
  }

  lemma ZeroTailBehind(a: seq<Slot>, b: seq<Slot>)
    requires (forall i :: 0 <= i < |a| ==> a[i].first != 0) && ZeroTail(b)
    ensures ZeroTail(a + b)
  {
  }

  lemma ZeroTailPrefix(a: seq<Slot>, b: seq<Slot>)
    requires ZeroTail(a + b)
    ensures ZeroTail(a)
  {
    var c := a + b;
    forall i, j | 0 <= i < j < |a| && a[i].first == 0 ensures a[j].first == 0 {
      assert c[i] == a[i] && c[j] == a[j];
    }
  }

  lemma SplicedZeros(pre: seq<Slot>, ss: seq<Slot>, post: seq<Slot>, x: seq<Slot>, g: seq<Slot>, y: seq<Slot>,
                     z: seq<Slot>)
    requires ZeroTail(pre + ss + post) && ss == z + y && Group(g) && forall i :: 0 <= i < |pre| ==> pre[i].first != 0
    requires ZeroTail(ss) ==> forall i :: 0 <= i < |x| ==> x[i].first != 0
    ensures ZeroTail(pre + (x + g + y) + post)
  {
    hide ZeroTail;
    assert pre + ss + post == pre + z + (y + post) == pre + (ss + post);
    ZeroTailSuffix(pre + z, y + post);
    ZeroTailSuffix(pre, ss + post);
    ZeroTailPrefix(ss, post);
    NoZeros(pre, x, g);
    ZeroTailBehind(pre + x + g, y + post);
    assert pre + (x + g + y) + post == pre + x + g + (y + post);
  }

  lemma NoZeros(pre: seq<Slot>, x: seq<Slot>, g: seq<Slot>)
    requires (forall i :: 0 <= i < |pre| ==> pre[i].first != 0) && (forall i :: 0 <= i < |x| ==> x[i].first != 0)
    requires forall i :: 0 <= i < |g| ==> !Free(g[i])
    ensures forall i :: 0 <= i < |pre + x + g| ==> (pre + x + g)[i].first != 0
  {
  }

  // ---------------------------------------------------------------- deleting

  // wClusterHigh and wCluster.
  function ClusterBytes(s: Slot): seq<Byte> { s.rest[8..10] + s.rest[14..16] }

  // A live entry that is neither a long name nor a volume label.
  predicate IsEntry(s: Slot) { !Free(s) && !LongAttr(s) && s.attr % 16 != FILE_VOLID }

  // The entry ModifyDirectory looks for: same eleven bytes of name, same cluster.
  predicate IsTarget(s: Slot, o: Slot) {
    IsEntry(s) && s.first == o.first && s.name == o.name && ClusterBytes(s) == ClusterBytes(o)
  }

  // On the bytes: the slot is in use, no long name and no volume label, and its eleven
  // bytes of name and its cluster are those of the entry.
  predicate SameBytes(s: Slot, o: Slot) {
    && s.first != 0 && s.first != 0xE5 && s.attr != 15 && s.attr % 16 != 8
    && s.first == o.first && s.name == o.name && s.rest[8..10] == o.rest[8..10] && s.rest[14..16] == o.rest[14..16]
  }

  lemma TargetIs(s: Slot, o: Slot)
    ensures IsTarget(s, o) <==> SameBytes(s, o)
  {
    var a, b, c, d := s.rest[8..10], s.rest[14..16], o.rest[8..10], o.rest[14..16];
    assert (a + b)[..2] == a && (a + b)[2..] == b && (c + d)[..2] == c && (c + d)[2..] == d;
  }

  ghost predicate FirstTarget(ss: seq<Slot>, o: Slot, e: nat) {
    e < |ss| && IsTarget(ss[e], o) && forall k :: 0 <= k < e ==> !IsTarget(ss[k], o)
  }

  // How many slots at the end belong to an open long name.
  ghost function Trailing(ss: seq<Slot>): (r: nat)
    ensures r <= |ss|
  {
    if ss == [] || !LiveLong(ss[|ss| - 1]) then 0 else 1 + Trailing(ss[..|ss| - 1])
  }

  lemma {:induction false} TrailingRun(ss: seq<Slot>)
    ensures forall k :: |ss| - Trailing(ss) <= k < |ss| ==> LiveLong(ss[k])
    ensures Trailing(ss) < |ss| ==> !LiveLong(ss[|ss| - Trailing(ss) - 1])
  {
    if ss != [] && LiveLong(ss[|ss| - 1]) {
      TrailingRun(ss[..|ss| - 1]);
    }
  }

  lemma TrailingNext(ss: seq<Slot>, x: Slot)
    ensures Trailing(ss + [x]) == if LiveLong(x) then Trailing(ss) + 1 else 0
  {
    assert (ss + [x])[..|ss|] == ss;
  }

  // The slots `s` to `e` marked deleted, all others as they were.
  function RangeDeleted(ss: seq<Slot>, s: nat, e: nat): (r: seq<Slot>)
    ensures |r| == |ss|
  {
    seq(|ss|, k requires 0 <= k < |ss| => if s <= k <= e then Deleted(ss[k]) else ss[k])
  }

  // An entry is deleted with no more than the long name right before it: any other slot
  // that is not of a long name is as it was.
  lemma OthersStay(ss: seq<Slot>, s: nat, e: nat)
    requires s <= e < |ss| && e - Trailing(ss[..e]) <= s
    ensures var now := RangeDeleted(ss, s, e);
      && now[e].first == 0xE5 && (forall k :: 0 <= k < |ss| ==> now[k].attr == ss[k].attr)
      && (forall k :: 0 <= k < |ss| && k != e && ss[k].attr != 15 ==> now[k] == ss[k])
  {
    hide Trailing;
    TrailingRun(ss[..e]);
    forall k | s <= k < e ensures ss[k].attr == 15 {
      assert LiveLong(ss[..e][k]);
    }
  }

  // Deleting an entry with the long name right before it removes exactly that group.
  lemma GroupRemoved(ss: seq<Slot>, s: nat, e: nat)
    requires WellFormedDir(ss) && s <= e < |ss| && IsEntry(ss[e]) && s == e - Trailing(ss[..e])
    ensures var now := RangeDeleted(ss, s, e);
      && Group(ss[s..e + 1]) && Closed(ss[..s])
      && Live(ss) == Live(ss[..s]) + ss[s..e + 1] + Live(ss[e + 1..])
      && Live(now) == Live(ss[..s]) + Live(ss[e + 1..])
      && WellFormedDir(now)
  {
    hide Live, RunsOk, Trailing, Group, Closed;
    GroupBefore(ss, s, e);
    Deletion(ss, s, e);
    RemoveMiddle(ss[..s], ss[s..e + 1], ss[e + 1..], RangeDeleted(ss, s, e)[s..e + 1]);
  }

  lemma Deletion(ss: seq<Slot>, s: nat, e: nat)
    requires s <= e < |ss|
    ensures ss == ss[..s] + ss[s..e + 1] + ss[e + 1..]
    ensures var gone := RangeDeleted(ss, s, e)[s..e + 1];
      RangeDeleted(ss, s, e) == ss[..s] + gone + ss[e + 1..] && forall k :: 0 <= k < |gone| ==> Free(gone[k])
  {
  }

  lemma RemoveMiddle(a: seq<Slot>, g: seq<Slot>, b: seq<Slot>, gone: seq<Slot>)
    requires WellFormedDir(a + g + b) && Group(g) && Closed(a) && gone != []
    requires forall k :: 0 <= k < |gone| ==> Free(gone[k])
    ensures Live(a + g + b) == Live(a) + g + Live(b) && Live(a + gone + b) == Live(a) + Live(b)
    ensures WellFormedDir(a + gone + b)
  {
    hide Live, RunsOk, Group;
    ThreeLive(a, g, b);
    ThreeLive(a, gone, b);
    AllFree(gone);
    assert Live(a) + [] + Live(b) == Live(a) + Live(b);
    RemoveRuns(a, g, b, gone);
    GroupLive(g);
  }

  lemma GroupLive(g: seq<Slot>)
    requires Group(g)
    ensures Live(g) == g
  {
    AllLive(g);
  }

  lemma ThreeLive(a: seq<Slot>, g: seq<Slot>, b: seq<Slot>)
    ensures Live(a + g + b) == Live(a) + Live(g) + Live(b)
  {
    hide Live;
    Concat(a, g);
    Concat(a + g, b);
  }

  lemma RemoveRuns(a: seq<Slot>, g: seq<Slot>, b: seq<Slot>, gone: seq<Slot>)
    requires WellFormedDir(a + g + b) && Group(g) && Closed(a) && gone != []
    requires forall k :: 0 <= k < |gone| ==> Free(gone[k])
    ensures WellFormedDir(a + gone + b)
  {
    hide RunsOk;
    RunsConcat(a + g, b);
    RunsConcat(a, g);
    FreeRuns(gone);
    RunsConcat(a, gone);
    RunsConcat(a + gone, b);
    LastOf(a + g, b);
    LastOf(a + gone, b);
    LastOf(a, gone);
    LastOf(a, g);
  }

  lemma LastOf(a: seq<Slot>, b: seq<Slot>)
    ensures b != [] ==> (Closed(a + b) <==> Closed(b))
    ensures b == [] ==> a + b == a
  {
  }

  lemma GroupBefore(ss: seq<Slot>, s: nat, e: nat)
    requires s <= e < |ss| && IsEntry(ss[e]) && s == e - Trailing(ss[..e])
    ensures Group(ss[s..e + 1]) && Closed(ss[..s])
  {
    TrailingRun(ss[..e]);
    var g := ss[s..e + 1];
    forall k | 0 <= k < |g| - 1 ensures LiveLong(g[k]) {
      assert g[k] == ss[..e][s + k];
    }
  }

  lemma FreeRuns(gone: seq<Slot>)
    requires forall k :: 0 <= k < |gone| ==> Free(gone[k])
    ensures RunsOk(gone) && Closed(gone)
  {
  }

  // Deleting slots up to a live one puts nothing live behind an end mark.
  lemma DeletedZeros(ss: seq<Slot>, s: nat, e: nat)
    requires s <= e < |ss| && !Free(ss[e])
    ensures ZeroTail(ss) ==> ZeroTail(RangeDeleted(ss, s, e))
  {
  }

  // ---------------------------------------------------------------- blocks of a directory

  ghost predicate NoZero(ss: seq<Slot>) { forall i :: 0 <= i < |ss| ==> ss[i].first != 0 }

  lemma NoZeroPrefix(a: seq<Slot>, b: seq<Slot>)
    requires NoZero(a + b)
    ensures NoZero(a)
  {
    forall i | 0 <= i < |a| ensures a[i].first != 0 {
      assert (a + b)[i] == a[i];
    }
  }

  lemma OneBlock(d: seq<seq<Slot>>, cs: seq<nat>, j: nat, v: seq<Slot>)
    requires Inside(d, cs) && Distinct(cs) && j < |cs|
    ensures Inside(d, cs[..j]) && Inside(d, cs[j + 1..]) && Inside(d[cs[j] := v], cs)
    ensures Entries(d, cs) == Entries(d, cs[..j]) + d[cs[j]] + Entries(d, cs[j + 1..])
    ensures Entries(d[cs[j] := v], cs) == Entries(d, cs[..j]) + v + Entries(d, cs[j + 1..])
  {
    hide Entries;
    var a, b, c, d' := cs[..j], cs[j + 1..], cs[j], d[cs[j] := v];
    Parted(d, a, c, b);
    Parted(d', a, c, b);
    assert cs == a + [c] + b;
    EntriesElsewhere(d, d', a);
    EntriesElsewhere(d, d', b);
  }

  lemma Parted(d: seq<seq<Slot>>, a: seq<nat>, c: nat, b: seq<nat>)
    requires Inside(d, a) && Inside(d, b) && c < |d|
    ensures Inside(d, a + [c] + b) && Entries(d, a + [c] + b) == Entries(d, a) + d[c] + Entries(d, b)
  {
    hide Entries;
    EntriesConcat(d, a, [c]);
    EntriesConcat(d, a + [c], b);
    EntriesOne(d, c);
  }

  lemma TwoBlocks(d: seq<seq<Slot>>, cs: seq<nat>, j: nat, u: seq<Slot>, v: seq<Slot>)
    requires Inside(d, cs) && Distinct(cs) && 0 < j < |cs|
    ensures Inside(d, cs[..j - 1]) && Inside(d, cs[j + 1..]) && Inside(d, cs[..j])
    ensures Inside(d[cs[j - 1] := u][cs[j] := v], cs)
    ensures Entries(d, cs) == Entries(d, cs[..j - 1]) + (d[cs[j - 1]] + d[cs[j]]) + Entries(d, cs[j + 1..])
    ensures Entries(d[cs[j - 1] := u][cs[j] := v], cs) == Entries(d, cs[..j - 1]) + (u + v) + Entries(d, cs[j + 1..])
    ensures Entries(d, cs[..j]) == Entries(d, cs[..j - 1]) + d[cs[j - 1]]
  {
    hide Entries;
    var d1 := d[cs[j - 1] := u];
    OneBlock(d, cs, j, v);
    OneBlock(d1, cs, j, v);
    var a := cs[..j];
    EntriesConcat(d, cs[..j - 1], [cs[j - 1]]);
    EntriesConcat(d1, cs[..j - 1], [cs[j - 1]]);
    assert a == cs[..j - 1] + [cs[j - 1]];
    EntriesOne(d, cs[j - 1]);
    EntriesOne(d1, cs[j - 1]);
    EntriesElsewhere(d, d1, cs[..j - 1]);
    EntriesElsewhere(d, d1, cs[j + 1..]);
    Append(Entries(d, cs[..j - 1]), d[cs[j - 1]], d[cs[j]]);
    Append(Entries(d, cs[..j - 1]), u, v);
  }

  // The outcome of an insertion: placed between two groups, and the directory still well formed.
  ghost predicate Placed(was: seq<Slot>, now: seq<Slot>, g: seq<Slot>, at: nat) {
    Inserted(was, now, g, at) && WellFormedDir(now) && (ZeroTail(was) ==> ZeroTail(now))
  }

  // A window in a directory can be compacted.
  lemma WindowRuns(pre: seq<Slot>, ss: seq<Slot>, post: seq<Slot>)
    requires WellFormedDir(pre + ss + post)
    ensures RunsOk(ss)
  {
    hide RunsOk;
    RunsConcat(pre + ss, post);
    RunsConcat(pre, ss);
  }

  lemma PlacedInto(pre: seq<Slot>, ss: seq<Slot>, post: seq<Slot>, rr: seq<Slot>, p: nat, g: seq<Slot>, new': seq<Slot>)
    requires WellFormedDir(pre + ss + post) && Group(g) && Room(ss, rr, p, |g|) && NoZero(pre)
    requires p + |g| <= |rr| && new' == rr[..p] + g + rr[p + |g|..]
    ensures Placed(pre + ss + post, pre + new' + post, g, |pre| + p)
  {
    hide RunsOk, Inserted, ZeroTail, Room, Group;
    InsertedInto(pre, ss, post, rr, p, g);
  }

  // Passing a block by: its end marks become deleted slots.
  lemma MarkedInto(pre: seq<Slot>, ss: seq<Slot>, post: seq<Slot>)
    requires WellFormedDir(pre + ss + post) && NoZero(pre)
    ensures var was, now := pre + ss + post, pre + Marked(ss) + post;
      && Live(now) == Live(was) && WellFormedDir(now) && NoZero(pre + Marked(ss)) && (ZeroTail(was) ==> ZeroTail(now))
  {
    hide Live, RunsOk;
    ThreeLive(pre, ss, post);
    ThreeLive(pre, Marked(ss), post);
    MarkedSame(ss);
    MarkedRuns(pre, ss, post);
    MarkedZeros(ss);
    if ZeroTail(pre + ss + post) {
      ZeroTailSuffix(pre + ss, post);
      ZeroTailBehind(pre + Marked(ss), post);
    }
  }

  lemma MarkedRuns(pre: seq<Slot>, ss: seq<Slot>, post: seq<Slot>)
    requires WellFormedDir(pre + ss + post)
    ensures WellFormedDir(pre + Marked(ss) + post)
  {
    var was, now := pre + ss + post, pre + Marked(ss) + post;
    assert |was| == |now|;
    forall i | 0 <= i < |was| ensures Free(now[i]) == Free(was[i]) && LongAttr(now[i]) == LongAttr(was[i]) {
    }
    forall i: nat | i < |now| ensures RunAt(now, i) {
      assert RunAt(was, i);
    }
  }

  lemma MarkedZeros(ss: seq<Slot>)
    ensures NoZero(Marked(ss))
  {
  }

  // `now` has the same live slots as `was` and is as well formed.
  ghost predicate SameDir(was: seq<Slot>, now: seq<Slot>) {
    Live(now) == Live(was) && WellFormedDir(now) && (ZeroTail(was) ==> ZeroTail(now))
  }

  lemma SameTwice(a: seq<Slot>, b: seq<Slot>, c: seq<Slot>)
    requires SameDir(a, b) && SameDir(b, c)
    ensures SameDir(a, c)
  {
  }

  lemma SameThenPlaced(a: seq<Slot>, b: seq<Slot>, c: seq<Slot>, g: seq<Slot>, at: nat)
    requires SameDir(a, b) && Placed(b, c, g, at)
    ensures Placed(a, c, g, at)
  {
  }

  lemma {:induction false} NoneFree(ss: seq<Slot>)
    requires FreeCount(ss) == 0
    ensures NoZero(ss)
  {
    if ss != [] {
      NoneFree(ss[..|ss| - 1]);
    }
  }

  function Blank(n: nat): (r: seq<Slot>)
    ensures |r| == n && forall i :: 0 <= i < n ==> r[i].first == 0
  {
    seq(n, _ => Filled(0))
  }

  // A new cluster of end marks changes nothing in a directory.
  lemma BlankAdded(was: seq<Slot>, n: nat)
    requires WellFormedDir(was)
    ensures SameDir(was, was + Blank(n))
  {
    hide Live, RunsOk;
    Concat(was, Blank(n));
    AllFree(Blank(n));
    RunsConcat(was, Blank(n));
    FreeRuns(Blank(n));
    LastOf(was, Blank(n));
    assert Live(was) + [] == Live(was);
  }

  // The free slots of the window that ends with the `k`th block.
  ghost function WindowFree(d: seq<seq<Slot>>, cs: seq<nat>, k: nat): nat
    requires Inside(d, cs) && k < |cs|
  {
    (if k > 0 then FreeCount(d[cs[k - 1]]) else 0) + FreeCount(d[cs[k]])
  }

  // The free slots that the window of block `k` would offer, `n` slots to a block: in the
  // directory as it is, and behind its end in empty blocks that are added.
  ghost function WindowRoom(d: seq<seq<Slot>>, cs: seq<nat>, n: nat, k: nat): nat
    requires Inside(d, cs) && cs != []
  {
    if k < |cs| then WindowFree(d, cs, k) else if k == |cs| then FreeCount(d[cs[k - 1]]) + n else 2 * n
  }

  ghost predicate Sized(d: seq<seq<Slot>>, cs: seq<nat>, n: nat) {
    forall i :: 0 <= i < |cs| && cs[i] < |d| ==> |d[cs[i]]| == n
  }

  // The blocks behind the first `from` are empty.
  ghost predicate Spare(d: seq<seq<Slot>>, cs: seq<nat>, from: nat, n: nat) {
    forall i :: from <= i < |cs| && cs[i] < |d| ==> FreeCount(d[cs[i]]) == n
  }

  lemma WindowIs(d0: seq<seq<Slot>>, d: seq<seq<Slot>>, cs: seq<nat>, more: seq<nat>, n: nat, k: nat)
    requires SameRoom(d0, d, cs) && Inside(d0, cs) && Inside(d, more) && cs != [] && cs <= more && k < |more|
    requires Spare(d, more, |cs|, n)
    ensures WindowFree(d, more, k) == WindowRoom(d0, cs, n, k)
  {
    hide FreeCount;
    if k < |cs| {
      WindowSame(d0, d, cs, more, k);
    }
  }

  lemma SpareStays(d: seq<seq<Slot>>, d': seq<seq<Slot>>, cs: seq<nat>, from: nat, n: nat)
    requires Spare(d, cs, from, n) && SameRoom(d, d', cs)
    ensures Spare(d', cs, from, n)
  {
  }

  lemma SameRoomAdded(d: seq<seq<Slot>>, d': seq<seq<Slot>>, cs: seq<nat>, r: nat, v: seq<Slot>)
    requires SameRoom(d, d', cs) && r < |d'| && r !in cs
    ensures SameRoom(d, d'[r := v], cs)
  {
  }

  lemma SpareAdded(d: seq<seq<Slot>>, cs: seq<nat>, from: nat, n: nat, r: nat)
    requires Spare(d, cs, from, n) && r < |d| && r !in cs && n > 0
    ensures Spare(d[r := Blank(n)], cs + [r], from, n)
  {
    AllFree(Blank(n));
  }

  // Block for block as many free slots.
  ghost predicate SameRoom(d: seq<seq<Slot>>, d': seq<seq<Slot>>, cs: seq<nat>) {
    |d'| == |d| && forall k :: 0 <= k < |cs| && cs[k] < |d| ==> FreeCount(d'[cs[k]]) == FreeCount(d[cs[k]])
  }

  lemma SameRoomTwice(d: seq<seq<Slot>>, d': seq<seq<Slot>>, d'': seq<seq<Slot>>, cs: seq<nat>)
    requires SameRoom(d, d', cs) && SameRoom(d', d'', cs)
    ensures SameRoom(d, d'', cs)
  {
  }

  lemma SameRoomPrefix(d: seq<seq<Slot>>, d': seq<seq<Slot>>, cs: seq<nat>, more: seq<nat>)
    requires SameRoom(d, d', more) && cs <= more
    ensures SameRoom(d, d', cs)
  {
  }

  lemma WindowSame(d: seq<seq<Slot>>, d': seq<seq<Slot>>, cs: seq<nat>, more: seq<nat>, k: nat)
    requires SameRoom(d, d', cs) && Inside(d, cs) && Inside(d', more) && cs <= more && k < |cs|
    ensures WindowFree(d', more, k) == WindowFree(d, cs, k)
  {
  }

  // Clusters that are not in `cs` hold what they held.
  ghost predicate Elsewhere(d: seq<seq<Slot>>, d': seq<seq<Slot>>, cs: seq<nat>) {
    |d'| == |d| && forall c :: 0 <= c < |d| && c !in cs ==> d'[c] == d[c]
  }

  lemma ElsewhereTwice(d: seq<seq<Slot>>, d': seq<seq<Slot>>, d'': seq<seq<Slot>>, cs: seq<nat>, more: seq<nat>)
    requires Elsewhere(d, d', cs) && Elsewhere(d', d'', more) && cs <= more
    ensures Elsewhere(d, d'', more)
  {
    assert forall c :: c in cs ==> c in more;
  }
}

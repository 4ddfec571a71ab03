// ModifyDirectory: one pass over a directory's clusters with a buffer of two blocks,
// the previous one and the current one. One block per cluster.
module Directory {
  import opened Common
  import opened FatCodec
  import opened FatChains
  import opened FatTable
  import opened Volume
  import opened DirSlots
  import opened DirBuffer
  import opened DirEdits
  import FatRuns

  datatype LongStart = Unset | Set(at: int)

  class Directory {
    const vol: Volume
    const data: array<seq<Slot>>    // data[c]: the block of cluster c
    const n: nat                    // slots in a block
    const start: nat                // ulDirCluster
    ghost var chain: seq<nat>

    ghost predicate Store()
      reads data
    {
      n > 0 && data.Length == vol.Top() && forall c :: 0 <= c < data.Length ==> |data[c]| == n
    }

    ghost predicate Valid()
      reads this, data, vol, vol.fat, vol.fat.disk, vol.fat.window
    {
      && vol.Valid() && vol.free == |FreeSet(vol.fat.entries)| && Store()
      && IsChain(vol.fat.kind, vol.fat.entries, chain) && start == chain[0]
    }

    // The directory: the slots of its clusters in chain order.
    ghost function Slots(): seq<Slot>
      requires Inside(data[..], chain)
      reads `chain, data
    {
      Entries(data[..], chain)
    }

    lemma ChainInside()
      requires Valid()
      ensures chain != [] && start == chain[0] && Inside(data[..], chain) && data.Length == vol.Top() && n > 0
      ensures forall i :: 0 <= i < |chain| ==>
        2 <= chain[i] < vol.Top() && chain[i] != vol.End() && vol.fat.entries[chain[i]] != Bad(vol.fat.kind) &&
            |data[chain[i]]| == n
    {
      forall i | 0 <= i < |chain| ensures vol.fat.entries[chain[i]] != Bad(vol.fat.kind) {
        assert i + 1 < |chain| ==> vol.fat.entries[chain[i]] == chain[i + 1];
      }
    }

    constructor (vol: Volume, data: array<seq<Slot>>, n: nat, cs: seq<nat>)
      requires vol.Valid() && vol.free == |FreeSet(vol.fat.entries)|
      requires n > 0 && data.Length == vol.Top() && forall c :: 0 <= c < data.Length ==> |data[c]| == n
      requires IsChain(vol.fat.kind, vol.fat.entries, cs)
      ensures Valid() && this.vol == vol && this.data == data && this.n == n && chain == cs
    {
      this.vol, this.data, this.n, start, chain := vol, data, n, cs[0], cs;
    }

    // GetNextCluster on the chain.
    method Next(c: nat, ghost j: nat) returns (r: nat)
      requires Valid() && j < |chain| && c == chain[j]
      modifies vol.fat`current, vol.fat.window
      ensures Valid()
      ensures r == if j + 1 < |chain| then chain[j + 1] else vol.End()
    {
      hide FatTable.Backed, FatTable.Geometry, FatTable.BlockOf, FatTable.Blocks;
      r := vol.GetNextCluster(c);
      assert j + 1 < |chain| ==> vol.fat.entries[chain[j]] == chain[j + 1];
      ChainNonZero(vol.fat.kind, vol.fat.entries, chain, j);
      if r == 0 {
        assert false;
      }
    }

    // ReadBlock
    method ReadBlock(c: nat) returns (rc: nat, v: seq<Slot>)
      requires Valid()
      modifies vol.fat`current, vol.fat.window
      ensures Valid()
      ensures rc == if 2 <= c < vol.Top() && vol.fat.entries[c] != Bad(vol.fat.kind) then NO_ERROR
        else ERROR_SECTOR_NOT_FOUND
      ensures rc == NO_ERROR ==> v == data[c]
    {
      hide FatTable.Backed, FatTable.Geometry, FatTable.BlockOf, FatTable.Blocks;
      if c < 2 || c >= vol.Top() {
        return ERROR_SECTOR_NOT_FOUND, [];
      }
      var r := vol.GetNextCluster(c);
      if r == Bad(vol.fat.kind) {
        return ERROR_SECTOR_NOT_FOUND, [];
      }
      rc, v := NO_ERROR, data[c];
    }

    // WriteBlock
    method WriteBlock(c: nat, v: seq<Slot>) returns (rc: nat)
      requires Valid() && |v| == n
      modifies data, vol.fat`current, vol.fat.window
      ensures Valid()
      ensures rc == if 2 <= c < vol.Top() && vol.fat.entries[c] != Bad(vol.fat.kind) then NO_ERROR
        else ERROR_SECTOR_NOT_FOUND
      ensures rc != NO_ERROR ==> data[..] == old(data[..])
      ensures rc == NO_ERROR ==> c < data.Length && data[..] == old(data[..])[c := v]
    {
      hide FatTable.Backed, FatTable.Geometry, FatTable.BlockOf, FatTable.Blocks;
      if c < 2 || c >= vol.Top() {
        return ERROR_SECTOR_NOT_FOUND;
      }
      var r := vol.GetNextCluster(c);
      if r == Bad(vol.fat.kind) {
        return ERROR_SECTOR_NOT_FOUND;
      }
      data[c] := v;
      rc := NO_ERROR;
    }

    // fSetLongName and the copy of the short entry behind it.
    static method PutGroup(buf: array<Slot>, p: nat, group: seq<Slot>)
      requires p + |group| <= buf.Length
      modifies buf
      ensures buf[..] == old(buf[..])[..p] + group + old(buf[..])[p + |group|..]
    {
      forall i | 0 <= i < |group| {
        buf[p + i] := group[i];
      }
    }

    static method PutWithin(buf: array<Slot>, lo: nat, hi: nat, p: nat, group: seq<Slot>)
      requires lo <= p && p + |group| <= hi <= buf.Length
      modifies buf
      ensures buf[..lo] == old(buf[..lo]) && buf[hi..] == old(buf[hi..])
      ensures buf[lo..hi] == old(buf[lo..hi])[..p - lo] + group + old(buf[lo..hi])[p - lo + |group|..]
    {
      ghost var b: seq<Slot> := buf[..];
      PutGroup(buf, p, group);
      PutInside(b, buf[..], lo, hi, p, group);
    }

    // Compact a window of the directory and put the group into it.
    static method Fit(buf: array<Slot>, lo: nat, hi: nat, group: seq<Slot>, ghost pre: seq<Slot>, ghost post: seq<Slot>)
      returns (p: nat)
      requires lo <= hi <= buf.Length && Group(group) && NoZero(pre)
      requires WellFormedDir(pre + buf[lo..hi] + post) && |group| <= FreeCount(buf[lo..hi])
      modifies buf
      ensures buf[..lo] == old(buf[..lo]) && buf[hi..] == old(buf[hi..]) && lo <= p
      ensures Placed(pre + old(buf[lo..hi]) + post, pre + buf[lo..hi] + post, group, |pre| + p - lo)
      ensures p + |group| <= hi && Fitted(old(buf[lo..hi]), buf[lo..hi], group, p - lo)
    {
      hide WellFormedDir, Placed, Room, FreeCount, NoZero, RunsOk, Compact, Fitted, Live, Closed, ZeroTail, Group;
      ghost var ss: seq<Slot> := buf[lo..hi];
      WindowRuns(pre, ss, post);
      GroupSize(group);
      ghost var i, f, t;
      p, i, f, t := CompactDir(buf, lo, hi, |group|);
      ghost var rr: seq<Slot> := buf[lo..hi];
      RoomParts(ss, rr, p - lo, |group|);
      PutWithin(buf, lo, hi, p, group);
      ghost var now: seq<Slot> := buf[lo..hi];
      FittedBy(ss, rr, now, group, p - lo, i, f, t);
      PlacedInto(pre, ss, post, rr, p - lo, group, now);
    }

    static lemma GroupSize(g: seq<Slot>)
      requires Group(g)
      ensures |g| > 0
    {
    }

    static lemma SubSlices(b: seq<Slot>, lo: nat, hi: nat, p: nat, n: nat)
      requires lo <= p && p + n <= hi <= |b|
      ensures b[lo..hi][..p - lo] == b[lo..p] && b[lo..hi][p - lo + n..] == b[p + n..hi]
    {
    }

    static lemma PutInside(b: seq<Slot>, r: seq<Slot>, lo: nat, hi: nat, p: nat, g: seq<Slot>)
      requires lo <= p && p + |g| <= hi <= |b| && r == b[..p] + g + b[p + |g|..]
      ensures |r| == |b| && r[..lo] == b[..lo] && r[hi..] == b[hi..]
      ensures r[lo..hi] == b[lo..hi][..p - lo] + g + b[lo..hi][p - lo + |g|..]
    {
      var a, m, k, z := b[..lo], b[lo..p], b[p + |g|..hi], b[hi..];
      assert b[..p] == a + m && b[p + |g|..] == k + z;
      SubSlices(b, lo, hi, p, |g|);
      Flatten(a, m, g, k, z);
      Around(a, m + g + k, z);
    }

    // The group is in the window of block `j`, the block and the one before it: compacted as
    // one, with the group in the room made.
    static ghost predicate InWindow(d: seq<seq<Slot>>, d': seq<seq<Slot>>, cs: seq<nat>, j: nat, g: seq<Slot>, at: nat)
      requires Inside(d, cs) && Inside(d', cs) && j < |cs|
    {
      if j == 0 then Fitted(d[cs[0]], d'[cs[0]], g, at)
      else (
        && Inside(d, cs[..j - 1]) && |Entries(d, cs[..j - 1])| <= at
        && Fitted(d[cs[j - 1]] + d[cs[j]], d'[cs[j - 1]] + d'[cs[j]], g, at - |Entries(d, cs[..j - 1])|))
    }

    // MODIFY_DIR_INSERT where the previous and the current block together have room.
    method InsertPair(buf: array<Slot>, prev: nat, cluster: nat, ghost j: nat, group: seq<Slot>) returns (ghost at: nat)
      requires Valid() && Inside(data[..], chain) && WellFormedDir(Slots()) && Group(group)
      requires 0 < j < |chain| && prev == chain[j - 1] && cluster == chain[j]
      requires buf.Length == 2 * n && data[prev] == buf[..n] && data[cluster] == buf[n..]
      requires |group| <= FreeCount(buf[..])
      requires NoZero(Entries(data[..], chain[..j]))
      modifies buf, data, vol.fat`current, vol.fat.window
      ensures Valid() && Inside(data[..], chain) && Placed(old(Slots()), Slots(), group, at)
      ensures data[..] == old(data[..])[prev := data[prev]][cluster := data[cluster]]
      ensures InWindow(old(data[..]), data[..], chain, j, group, at)
      ensures Elsewhere(old(data[..]), data[..], chain)
    {
      hide Valid, Entries, WellFormedDir, Placed, FreeCount, NoZero, Group, RunsOk, Fitted;
      ChainInside();
      Halves(buf[..], n);
      ghost var pre, post := PairParts(data[..], j);
      assert buf[0..2 * n] == buf[..];
      var p := Fit(buf, 0, 2 * n, group, pre, post);
      assert buf[0..2 * n] == buf[..];
      at := |pre| + p;
      WritePair(buf[..n], buf[n..], prev, cluster, j, pre, post);
      Halves(buf[..], n);
    }

    // Writing both halves of the buffer back.
    method WritePair(u: seq<Slot>, v: seq<Slot>, prev: nat, cluster: nat, ghost j: nat, ghost pre: seq<Slot>,
                     ghost post: seq<Slot>)
      requires Valid() && Inside(data[..], chain) && |u| == |v| == n
      requires 0 < j < |chain| && prev == chain[j - 1] && cluster == chain[j]
      requires pre == Entries(data[..], chain[..j - 1]) && post == Entries(data[..], chain[j + 1..])
      modifies data, vol.fat`current, vol.fat.window
      ensures Valid() && Inside(data[..], chain) && Slots() == pre + (u + v) + post
      ensures data[..] == old(data[..])[prev := u][cluster := v] && prev != cluster
      ensures Elsewhere(old(data[..]), data[..], chain)
    {
      hide Entries;
      ChainInside();
      DistinctChain();
      TwoBlocks(data[..], chain, j, u, v);
      hide Valid;
      var _ := WriteBlock(prev, u);
      var _ := WriteBlock(cluster, v);
    }

    lemma DistinctChain()
      requires Valid()
      ensures Distinct(chain)
    {
    }

    lemma PairParts(d: seq<seq<Slot>>, j: nat) returns (pre: seq<Slot>, post: seq<Slot>)
      requires Valid() && d == data[..] && 0 < j < |chain| && Inside(d, chain) && WellFormedDir(Entries(d, chain))
      requires NoZero(Entries(d, chain[..j]))
      ensures Inside(d, chain[..j - 1]) && pre == Entries(d, chain[..j - 1]) && NoZero(pre)
      ensures Inside(d, chain[j + 1..]) && post == Entries(d, chain[j + 1..])
      ensures Entries(d, chain) == pre + (d[chain[j - 1]] + d[chain[j]]) + post
    {
      hide RunsOk, Entries;
      TwoBlocks(d, chain, j, [], []);
      pre, post := Entries(d, chain[..j - 1]), Entries(d, chain[j + 1..]);
      NoZeroPrefix(pre, d[chain[j - 1]]);
    }

    static lemma Halves(ss: seq<Slot>, n: nat)
      requires |ss| == 2 * n
      ensures ss[..n] + ss[n..] == ss && |ss[..n]| == |ss[n..]| == n
    {
    }

    lemma OneParts(d: seq<seq<Slot>>, j: nat, v: seq<Slot>) returns (pre: seq<Slot>, post: seq<Slot>)
      requires Valid() && d == data[..] && j < |chain| && Inside(d, chain)
      ensures Inside(d, chain[..j]) && pre == Entries(d, chain[..j])
      ensures Inside(d, chain[j + 1..]) && post == Entries(d, chain[j + 1..])
      ensures Entries(d, chain) == pre + d[chain[j]] + post
      ensures Inside(d[chain[j] := v], chain) && Entries(d[chain[j] := v], chain) == pre + v + post
      ensures Inside(d[chain[j] := v], chain[..j + 1]) && Entries(d[chain[j] := v], chain[..j + 1]) == pre + v
      ensures Entries(d, chain[..j + 1]) == pre + d[chain[j]]
    {
      hide Entries;
      DistinctChain();
      OneBlock(d, chain, j, v);
      pre, post := Entries(d, chain[..j]), Entries(d, chain[j + 1..]);
      UpTo(d, chain, j);
      UpTo(d[chain[j] := v], chain, j);
      EntriesElsewhere(d, d[chain[j] := v], chain[..j]);
    }

    static lemma UpTo(d: seq<seq<Slot>>, cs: seq<nat>, j: nat)
      requires Inside(d, cs) && j < |cs|
      ensures Entries(d, cs[..j + 1]) == Entries(d, cs[..j]) + d[cs[j]]
    {
      assert cs[..j + 1][..j] == cs[..j];
    }

    // MODIFY_DIR_INSERT where the current block alone has room.
    method InsertSingle(buf: array<Slot>, cluster: nat, ghost j: nat, group: seq<Slot>) returns (ghost at: nat)
      requires Valid() && Inside(data[..], chain) && WellFormedDir(Slots()) && Group(group)
      requires j < |chain| && cluster == chain[j]
      requires buf.Length == 2 * n && data[cluster] == buf[n..] && |group| <= FreeCount(buf[n..])
      requires NoZero(Entries(data[..], chain[..j]))
      modifies buf, data, vol.fat`current, vol.fat.window
      ensures Valid() && Inside(data[..], chain) && Placed(old(Slots()), Slots(), group, at)
      ensures data[..] == old(data[..])[cluster := data[cluster]]
      ensures j == 0 ==> InWindow(old(data[..]), data[..], chain, j, group, at)
      ensures Elsewhere(old(data[..]), data[..], chain)
    {
      hide Valid, Entries, WellFormedDir, Placed, FreeCount, NoZero, Group, RunsOk, Fitted;
      ChainInside();
      ghost var pre, post := OneParts(data[..], j, []);
      assert buf[n..2 * n] == buf[n..];
      var p := Fit(buf, n, 2 * n, group, pre, post);
      assert buf[n..2 * n] == buf[n..];
      at := |pre| + p - n;
      EmptyEntries();
      ghost var _, _ := OneParts(data[..], j, buf[n..]);
      var _ := WriteBlock(cluster, buf[n..]);
    }

    // A block without enough room is passed by; its end marks must not stay.
    method PassBlock(buf: array<Slot>, cluster: nat, ghost j: nat, free: nat)
      requires Valid() && Inside(data[..], chain) && WellFormedDir(Slots())
      requires j < |chain| && cluster == chain[j]
      requires buf.Length == 2 * n && data[cluster] == buf[n..] && free == FreeCount(buf[n..])
      requires NoZero(Entries(data[..], chain[..j]))
      modifies buf, data, vol.fat`current, vol.fat.window
      ensures Valid() && Inside(data[..], chain) && SameDir(old(Slots()), Slots())
      ensures NoZero(Entries(data[..], chain[..j + 1])) && data[cluster] == buf[n..]
      ensures data[..] == old(data[..])[cluster := Marked(old(data[cluster]))]
      ensures SameRoom(old(data[..]), data[..], chain)
      ensures Elsewhere(old(data[..]), data[..], chain)
    {
      hide Valid, Entries, WellFormedDir, FreeCount, NoZero, RunsOk, SameDir, Marked;
      ChainInside();
      ghost var v := Marked(buf[n..]);
      ghost var pre, post := OneParts(data[..], j, v);
      PassedBy(pre, buf[n..], post);
      MarkedSame(buf[n..]);
      if free > 0 {
        assert buf[n..2 * n] == buf[n..];
        MarkFreeEntries(buf, n, 2 * n);
        assert buf[n..2 * n] == buf[n..];
        var _ := WriteBlock(cluster, buf[n..]);
      } else {
        NoneFree(buf[n..]);
        MarkedAlready(buf[n..]);
      }
    }

    static lemma PassedBy(pre: seq<Slot>, ss: seq<Slot>, post: seq<Slot>)
      requires WellFormedDir(pre + ss + post) && NoZero(pre)
      ensures SameDir(pre + ss + post, pre + Marked(ss) + post) && NoZero(pre + Marked(ss))
      ensures FreeCount(ss) == 0 ==> SameDir(pre + ss + post, pre + ss + post) && NoZero(pre + ss)
    {
      hide WellFormedDir, ZeroTail, Live, FreeCount;
      MarkedInto(pre, ss, post);
      if FreeCount(ss) == 0 {
        NoneFree(ss);
      }
    }

    static lemma MarkedAlready(ss: seq<Slot>)
      requires NoZero(ss)
      ensures Marked(ss) == ss
    {
    }

    // MODIFY_DIR_INSERT on one block.
    method TryBlock(buf: array<Slot>, prev: nat, cluster: nat, ghost j: nat, group: seq<Slot>)
      returns (done: bool, ghost at: nat)
      requires Valid() && Inside(data[..], chain) && WellFormedDir(Slots()) && Group(group)
      requires j < |chain| && cluster == chain[j] && prev == if j == 0 then vol.End() else chain[j - 1]
      requires buf.Length == 2 * n && data[cluster] == buf[n..] && (j > 0 ==> data[prev] == buf[..n])
      requires NoZero(Entries(data[..], chain[..j]))
      modifies buf, data, vol.fat`current, vol.fat.window
      ensures Valid() && Inside(data[..], chain)
      ensures done <==> |group| <= old(WindowFree(data[..], chain, j))
      ensures done ==> Placed(old(Slots()), Slots(), group, at)
      ensures done ==> InWindow(old(data[..]), data[..], chain, j, group, at)
      ensures done && j > 0 ==> data[..] == old(data[..])[prev := data[prev]][cluster := data[cluster]]
      ensures done && j == 0 ==> data[..] == old(data[..])[cluster := data[cluster]]
      ensures !done ==> data[..] == old(data[..])[cluster := Marked(old(data[cluster]))]
      ensures !done ==>
        && SameDir(old(Slots()), Slots()) && NoZero(Entries(data[..], chain[..j + 1])) && data[cluster] == buf[n..]
        && SameRoom(old(data[..]), data[..], chain)
      ensures Elsewhere(old(data[..]), data[..], chain)
    {
      hide Valid, Entries, WellFormedDir, FreeCount, NoZero, RunsOk, SameDir, Placed, Group;
      ChainInside();
      BothHalves(buf[..], n);
      if prev != Eof(vol.fat.kind) {
        assert buf[0..2 * n] == buf[..];
        var both := GetFreeEntries(buf, 0, 2 * n);
        if both >= |group| {
          at := InsertPair(buf, prev, cluster, j, group);
          return true, at;
        }
      }
      assert buf[n..2 * n] == buf[n..];
      var free := GetFreeEntries(buf, n, 2 * n);
      if free >= |group| {
        at := InsertSingle(buf, cluster, j, group);
        return true, at;
      }
      PassBlock(buf, cluster, j, free);
      done, at := false, 0;
    }

    static lemma BothHalves(ss: seq<Slot>, n: nat)
      requires |ss| == 2 * n
      ensures FreeCount(ss) == FreeCount(ss[..n]) + FreeCount(ss[n..])
    {
      Cut(ss, n);
    }

    // The directory ends too early: one more cluster, cleared.
    method AddCluster(cluster: nat) returns (r: nat)
      requires Valid() && Inside(data[..], chain) && cluster == chain[|chain| - 1]
      modifies `chain, data, vol, vol.fat, vol.fat.disk, vol.fat.window
      ensures Valid() && Inside(data[..], chain)
      ensures r == vol.End() <==> old(vol.free) == 0
      ensures r == vol.End() ==> chain == old(chain) && data[..] == old(data[..]) && vol.State() == old(vol.State())
      ensures r != vol.End() ==>
        && chain == old(chain) + [r] && vol.free == old(vol.free) - 1 && r !in old(chain)
        && r < data.Length && data[..] == old(data[..])[r := Blank(n)]
        && Slots() == old(Slots()) + Blank(n) && Entries(data[..], old(chain)) == old(Slots())
        && FatRuns.OthersKept(vol.fat.kind, old(vol.fat.entries), vol.fat.entries, old(chain), chain)
      ensures Elsewhere(old(data[..]), data[..], chain)
    {
      hide FatTable.Backed, FatTable.Geometry, FatTable.BlockOf, FatTable.Blocks;
      hide FreeSet, WellFormed, FatRuns.OthersKept, Entries;
      ghost var t, s, cs := vol.fat.kind, vol.State(), chain;
      ChainNonZero(t, s.f, cs, |cs| - 1);
      r := vol.SetNextCluster(cluster, FAT_ASSIGN_NEW);
      if r == Eof(vol.fat.kind) {
        return;
      }
      Extended(t, s, vol.State(), cs, r);
      chain := cs + [r];
      ghost var d := data[..];
      var _ := WriteBlock(r, Blank(n));
      EntriesElsewhere(d, data[..], cs);
      EntriesConcat(data[..], cs, [r]);
      EntriesOne(data[..], r);
    }

    static lemma Extended(t: FatType, s: FatState, s': FatState, cs: seq<nat>, c: nat)
      requires WellFormed(t, s.f) && s.free == |FreeSet(s.f)| && IsChain(t, s.f, cs) && NextFree(s.f, s.next, c)
      requires s.free > 0
      requires s' == FatState(s.f[c := Eof(t)][cs[|cs| - 1] := c], s.free - 1, c + 1)
      ensures WellFormed(t, s'.f) && s'.free == |FreeSet(s'.f)| && IsChain(t, s'.f, cs + [c]) && c !in cs
      ensures 2 <= c < |s'.f|
      ensures s'.f[c] == Eof(t)
      ensures FatRuns.OthersKept(t, s.f, s'.f, cs, cs + [c])
    {
      ChainNonZero(t, s.f, cs, |cs| - 1);
      FatRuns.FewEntries(t, s.f);
      var prev := cs[|cs| - 1];
      assert Appended(t, s.f, s'.f, prev, [c]);
      hide IsChain, Appended, FreeSet, WellFormed, FatRuns.KeptApart, FatRuns.Disjoint;
      AppendedFreeSet(t, s.f, s'.f, prev, [c]);
      AppendedChain(t, s.f, s'.f, prev, [c], cs);
      FatRuns.AppendedWellFormed(t, s.f, s'.f, prev, [c], cs);
      NewCluster(t, s.f, s'.f, cs, c);
      forall other | IsChain(t, s.f, other) && FatRuns.Disjoint(cs, other)
        ensures FatRuns.KeptApart(t, s'.f, other, cs + [c])
      {
        FatRuns.OtherFile(t, s.f, s'.f, prev, [c], cs, other);
      }
    }

    static lemma NewCluster(t: FatType, f: Fat, g: Fat, cs: seq<nat>, c: nat)
      requires IsChain(t, g, cs + [c])
      ensures c !in cs && cs + [c] != []
    {
      var all := cs + [c];
      forall i | 0 <= i < |cs| ensures cs[i] != c {
        assert all[i] == cs[i] && all[|cs|] == c;
      }
    }

    // Fill one half of the buffer.
    static method Load(buf: array<Slot>, at: nat, v: seq<Slot>)
      requires at + |v| <= buf.Length
      modifies buf
      ensures buf[..at] == old(buf[..at]) && buf[at..at + |v|] == v && buf[at + |v|..] == old(buf[at + |v|..])
    {
      forall i | 0 <= i < |v| {
        buf[at + i] := v[i];
      }
    }

    // None of the first `j` windows has room for `needed` slots.
    static ghost predicate Full(d: seq<seq<Slot>>, cs: seq<nat>, n: nat, j: nat, needed: nat)
      requires Inside(d, cs) && cs != []
    {
      forall k: nat :: k < j ==> WindowRoom(d, cs, n, k) < needed
    }

    // Block `w` before the pass: one of the directory, or one that is added.
    static ghost function Block(d0: seq<seq<Slot>>, cs: seq<nat>, n: nat, w: nat): seq<Slot>
      requires Inside(d0, cs)
    {
      if w < |cs| then d0[cs[w]] else Blank(n)
    }

    // The first `j` blocks have been passed by, the others are as they were.
    static ghost predicate Swept(d0: seq<seq<Slot>>, cs: seq<nat>, d: seq<seq<Slot>>, chain: seq<nat>, n: nat, j: nat)
      requires Inside(d0, cs)
    {
      && Inside(d, chain) && (forall w: nat :: w < |chain| && w < j ==> d[chain[w]] == Marked(Block(d0, cs, n, w)))
      && forall w: nat :: w < |chain| && j <= w ==> d[chain[w]] == Block(d0, cs, n, w)
    }

    // The group has been put into the window of block `j`.
    static ghost predicate Ended(d0: seq<seq<Slot>>, cs: seq<nat>, d: seq<seq<Slot>>, chain: seq<nat>, n: nat, j: nat,
                                 g: seq<Slot>, at: nat)
      requires Inside(d0, cs) && cs != []
    {
      && Full(d0, cs, n, j, |g|) && |g| <= WindowRoom(d0, cs, n, j) && Inside(d, chain) && j < |chain|
      && (forall w: nat :: w < |chain| && w + 1 < j ==> d[chain[w]] == Marked(Block(d0, cs, n, w)))
      && (forall w: nat :: w < |chain| && j < w ==> d[chain[w]] == Block(d0, cs, n, w))
      && (j == 0 ==> Fitted(Block(d0, cs, n, 0), d[chain[0]], g, at))
      && (j > 0 ==>
            && (j - 1) * n <= at
            && Fitted(Marked(Block(d0, cs, n, j - 1)) + Block(d0, cs, n, j), d[chain[j - 1]] + d[chain[j]], g,
                      at - (j - 1) * n))
    }

    static lemma SweptPassed(d0: seq<seq<Slot>>, cs: seq<nat>, d: seq<seq<Slot>>, d': seq<seq<Slot>>, chain: seq<nat>,
                             n: nat, j: nat)
      requires Inside(d0, cs) && Swept(d0, cs, d, chain, n, j) && Distinct(chain) && j < |chain|
      requires d' == d[chain[j] := Marked(d[chain[j]])]
      ensures Swept(d0, cs, d', chain, n, j + 1)
    {
    }

    static lemma SweptAdded(d0: seq<seq<Slot>>, cs: seq<nat>, d: seq<seq<Slot>>, chain: seq<nat>, n: nat, c: nat)
      requires Inside(d0, cs) && Swept(d0, cs, d, chain, n, |chain|) && |cs| <= |chain| && c < |d| && c !in chain
      ensures Swept(d0, cs, d[c := Blank(n)], chain + [c], n, |chain|)
    {
    }

    static lemma SweptEnded(d0: seq<seq<Slot>>, cs: seq<nat>, d: seq<seq<Slot>>, d': seq<seq<Slot>>, chain: seq<nat>,
                            n: nat, j: nat, g: seq<Slot>, at: nat)
      requires Inside(d0, cs) && Swept(d0, cs, d, chain, n, j) && Distinct(chain) && j < |chain|
      requires cs != [] && Full(d0, cs, n, j, |g|) && |g| <= WindowRoom(d0, cs, n, j)
      requires Inside(d', chain) && InWindow(d, d', chain, j, g, at) && Sized(d, chain, n)
      requires j > 0 ==> d' == d[chain[j - 1] := d'[chain[j - 1]]][chain[j] := d'[chain[j]]]
      requires j == 0 ==> d' == d[chain[j] := d'[chain[j]]]
      ensures Ended(d0, cs, d', chain, n, j, g, at)
    {
      hide Fitted, Entries, Marked, Full, WindowRoom;
      if j > 0 {
        EntriesSize(d, chain[..j - 1], n);
      }
    }

    static lemma {:induction false} EntriesSize(d: seq<seq<Slot>>, cs: seq<nat>, n: nat)
      requires Inside(d, cs) && Sized(d, cs, n)
      ensures |Entries(d, cs)| == |cs| * n
    {
      if cs != [] {
        var most := cs[..|cs| - 1];
        EntriesSize(d, most, n);
        assert Entries(d, cs) == Entries(d, most) + d[cs[|most|]];
        OneMore(|most|, n);
      }
    }

    static lemma OneMore(m: nat, n: nat)
      ensures (m + 1) * n == m * n + n
    {
    }

    // How many clusters an insertion of `needed` slots adds; more than two do not help.
    static ghost function Growth(d: seq<seq<Slot>>, cs: seq<nat>, n: nat, needed: nat): nat
      requires Inside(d, cs) && cs != []
    {
      if !Full(d, cs, n, |cs|, needed) then 0 else if needed <= WindowRoom(d, cs, n, |cs|) then 1 else 2
    }

    static lemma GrowthIs(d: seq<seq<Slot>>, cs: seq<nat>, n: nat, j: nat, needed: nat)
      requires Inside(d, cs) && cs != [] && Full(d, cs, n, j, needed)
      requires Sized(d, cs, n)
      ensures needed <= WindowRoom(d, cs, n, j) ==>
        needed <= 2 * n && Growth(d, cs, n, needed) == if j < |cs| then 0 else j + 1 - |cs|
      ensures j >= |cs| && needed <= 2 * n ==> Growth(d, cs, n, needed) > j - |cs|
    {
      hide Full;
      FullAt(d, cs, n, j, needed);
      FullAt(d, cs, n, |cs|, needed);
    }

    static lemma FullAt(d: seq<seq<Slot>>, cs: seq<nat>, n: nat, j: nat, needed: nat)
      requires Inside(d, cs) && cs != []
      ensures Full(d, cs, n, j, needed) ==> forall k: nat :: k < j ==> WindowRoom(d, cs, n, k) < needed
      ensures Full(d, cs, n, j, needed) && |cs| <= j ==> Full(d, cs, n, |cs|, needed)
      ensures Full(d, cs, n, j, needed) && |cs| < j ==> WindowRoom(d, cs, n, |cs|) < needed
      ensures Full(d, cs, n, j, needed) && |cs| + 1 < j ==> WindowRoom(d, cs, n, |cs| + 1) < needed
      ensures Full(d, cs, n, |cs|, needed) && j < |cs| ==> WindowRoom(d, cs, n, j) < needed
    {
    }

    // Where the pass stands before block `j`: what it has passed by is marked, and the
    // directory means what it meant when the pass began.
    ghost predicate Passing(was: seq<Slot>, cs: seq<nat>, j: nat, cluster: nat, prev: nat, added: bool, half: seq<Slot>)
      reads this, data, vol, vol.fat, vol.fat.disk, vol.fat.window
    {
      && Valid() && Inside(data[..], chain) && cs <= chain && SameDir(was, Slots())
      && j < |chain| && cluster == chain[j] && prev == (if j == 0 then vol.End() else chain[j - 1])
      && (j > 0 ==> data[prev] == half) && (added ==> data[cluster] == Blank(n))
      && NoZero(Entries(data[..], chain[..j]))
    }

    // The free slots counted in the first `j` windows, and the clusters gained.
    ghost predicate Counted(d0: seq<seq<Slot>>, cs: seq<nat>, j: nat, needed: nat, free: nat)
      requires Inside(d0, cs) && cs != []
      reads this, data, vol
    {
      && SameRoom(d0, data[..], cs) && vol.free + |chain| == free + |cs| && Full(d0, cs, n, j, needed)
      && Spare(data[..], chain, |cs|, n) && Swept(d0, cs, data[..], chain, n, j)
      && if j < |cs| then chain == cs else |chain| == j + 1
    }

    // Read the current block into the second half of the buffer; a cluster just added
    // is known to be clear.
    method LoadCurrent(buf: array<Slot>, cluster: nat, added: bool, ghost j: nat)
      requires Valid() && j < |chain| && cluster == chain[j]
      requires (added ==> cluster < data.Length && data[cluster] == Blank(n))
      requires buf.Length == 2 * n
      modifies buf, vol.fat`current, vol.fat.window
      ensures Valid() && cluster < data.Length && buf[n..] == data[cluster] && buf[..n] == old(buf[..n])
    {
      ChainInside();
      var v := Blank(n);
      if !added {
        var rc;
        rc, v := ReadBlock(cluster);
      }
      Load(buf, n, v);
      assert buf[n..n + n] == buf[n..];
    }

    // To the next block; at the end of the chain to a new cluster.
    method Advance(buf: array<Slot>, cluster: nat, ghost was: seq<Slot>, ghost cs: seq<nat>, ghost d0: seq<seq<Slot>>,
                   ghost j: nat,
                   ghost needed: nat, ghost free: nat) returns (next: nat, added: bool)
      requires Valid() && Inside(data[..], chain) && cs <= chain && SameDir(was, Slots()) && j < |chain|
      requires cluster == chain[j]
      requires buf.Length == 2 * n && buf[n..] == data[cluster] && NoZero(Entries(data[..], chain[..j + 1]))
      requires Inside(d0, cs) && cs != [] && SameRoom(d0, data[..], cs) && vol.free + |chain| == free + |cs|
      requires Full(d0, cs, n, j + 1, needed)
      requires Spare(data[..], chain, |cs|, n) && if j < |cs| then chain == cs else |chain| == j + 1
      requires Swept(d0, cs, data[..], chain, n, j + 1)
      modifies `chain, buf, data, vol, vol.fat, vol.fat.disk, vol.fat.window
      ensures Elsewhere(old(data[..]), data[..], chain)
      ensures old(chain) <= chain
      ensures buf.Length == 2 * n
      ensures next == vol.End() ==>
        && Valid() && Inside(data[..], chain) && cs <= chain && SameDir(was, Slots())
        && vol.free == 0 && Full(d0, cs, n, |cs| + free, needed) && |chain| == free + |cs|
        && Swept(d0, cs, data[..], chain, n, |chain|)
      ensures next != vol.End() ==>
        Passing(was, cs, j + 1, next, cluster, added, buf[..n]) && Counted(d0, cs, j + 1, needed, free)
    {
      hide Valid, Entries, RunsOk, Live, FreeCount, NoZero, SameDir, SameRoom, Spare, Full, FatRuns.OthersKept;
      hide Swept, Marked, WellFormedDir, FatRuns.Disjoint, IsChain;
      ChainInside();
      ghost var half := buf[n..];
      Load(buf, 0, buf[n..]);
      assert buf[0..n] == buf[..n];
      added := false;
      next := Next(cluster, j);
      if next == Eof(vol.fat.kind) {
        ghost var slots := Slots();
        SameWell(was, slots);
        BlankAdded(slots, n);
        SameTwice(was, slots, slots + Blank(n));
        assert chain[..j + 1] == chain;
        ghost var d := data[..];
        next := AddCluster(cluster);
        if next != vol.End() {
          SpareAdded(d, old(chain), |cs|, n, next);
          SameRoomAdded(d0, d, cs, next, Blank(n));
          SweptAdded(d0, cs, d, old(chain), n, next);
        }
        assert next != vol.End() ==> chain[..j + 1] == old(chain);
        added := true;
      }
    }

    static lemma SameWell(was: seq<Slot>, now: seq<Slot>)
      requires SameDir(was, now)
      ensures WellFormedDir(now)
    {
    }

    ghost predicate Succeeded(was: seq<Slot>, cs: seq<nat>, d0: seq<seq<Slot>>, j: nat, group: seq<Slot>, at: nat)
      requires Inside(d0, cs) && cs != []
      reads this, data
    {
      && Inside(data[..], chain) && Placed(was, Slots(), group, at) && |chain| == |cs| + Growth(d0, cs, n, |group|)
      && |group| <= 2 * n && Ended(d0, cs, data[..], chain, n, j, group, at)
    }

    ghost predicate Missed(was: seq<Slot>, cs: seq<nat>, d0: seq<seq<Slot>>, j: nat, cluster: nat, half: seq<Slot>,
                           needed: nat)
      requires Inside(d0, cs) && cs != []
      reads this, data
    {
      && Inside(data[..], chain) && j < |chain| && cluster == chain[j] && SameDir(was, Slots())
      && half == data[..][cluster] && NoZero(Entries(data[..], chain[..j + 1])) && SameRoom(d0, data[..], cs)
      && Full(d0, cs, n, j + 1, needed) && Spare(data[..], chain, |cs|, n) && Swept(d0, cs, data[..], chain, n, j + 1)
    }

    // One round of the insertion: the current block, alone or with the previous one.
    method InsertHere(buf: array<Slot>, prev: nat, cluster: nat, added: bool, group: seq<Slot>, ghost was: seq<Slot>,
                      ghost cs: seq<nat>, ghost d0: seq<seq<Slot>>, ghost j: nat, ghost free: nat)
      returns (done: bool, ghost at: nat)
      requires buf.Length == 2 * n && Group(group) && Elsewhere(d0, data[..], chain)
      requires Inside(d0, cs) && cs != [] && Sized(d0, cs, n)
      requires Passing(was, cs, j, cluster, prev, added, buf[..n]) && Counted(d0, cs, j, |group|, free)
      modifies buf, data, vol.fat`current, vol.fat.window
      ensures Valid() && Inside(data[..], chain) && cs <= chain && j < |chain| && cluster == chain[j]
      ensures vol.free + |chain| == free + |cs| && if j < |cs| then chain == cs else |chain| == j + 1
      ensures Elsewhere(d0, data[..], chain)
      ensures done ==> Succeeded(was, cs, d0, j, group, at)
      ensures !done ==> Missed(was, cs, d0, j, cluster, buf[n..], |group|)
    {
      hide Valid, Entries, WellFormedDir, RunsOk, SameDir, Placed, Group, Live, FreeCount, NoZero, Slots, Passing;
      hide Counted, Full, SameRoom, WindowFree, WindowRoom, Elsewhere, Growth, Spare, Swept, Ended, InWindow, Marked;
      Facts(was, cs, j, cluster, prev, added, buf[..n], d0, |group|, free);
      AllSized();
      LoadCurrent(buf, cluster, added, j);
      ghost var slots, d := Slots(), data[..];
      done, at := TryBlock(buf, prev, cluster, j, group);
      ElsewhereTwice(d0, d, data[..], chain, chain);
      GrowthIs(d0, cs, n, j, |group|);
      if done {
        SameThenPlaced(was, slots, Slots(), group, at);
        SweptEnded(d0, cs, d, data[..], chain, n, j, group, at);
        return;
      }
      SweptPassed(d0, cs, d, data[..], chain, n, j);
      SpareStays(d, data[..], chain, |cs|, n);
      SameTwice(was, slots, Slots());
      SameRoomPrefix(d, data[..], cs, chain);
      SameRoomTwice(d0, d, data[..], cs);
    }

    lemma AllSized()
      requires Valid() && Inside(data[..], chain)
      ensures Distinct(chain) && Sized(data[..], chain, n)
    {
    }

    // ModifyDirectory with MODIFY_DIR_INSERT: the group goes into the first window that
    // has room, or into clusters added at the end.
    method Insert(group: seq<Slot>) returns (rc: nat, ghost at: nat, ghost k: nat)
      requires Valid() && Inside(data[..], chain) && WellFormedDir(Slots()) && Group(group)
      modifies `chain, data, vol, vol.fat, vol.fat.disk, vol.fat.window
      ensures Valid() && Inside(data[..], chain)
      ensures var grow := Growth(old(data[..]), old(chain), n, |group|);
        && rc == (if |group| <= 2 * n && grow <= old(vol.free) then NO_ERROR else ERROR_DISK_FULL)
        && |chain| == |old(chain)| + if rc == NO_ERROR then grow else old(vol.free)
      ensures rc == 0 || rc == 112
      ensures if rc == NO_ERROR then Placed(old(Slots()), Slots(), group, at) else SameDir(old(Slots()), Slots())
      ensures old(chain) <= chain && vol.free + |chain| == old(vol.free + |chain|)
      ensures Elsewhere(old(data[..]), data[..], chain)
      // The group is in the first window that has room, block `k` and the one before it, which
      // were compacted as one; the blocks in front of it have lost their end marks.
      ensures rc == NO_ERROR ==>
        && (forall w: nat :: w < k ==> WindowRoom(old(data[..]), old(chain), n, w) < |group|)
        && |group| <= WindowRoom(old(data[..]), old(chain), n, k)
        && Ended(old(data[..]), old(chain), data[..], chain, n, k, group, at)
      ensures rc != NO_ERROR ==> forall w: nat :: w < |chain| ==>
        data[..][chain[w]] == Marked(Block(old(data[..]), old(chain), n, w))
    {
      hide Valid, Entries, WellFormedDir, RunsOk, SameDir, Placed, Group, Live, FreeCount, NoZero, Slots, Passing;
      hide Counted, Full, SameRoom, WindowFree, WindowRoom, Elsewhere, Growth, Spare, Swept, Ended, Marked;
      ChainInside();
      ghost var was, cs, d0, free := Slots(), chain, data[..], vol.free;
      var buf := new Slot[2 * n](_ => Filled(0));
      var cluster, prev, added := start, Eof(vol.fat.kind), false;
      ghost var j: nat := 0;
      Start(buf[..n], |group|);
      NothingElsewhere(d0, chain);
      while cluster != Eof(vol.fat.kind)
        invariant buf.Length == 2 * n
        invariant cluster != vol.End() ==>
          Passing(was, cs, j, cluster, prev, added, buf[..n]) && Counted(d0, cs, j, |group|, free)
        invariant Elsewhere(d0, data[..], chain)
        invariant cluster == vol.End() ==>
          && Valid() && Inside(data[..], chain) && cs <= chain && SameDir(was, Slots())
          && vol.free == 0 && |chain| == free + |cs| && Full(d0, cs, n, |cs| + free, |group|)
          && Swept(d0, cs, data[..], chain, n, |chain|)
        decreases free + |cs| - j
      {
        var done;
        done, at := InsertHere(buf, prev, cluster, added, group, was, cs, d0, j, free);
        if done {
          EndedFirst(d0, cs, data[..], chain, n, j, group, at);
          return NO_ERROR, at, j;
        }
        prev := cluster;
        ghost var d1, c1 := data[..], chain;
        cluster, added := Advance(buf, cluster, was, cs, d0, j, |group|, free);
        ElsewhereTwice(d0, d1, data[..], c1, chain);
        j := j + 1;
      }
      GrowthIs(d0, cs, n, |cs| + free, |group|);
      SweptAll(d0, cs, data[..], chain, n);
      rc, at, k := ERROR_DISK_FULL, 0, 0;
    }

    static lemma EndedFirst(d0: seq<seq<Slot>>, cs: seq<nat>, d: seq<seq<Slot>>, chain: seq<nat>, n: nat, j: nat,
                            g: seq<Slot>, at: nat)
      requires Inside(d0, cs) && cs != [] && Ended(d0, cs, d, chain, n, j, g, at)
      ensures |g| <= WindowRoom(d0, cs, n, j) && forall w: nat :: w < j ==> WindowRoom(d0, cs, n, w) < |g|
    {
    }

    static lemma SweptAll(d0: seq<seq<Slot>>, cs: seq<nat>, d: seq<seq<Slot>>, chain: seq<nat>, n: nat)
      requires Inside(d0, cs) && Swept(d0, cs, d, chain, n, |chain|)
      ensures Inside(d, chain) && forall w: nat :: w < |chain| ==> d[chain[w]] == Marked(Block(d0, cs, n, w))
    {
    }

    static lemma NothingElsewhere(d: seq<seq<Slot>>, cs: seq<nat>)
      ensures Elsewhere(d, d, cs)
    {
    }

    lemma Start(half: seq<Slot>, needed: nat)
      requires Valid() && Inside(data[..], chain) && chain != [] && WellFormedDir(Slots())
      ensures Passing(Slots(), chain, 0, start, vol.End(), false, half)
      ensures Counted(data[..], chain, 0, needed, vol.free)
    {
      assert chain[..0] == [];
    }

    // What a round starts from, and what its window offers.
    lemma Facts(was: seq<Slot>, cs: seq<nat>, j: nat, cluster: nat, prev: nat, added: bool, half: seq<Slot>,
                d0: seq<seq<Slot>>, needed: nat, free: nat)
      requires Passing(was, cs, j, cluster, prev, added, half) && Inside(d0, cs) && cs != []
      requires Counted(d0, cs, j, needed, free)
      ensures Valid() && Inside(data[..], chain) && cs <= chain && SameDir(was, Slots()) && WellFormedDir(Slots())
      ensures j < |chain|
      ensures cluster == chain[j] && prev == (if j == 0 then vol.End() else chain[j - 1]) && cluster < data.Length
      ensures (j > 0 ==> prev < data.Length && data[prev] == half) && (added ==> data[cluster] == Blank(n))
      ensures NoZero(Entries(data[..], chain[..j]))
      ensures vol.free + |chain| == free + |cs|
      ensures SameRoom(d0, data[..], cs) && Spare(data[..], chain, |cs|, n)
      ensures (if j < |cs| then chain == cs else |chain| == j + 1) && Swept(d0, cs, data[..], chain, n, j)
      ensures Full(d0, cs, n, j, needed) && WindowFree(data[..], chain, j) == WindowRoom(d0, cs, n, j)
      ensures WindowFree(data[..], chain, j) < needed ==> Full(d0, cs, n, j + 1, needed)
    {
      hide Entries, NoZero, FreeCount, WindowFree, WindowRoom, Spare;
      WindowIs(d0, data[..], cs, chain, n, j);
    }

    // ---------------------------------------------------------------- deleting and updating

    // pLNStart: unset, or where in the buffer of two blocks the run of `run` long-name
    // slots before slot `index` starts. It may be in front of the buffer.
    static function LnStart(run: nat, index: int): LongStart {
      if run == 0 then Unset else Set(index - run)
    }

    // One round of the search loop.
    static method Look(s: Slot, sought: Slot, index: int, lnStart: LongStart, ghost run: nat)
      returns (found: bool, lnStart': LongStart)
      requires lnStart == LnStart(run, index)
      ensures found == IsTarget(s, sought)
      ensures lnStart' == if found then Set(index - run) else LnStart(if LiveLong(s) then run + 1 else 0, index + 1)
    {
      found, lnStart' := false, lnStart;
      if s.first != 0 && s.first != DELETED_ENTRY {
        if s.attr == FILE_LONGNAME {
          if lnStart'.Unset? {
            lnStart' := Set(index);
          }
        } else if s.attr % 16 != FILE_VOLID {
          if s.first == sought.first && s.name == sought.name && ClusterBytes(s) == ClusterBytes(sought) {
            found := true;
            if lnStart'.Unset? {
              lnStart' := Set(index);
            }
          } else {
            lnStart' := Unset;
          }
        } else {
          lnStart' := Unset;
        }
      } else {
        lnStart' := Unset;
      }
    }

    // The search loop of ModifyDirectory within the current block.
    method Scan(buf: array<Slot>, sought: Slot, lnStart: LongStart, ghost pre: seq<Slot>)
      returns (work: nat, lnStart': LongStart)
      requires buf.Length == 2 * n && lnStart == LnStart(Trailing(pre), n)
      ensures n <= work <= 2 * n
      ensures forall k :: 0 <= k < work - n ==> !IsTarget(buf[n..][k], sought)
      ensures var run := Trailing(pre + buf[n..][..work - n]);
        if work < 2 * n then IsTarget(buf[work], sought) && lnStart' == Set(work - run)
            else lnStart' == LnStart(run, work)
    {
      hide Trailing, IsTarget;
      work, lnStart' := n, lnStart;
      ghost var cur: seq<Slot> := buf[n..];
      assert pre + cur[..0] == pre;
      while work != 2 * n
        invariant n <= work <= 2 * n && lnStart' == LnStart(Trailing(pre + cur[..work - n]), work)
        invariant forall k :: 0 <= k < work - n ==> !IsTarget(cur[k], sought)
      {
        LongerRun(pre, cur, work - n);
        var found;
        found, lnStart' := Look(buf[work], sought, work, lnStart', Trailing(pre + cur[..work - n]));
        if found {
          return;
        }
        work := work + 1;
      }
    }

    static lemma LongerRun(pre: seq<Slot>, cur: seq<Slot>, k: nat)
      requires k < |cur|
      ensures Trailing(pre + cur[..k + 1]) == if LiveLong(cur[k]) then Trailing(pre + cur[..k]) + 1 else 0
    {
      assert pre + cur[..k + 1] == (pre + cur[..k]) + [cur[k]];
      TrailingNext(pre + cur[..k], cur[k]);
    }

    // Mark the slots from the start of the long name to the entry.
    static method Erase(buf: array<Slot>, from: nat, work: nat)
      requires from <= work < buf.Length
      modifies buf
      ensures buf[..] == RangeDeleted(old(buf[..]), from, work)
    {
      var i := from;
      while i < work
        invariant from <= i <= work
        invariant forall k :: 0 <= k < buf.Length ==>
          buf[k] == if from <= k < i then Deleted(old(buf[k])) else old(buf[k])
      {
        buf[i] := buf[i].(first := DELETED_ENTRY);
        i := i + 1;
      }
      buf[work] := buf[work].(first := DELETED_ENTRY);
    }

    static lemma DeletedInside(a: seq<Slot>, ss: seq<Slot>, b: seq<Slot>, s: nat, e: nat)
      requires s <= e < |ss|
      ensures RangeDeleted(a + ss + b, |a| + s, |a| + e) == a + RangeDeleted(ss, s, e) + b
    {
    }

    static lemma DeletedBehind(ss: seq<Slot>, n: nat, s: nat, e: nat)
      requires n <= s <= e < |ss|
      ensures RangeDeleted(ss, s, e)[..n] == ss[..n]
      ensures RangeDeleted(ss, s, e)[n..] == RangeDeleted(ss[n..], s - n, e - n)
    {
    }

    // The group has been found: mark it in the buffer and write back what changed.
    method Remove(buf: array<Slot>, prev: nat, cluster: nat, ghost j: nat, from: nat, work: nat)
      requires Valid() && Inside(data[..], chain) && j < |chain| && cluster == chain[j]
      requires prev == if j == 0 then vol.End() else chain[j - 1]
      requires buf.Length == 2 * n && data[cluster] == buf[n..] && (j > 0 ==> data[prev] == buf[..n])
      requires from <= work && n <= work < 2 * n && (from < n ==> j > 0)
      modifies buf, data, vol.fat`current, vol.fat.window
      ensures Valid() && Inside(data[..], chain)
      ensures var before: int := |old(Entries(data[..], chain[..j]))| - n;
        && 0 <= before + from && before + work < |old(Slots())|
        && Slots() == RangeDeleted(old(Slots()), before + from, before + work)
      ensures Elsewhere(old(data[..]), data[..], chain)
    {
      hide Valid, Entries, RangeDeleted;
      ChainInside();
      ghost var b: seq<Slot> := buf[..];
      Erase(buf, from, work);
      if prev != Eof(vol.fat.kind) && from < n {
        DistinctChain();
        ghost var pre, post := Neighbours(j);
        Halves(b, n);
        DeletedInside(pre, b, post, from, work);
        Halves(buf[..], n);
        WritePair(buf[..n], buf[n..], prev, cluster, j, pre, post);
      } else {
        DeletedBehind(b, n, from, work);
        ghost var pre, post := OneParts(data[..], j, buf[n..]);
        DeletedInside(pre, b[n..], post, from - n, work - n);
        var _ := WriteBlock(cluster, buf[n..]);
      }
    }

    lemma Neighbours(j: nat) returns (pre: seq<Slot>, post: seq<Slot>)
      requires Valid() && 0 < j < |chain| && Inside(data[..], chain)
      ensures pre == Entries(data[..], chain[..j - 1]) && post == Entries(data[..], chain[j + 1..])
      ensures Slots() == pre + (data[chain[j - 1]] + data[chain[j]]) + post
      ensures |Entries(data[..], chain[..j])| == |pre| + n
    {
      hide Entries;
      DistinctChain();
      ChainInside();
      TwoBlocks(data[..], chain, j, [], []);
      pre, post := Entries(data[..], chain[..j - 1]), Entries(data[..], chain[j + 1..]);
    }

    // The pass of ModifyDirectory that looks for an entry. `from` is where the long name
    // right before it starts, or the entry itself, counted from the previous block.
    method Find(buf: array<Slot>, sought: Slot)
      returns (found: bool, cluster: nat, prev: nat, from: int, work: nat, ghost j: nat)
      requires Valid() && Inside(data[..], chain) && buf.Length == 2 * n
      modifies buf, vol.fat`current, vol.fat.window
      ensures Valid() && Inside(data[..], chain)
      ensures !found ==> NoTarget(Slots(), sought)
      ensures found ==>
        && j < |chain| && cluster == chain[j] && prev == (if j == 0 then vol.End() else chain[j - 1])
        && data[cluster] == buf[n..] && (j > 0 ==> data[prev] == buf[..n])
        && from <= work && n <= work < 2 * n && (from < n ==> j > 0)
        && Sought(Slots(), |Entries(data[..], chain[..j])| + work - n, sought, work - from)
    {
      hide Valid, Entries, Trailing, IsTarget, Sought;
      ChainInside();
      cluster, prev, from, found, work, j := start, Eof(vol.fat.kind), 0, false, n, 0;
      var lnStart := Unset;
      EmptyEntries();
      while cluster != Eof(vol.fat.kind)
        invariant Valid() && Inside(data[..], chain) && j <= |chain| && !found
        invariant cluster == (if j < |chain| then chain[j] else vol.End())
        invariant prev == (if j == 0 then vol.End() else chain[j - 1])
        invariant j > 0 ==> data[prev] == buf[..n]
        invariant lnStart == LnStart(Trailing(Entries(data[..], chain[..j])), n)
        invariant NoTarget(Entries(data[..], chain[..j]), sought)
        decreases |chain| - j
      {
        ghost var pre := Entries(data[..], chain[..j]);
        LoadCurrent(buf, cluster, false, j);
        work, lnStart := Scan(buf, sought, lnStart, pre);
        if work < 2 * n {
          found, from := true, lnStart.at;
          FoundAt(pre, buf[n..], j, work, from, sought);
          return;
        }
        PassedOver(pre, buf[n..], j, sought);
        prev := cluster;
        Load(buf, 0, buf[n..]);
        assert buf[0..n] == buf[..n];
        if lnStart.Set? {
          lnStart := Set(lnStart.at - n);
        }
        cluster := Next(cluster, j);
        j := j + 1;
      }
      assert chain[..j] == chain;
    }

    static ghost predicate NoTarget(ss: seq<Slot>, sought: Slot) {
      forall k :: 0 <= k < |ss| ==> !IsTarget(ss[k], sought)
    }

    // Slot `e` is the entry sought, and `run` long-name slots are right before it.
    static ghost predicate Sought(ss: seq<Slot>, e: nat, sought: Slot, run: nat) {
      FirstTarget(ss, sought, e) && run == Trailing(ss[..e])
    }

    // If slot `k` of block `j` is the entry sought, its long name starts in the block before or later.
    ghost predicate Near(sought: Slot, j: nat, k: nat)
      requires n > 0 && j < |chain| && Inside(data[..], chain)
      reads this, data
    {
      var e := |Entries(data[..], chain[..j])| + k;
      e < |Slots()| && FirstTarget(Slots(), sought, e) ==> Trailing(Slots()[..e]) <= n + k
    }

    // The buffer of two blocks holds the entry sought and all of its long name. If it
    // does not, ModifyDirectory writes in front of the buffer.
    ghost predicate NameNear(sought: Slot)
      requires n > 0 && Inside(data[..], chain)
      reads this, data
    {
      forall j: nat, k: nat :: j < |chain| && k < n ==> Near(sought, j, k)
    }

    static lemma UpToSlot(pre: seq<Slot>, cur: seq<Slot>, post: seq<Slot>, k: nat)
      requires k <= |cur|
      ensures (pre + cur + post)[..|pre| + k] == pre + cur[..k]
    {
    }

    lemma FoundAt(pre: seq<Slot>, cur: seq<Slot>, j: nat, work: nat, from: int, sought: Slot)
      requires Valid() && Inside(data[..], chain) && j < |chain|
      requires pre == Entries(data[..], chain[..j]) && cur == data[chain[j]] && |cur| == n && n <= work < 2 * n
      requires NoTarget(pre, sought) && (forall k :: 0 <= k < work - n ==> !IsTarget(cur[k], sought))
      requires IsTarget(cur[work - n], sought)
      requires from == work - Trailing(pre + cur[..work - n])
      ensures from <= work && Sought(Slots(), |pre| + work - n, sought, work - from)
      ensures from < n ==> j > 0
    {
      hide Entries, IsTarget, Sought, Trailing;
      ghost var pre', post := OneParts(data[..], j, []);
      FoundIn(pre, cur, post, work - n, sought);
      if j == 0 { EmptyEntries(); }
    }

    static lemma FoundIn(pre: seq<Slot>, cur: seq<Slot>, post: seq<Slot>, k: nat, sought: Slot)
      requires k < |cur| && NoTarget(pre, sought) && IsTarget(cur[k], sought)
      requires forall i :: 0 <= i < k ==> !IsTarget(cur[i], sought)
      ensures Sought(pre + cur + post, |pre| + k, sought, Trailing(pre + cur[..k]))
      ensures Trailing(pre + cur[..k]) <= |pre| + k
    {
      hide IsTarget, Trailing;
      UpToSlot(pre, cur, post, k);
      InThree(pre, cur, post, k, sought);
    }

    lemma EmptyEntries()
      requires Inside(data[..], chain)
      ensures Entries(data[..], chain[..0]) == [] && Trailing([]) == 0
    {
    }

    static lemma InThree(pre: seq<Slot>, cur: seq<Slot>, post: seq<Slot>, k: nat, sought: Slot)
      requires k < |cur| && NoTarget(pre, sought) && IsTarget(cur[k], sought)
      requires forall i :: 0 <= i < k ==> !IsTarget(cur[i], sought)
      ensures FirstTarget(pre + cur + post, sought, |pre| + k)
    {
      hide IsTarget;
    }

    lemma PassedOver(pre: seq<Slot>, cur: seq<Slot>, j: nat, sought: Slot)
      requires Valid() && Inside(data[..], chain) && j < |chain|
      requires pre == Entries(data[..], chain[..j]) && cur == data[chain[j]] && |cur| == n
      requires NoTarget(pre, sought) && forall k :: 0 <= k < n ==> !IsTarget(cur[k], sought)
      ensures Entries(data[..], chain[..j + 1]) == pre + cur == pre + cur[..n] && NoTarget(pre + cur, sought)
    {
      hide Entries, IsTarget;
      UpTo(data[..], chain, j);
      assert cur[..n] == cur;
    }

    // ModifyDirectory with MODIFY_DIR_DELETE. When the long name begins in front of the
    // buffer of two blocks (`strays`), the driver writes in front of the buffer, and of the
    // directory it marks the slots from the previous block on.
    method Delete(sought: Slot) returns (rc: nat, strays: bool, ghost e: nat, ghost run: nat, ghost from: nat)
      requires Valid() && Inside(data[..], chain)
      modifies data, vol.fat`current, vol.fat.window
      ensures Valid() && Inside(data[..], chain)
      ensures rc == 0 || rc == 2
      ensures strays <==> !old(NameNear(sought))
      ensures ZeroTail(old(Slots())) ==> ZeroTail(Slots())
      ensures rc == NO_ERROR ==>
        && Sought(old(Slots()), e, sought, run) && run <= e < old(|Slots()|) && from <= e
        && Slots() == RangeDeleted(old(Slots()), from, e)
        && if strays then e - run < from && old(BeginsBlock(from)) && n <= e - from < 2 * n else from == e - run
      ensures rc == NO_ERROR ==>
        var s := old(Slots())[e];
        && s.first != 0 && s.first != 0xE5 && s.attr != 15 && s.attr % 16 != 8
        && s.first == sought.first && s.name == sought.name
        && s.rest[8..10] == sought.rest[8..10] && s.rest[14..16] == sought.rest[14..16]
      ensures forall k :: 0 <= k < (if rc == NO_ERROR then e else |old(Slots())|) ==>
        var s := old(Slots())[k];
        !(s.first != 0 && s.first != 0xE5 && s.attr != 15 && s.attr % 16 != 8
          && s.first == sought.first && s.name == sought.name
          && s.rest[8..10] == sought.rest[8..10] && s.rest[14..16] == sought.rest[14..16])
      ensures rc == NO_ERROR ==>
        && Slots()[e].first == 0xE5
        && (forall k :: 0 <= k < |Slots()| && k != e && old(Slots())[k].attr != 15 ==> Slots()[k] == old(Slots())[k])
      // The long name is the run of slots in use with attribute 15 right before the entry.
      ensures rc == NO_ERROR ==>
        && (forall k :: e - run <= k < e ==>
              var s := old(Slots())[k]; s.first != 0 && s.first != 0xE5 && s.attr == 15)
        && (run < e ==> var s := old(Slots())[e - run - 1]; s.first == 0 || s.first == 0xE5 || s.attr != 15)
      // A name that no other entry in use has is gone.
      ensures rc == NO_ERROR && (forall k :: 0 <= k < |old(Slots())| && k != e ==>
          var s := old(Slots())[k];
          s.first != 0 && s.first != 0xE5 && s.attr != 15 && s.attr % 16 != 8 ==>
            s.first != sought.first || s.name != sought.name) ==>
        forall k :: 0 <= k < |Slots()| ==>
          var s := Slots()[k];
          s.first != 0 && s.first != 0xE5 && s.attr != 15 && s.attr % 16 != 8 ==>
            s.first != sought.first || s.name != sought.name
      ensures rc == ERROR_FILE_NOT_FOUND ==> data[..] == old(data[..]) && NoTarget(old(Slots()), sought) && !strays
      ensures Elsewhere(old(data[..]), data[..], chain)
    {
      hide Valid, Entries, NameNear, Near, Sought, RangeDeleted, NoTarget, ZeroTail;
      ChainInside();
      var buf := new Slot[2 * n](_ => Filled(0));
      var found, cluster, prev, at, work, j := Find(buf, sought);
      e, run, from, strays := 0, 0, 0, false;
      if !found {
        NoneNear(sought);
        NoBytes(Slots(), sought);
        return ERROR_FILE_NOT_FOUND, strays, e, run, from;
      }
      strays := at < 0;
      e, run := |Entries(data[..], chain[..j])| + work - n, work - at;
      SoughtRun(Slots(), e, sought, run);
      SoughtBytes(Slots(), e, sought, run);
      NearOne(sought, j, work - n, run);
      if strays {
        at := 0;
        BlockBegins(j);
      }
      from := |Entries(data[..], chain[..j])| - n + at;
      DeletedZeros(Slots(), from, e);
      OthersStay(Slots(), from, e) by { RunIs(Slots(), e, sought, run); }
      RunBytes(Slots(), e, sought, run);
      Remove(buf, prev, cluster, j, at, work);
      rc := NO_ERROR;
    }

    // Slot `k` is the first one of a block.
    ghost predicate BeginsBlock(k: nat)
      requires Inside(data[..], chain)
      reads `chain, data
    {
      exists j: nat :: j < |chain| && k == |Entries(data[..], chain[..j])|
    }

    lemma BlockBegins(j: nat)
      requires Valid() && Inside(data[..], chain) && 0 < j < |chain|
      ensures |Entries(data[..], chain[..j])| >= n && BeginsBlock(|Entries(data[..], chain[..j])| - n)
    {
      hide Entries;
      ghost var pre, post := Neighbours(j);
      assert |pre| == |Entries(data[..], chain[..j - 1])|;
    }

    lemma NoneNear(sought: Slot)
      requires n > 0 && Inside(data[..], chain) && NoTarget(Slots(), sought)
      ensures NameNear(sought)
    {
      hide Entries, IsTarget, Trailing;
    }

    // There is one first match, so its place decides.
    lemma NearOne(sought: Slot, j: nat, k: nat, run: nat)
      requires Valid() && Inside(data[..], chain) && j < |chain| && k < n
      requires var e := |Entries(data[..], chain[..j])| + k; e < |Slots()| && Sought(Slots(), e, sought, run)
      ensures NameNear(sought) <==> run <= n + k
    {
      hide Entries, FirstTarget, Trailing, Valid;
      assert Near(sought, j, k) <==> run <= n + k;
      forall j': nat, k': nat | j' < |chain| && k' < n && (j' != j || k' != k) ensures Near(sought, j', k') {
        var e, e' := |Entries(data[..], chain[..j])| + k, |Entries(data[..], chain[..j'])| + k';
        if j' < j { Farther(j', j); } else if j < j' { Farther(j, j'); }
        if FirstTarget(Slots(), sought, e') {
          OneFirst(Slots(), sought, e, e');
        }
      }
    }

    static lemma OneFirst(ss: seq<Slot>, sought: Slot, e: nat, e': nat)
      requires FirstTarget(ss, sought, e) && FirstTarget(ss, sought, e')
      ensures e == e'
    {
      hide IsTarget;
    }

    lemma {:induction false} Farther(i: nat, j: nat)
      requires Valid() && Inside(data[..], chain) && i < j < |chain|
      ensures |Entries(data[..], chain[..j])| >= |Entries(data[..], chain[..i])| + n
    {
      hide Entries, Valid;
      ChainInside();
      ghost var pre, post := Neighbours(j);
      if i < j - 1 {
        Farther(i, j - 1);
      }
    }

    // Long names no longer than a block always lie in the buffer of two blocks.
    lemma ShortNamesNear(sought: Slot)
      requires Valid() && Inside(data[..], chain) && forall e: nat :: e < |Slots()| ==> Trailing(Slots()[..e]) <= n
      ensures NameNear(sought)
    {
      hide Entries, FirstTarget, Trailing;
    }

    static lemma SoughtRun(ss: seq<Slot>, e: nat, sought: Slot, run: nat)
      requires Sought(ss, e, sought, run)
      ensures run <= e < |ss| && IsEntry(ss[e])
    {
    }

    static lemma SoughtBytes(ss: seq<Slot>, e: nat, sought: Slot, run: nat)
      requires Sought(ss, e, sought, run)
      ensures e < |ss| && SameBytes(ss[e], sought) && forall k :: 0 <= k < e ==> !SameBytes(ss[k], sought)
    {
      hide IsTarget, Trailing, SameBytes;
      TargetIs(ss[e], sought);
      forall k | 0 <= k < e ensures !SameBytes(ss[k], sought) {
        TargetIs(ss[k], sought);
      }
    }

    static lemma NoBytes(ss: seq<Slot>, sought: Slot)
      requires NoTarget(ss, sought)
      ensures forall k :: 0 <= k < |ss| ==> !SameBytes(ss[k], sought)
    {
      hide IsTarget, SameBytes;
      forall k | 0 <= k < |ss| ensures !SameBytes(ss[k], sought) {
        TargetIs(ss[k], sought);
      }
    }

    static lemma RunBytes(ss: seq<Slot>, e: nat, sought: Slot, run: nat)
      requires Sought(ss, e, sought, run)
      ensures run <= e < |ss|
      ensures forall k :: e - run <= k < e ==> ss[k].first != 0 && ss[k].first != 0xE5 && ss[k].attr == 15
      ensures run < e ==>
        ss[e - run - 1].first == 0 || ss[e - run - 1].first == 0xE5 || ss[e - run - 1].attr != 15
    {
      hide Trailing, IsTarget;
      TrailingRun(ss[..e]);
      forall k | e - run <= k < e ensures LiveLong(ss[k]) {
        assert ss[..e][k] == ss[k];
      }
    }

    static lemma RunIs(ss: seq<Slot>, e: nat, sought: Slot, run: nat)
      requires Sought(ss, e, sought, run)
      ensures e < |ss| && run == Trailing(ss[..e])
    {
    }

    // ModifyDirectory with MODIFY_DIR_UPDATE.
    method Update(sought: Slot, entry: Slot) returns (rc: nat, ghost e: nat, ghost run: nat)
      requires Valid() && Inside(data[..], chain)
      modifies data, vol.fat`current, vol.fat.window
      ensures Valid() && Inside(data[..], chain)
      ensures rc == 0 || rc == 2
      ensures rc == NO_ERROR ==>
        && Sought(old(Slots()), e, sought, run) && e < old(|Slots()|)
        && Slots() == old(Slots())[e := entry]
      ensures rc == NO_ERROR ==>
        var s := old(Slots())[e];
        && s.first != 0 && s.first != 0xE5 && s.attr != 15 && s.attr % 16 != 8
        && s.first == sought.first && s.name == sought.name
        && s.rest[8..10] == sought.rest[8..10] && s.rest[14..16] == sought.rest[14..16]
      ensures forall k :: 0 <= k < (if rc == NO_ERROR then e else |old(Slots())|) ==>
        var s := old(Slots())[k];
        !(s.first != 0 && s.first != 0xE5 && s.attr != 15 && s.attr % 16 != 8
          && s.first == sought.first && s.name == sought.name
          && s.rest[8..10] == sought.rest[8..10] && s.rest[14..16] == sought.rest[14..16])
      ensures rc == ERROR_FILE_NOT_FOUND ==> data[..] == old(data[..]) && NoTarget(old(Slots()), sought)
      ensures Elsewhere(old(data[..]), data[..], chain)
    {
      hide Valid, Entries, Sought, NoTarget;
      ChainInside();
      var buf := new Slot[2 * n](_ => Filled(0));
      var found, cluster, prev, from, work, j := Find(buf, sought);
      e, run := 0, 0;
      if !found {
        NoBytes(Slots(), sought);
        return ERROR_FILE_NOT_FOUND, e, run;
      }
      e, run := |Entries(data[..], chain[..j])| + work - n, work - from;
      SoughtRun(Slots(), e, sought, run);
      SoughtBytes(Slots(), e, sought, run);
      ghost var cur: seq<Slot> := buf[n..];
      buf[work] := entry;
      assert buf[n..] == cur[work - n := entry];
      ghost var pre, post := OneParts(data[..], j, buf[n..]);
      ReplacedIn(pre, cur, post, work - n, entry);
      var _ := WriteBlock(cluster, buf[n..]);
      rc := NO_ERROR;
    }

    static lemma ReplacedIn(pre: seq<Slot>, cur: seq<Slot>, post: seq<Slot>, k: nat, x: Slot)
      requires k < |cur|
      ensures pre + cur[k := x] + post == (pre + cur + post)[|pre| + k := x]
    {
    }

    // ModifyDirectory with MODIFY_DIR_RENAME deletes the entry and starts over to insert
    // the new one, `mid` being the blocks by then. When the disk is full for that, the old
    // entry is gone all the same. A deletion that strays is not followed any further.
    method Rename(sought: Slot, group: seq<Slot>)
      returns (rc: nat, strays: bool, ghost e: nat, ghost run: nat, ghost at: nat, ghost mid: seq<seq<Slot>>)
      requires Valid() && Inside(data[..], chain) && WellFormedDir(Slots()) && Group(group)
      modifies `chain, data, vol, vol.fat, vol.fat.disk, vol.fat.window
      ensures Valid() && Inside(data[..], chain) && old(chain) <= chain
      ensures ZeroTail(old(Slots())) ==> ZeroTail(Slots())
      ensures strays <==> !old(NameNear(sought))
      ensures rc == ERROR_FILE_NOT_FOUND <==> NoTarget(old(Slots()), sought)
      ensures rc == 0 || rc == 2 || rc == 112
      ensures rc != ERROR_FILE_NOT_FOUND ==>
        e < |old(Slots())| &&
        var s := old(Slots())[e];
        && s.first != 0 && s.first != 0xE5 && s.attr != 15 && s.attr % 16 != 8
        && s.first == sought.first && s.name == sought.name
        && s.rest[8..10] == sought.rest[8..10] && s.rest[14..16] == sought.rest[14..16]
      ensures forall k :: 0 <= k < (if rc != ERROR_FILE_NOT_FOUND then e else |old(Slots())|) ==>
        var s := old(Slots())[k];
        !(s.first != 0 && s.first != 0xE5 && s.attr != 15 && s.attr % 16 != 8
          && s.first == sought.first && s.name == sought.name
          && s.rest[8..10] == sought.rest[8..10] && s.rest[14..16] == sought.rest[14..16])
      ensures rc == ERROR_FILE_NOT_FOUND ==> data[..] == old(data[..]) && chain == old(chain)
      ensures rc != ERROR_FILE_NOT_FOUND && !strays ==>
        && Sought(old(Slots()), e, sought, run) && run <= e < old(|Slots()|)
        && Inside(mid, old(chain)) && Sized(mid, old(chain), n)
        && Entries(mid, old(chain)) == RangeDeleted(old(Slots()), e - run, e)
        && var grow := Growth(mid, old(chain), n, |group|);
           && rc == (if |group| <= 2 * n && grow <= old(vol.free) then NO_ERROR else ERROR_DISK_FULL)
           && |chain| == |old(chain)| + (if rc == NO_ERROR then grow else old(vol.free))
           && if rc == NO_ERROR then Placed(Entries(mid, old(chain)), Slots(), group, at)
              else SameDir(Entries(mid, old(chain)), Slots())
      ensures Elsewhere(old(data[..]), data[..], chain)
    {
      hide Valid, Entries, NameNear, Sought, RangeDeleted, NoTarget, WellFormedDir, ZeroTail, Group, Growth, FreeCount;
      hide IsEntry, Inserted, Live;
      ghost var was := Slots();
      ChainInside();
      at := 0;
      ghost var from;
      rc, strays, e, run, from := Delete(sought);
      mid := data[..];
      if rc != NO_ERROR {
        return;
      }
      if strays {
        SoughtIs(was, e, sought, run);
        return;
      }
      SoughtRun(was, e, sought, run);
      SoughtIs(was, e, sought, run);
      StillWellFormed(was, e, sought, run);
      ChainInside();
      ghost var k;
      rc, at, k := Insert(group);
    }

    static lemma SoughtIs(ss: seq<Slot>, e: nat, sought: Slot, run: nat)
      requires Sought(ss, e, sought, run)
      ensures !NoTarget(ss, sought)
    {
    }

    static lemma StillWellFormed(ss: seq<Slot>, e: nat, sought: Slot, run: nat)
      requires WellFormedDir(ss) && Sought(ss, e, sought, run) && run <= e < |ss|
      ensures WellFormedDir(RangeDeleted(ss, e - run, e))
    {
      hide RunsOk, Trailing;
      GroupRemoved(ss, e - run, e);
    }
  }

  // A directory of one block of 16 live entries on a full disk. Renaming the first one to a
  // name that needs two slots fails, and the entry is gone.
  method LostEntry(dir: Directory, x: Slot, long: Slot, short: Slot) returns (rc: nat)
    requires dir.Valid() && dir.n == 16 && dir.chain == [2] && 2 < dir.data.Length && dir.vol.free == 0
    requires dir.data[2] == seq(16, _ => x) && IsTarget(x, x) && !LiveLong(x) && Group([long, short])
    modifies dir`chain, dir.data, dir.vol, dir.vol.fat, dir.vol.fat.disk, dir.vol.fat.window
    ensures rc == ERROR_DISK_FULL && dir.Valid() && Inside(dir.data[..], dir.chain)
    ensures Live(dir.Slots()) == seq(15, _ => x)
  {
    hide Directory.Valid, IsTarget, Group, Live, FreeCount, WellFormedDir, ZeroTail, RangeDeleted, Elsewhere;
    hide Directory.NameNear, Inserted, Trailing, Entries;
    dir.ChainInside();
    var ss := seq(16, _ => x);
    EntriesOne(dir.data[..], 2);
    assert dir.Slots() == ss;
    AllAlike(dir, x);
    var strays;
    ghost var e, run, at, mid;
    rc, strays, e, run, at, mid := dir.Rename(x, [long, short]);
    assert ss[0] == x;
    FirstOfAll(x, e, run);
    assert Entries(mid, [2]) == mid[2] by { EntriesOne(mid, 2); }
    OneDeleted(x);
  }

  // A directory of one kind of live entry is well formed.
  lemma AllAlike(dir: Directory, x: Slot)
    requires dir.Valid() && dir.n == 16 && Inside(dir.data[..], dir.chain) && dir.Slots() == seq(16, _ => x)
    requires IsTarget(x, x)
    ensures WellFormedDir(dir.Slots()) && dir.NameNear(x)
  {
    hide Directory.Valid, Entries;
    var ss := dir.Slots();
    assert forall k :: 0 <= k < |ss| ==> ss[k] == x;
    forall e: nat | e < |ss| ensures Trailing(ss[..e]) <= 16 {
    }
    dir.ShortNamesNear(x);
  }

  lemma FirstOfAll(x: Slot, e: nat, run: nat)
    requires Directory.Sought(seq(16, _ => x), e, x, run) && IsTarget(x, x)
    ensures e == 0 && run == 0
  {
    assert seq(16, _ => x)[0] == x;
  }

  lemma OneDeleted(x: Slot)
    requires IsTarget(x, x)
    ensures var r := RangeDeleted(seq(16, _ => x), 0, 0); FreeCount(r) == 1 && Live(r) == seq(15, _ => x)
  {
    var r := RangeDeleted(seq(16, _ => x), 0, 0);
    Cut(r, 1);
    AllFree(r[..1]);
    assert r[1..] == seq(15, _ => x);
    AllLive(r[1..]);
  }

  // Blocks of 16 slots and a long name of 20: the last four of twelve other entries' block
  // belong to it, and a deletion leaves them behind without an entry.
  method StrayDelete(dir: Directory, other: Slot, long: Slot, x: Slot) returns (strays: bool)
    requires dir.Valid() && dir.n == 16 && dir.chain == [2, 3, 4] && 4 < dir.data.Length
    requires dir.data[2] == seq(12, _ => other) + seq(4, _ => long) && dir.data[3] == seq(16, _ => long)
    requires dir.data[4] == [x] + seq(15, _ => other)
    requires LiveLong(long) && !LiveLong(other) && !IsTarget(other, x) && IsTarget(x, x)
    modifies dir.data, dir.vol.fat`current, dir.vol.fat.window
    ensures strays && dir.Valid() && Inside(dir.data[..], dir.chain)
    ensures !WellFormedDir(dir.Slots())
  {
    hide Directory.Valid, IsTarget, LiveLong, Trailing, Directory.NameNear, WellFormedDir;
    ghost var a, ss := StrayParts(dir, other, long, x);
    var rc;
    ghost var e, run, from;
    rc, strays, e, run, from := dir.Delete(x);
    assert rc == NO_ERROR by { Directory.SoughtIs(ss, 32, x, 20); }
    Directory.OneFirst(ss, x, e, 32);
    assert from == 16;
    Orphans(ss, long);
  }

  lemma StrayParts(dir: Directory, other: Slot, long: Slot, x: Slot) returns (a: seq<Slot>, ss: seq<Slot>)
    requires dir.Valid() && dir.n == 16 && dir.chain == [2, 3, 4] && 4 < dir.data.Length
    requires dir.data[2] == seq(12, _ => other) + seq(4, _ => long) && dir.data[3] == seq(16, _ => long)
    requires dir.data[4] == [x] + seq(15, _ => other)
    requires LiveLong(long) && !LiveLong(other) && !IsTarget(other, x) && IsTarget(x, x)
    ensures Inside(dir.data[..], dir.chain) && ss == dir.Slots() && |ss| == 48 && ss[15] == long
    ensures Directory.Sought(ss, 32, x, 20) && !dir.NameNear(x)
    ensures forall k: nat :: dir.BeginsBlock(k) ==> k == 0 || k == 16 || k == 32
  {
    hide Directory.Valid, IsTarget, Trailing, Directory.NameNear, Entries;
    dir.ChainInside();
    var d := dir.data[..];
    a := seq(12, _ => other);
    FirstBlocks(d, [2, 3, 4]);
    ss := dir.Slots();
    var b := seq(20, _ => long);
    assert ss == a + b + d[4];
    forall k | 0 <= k < 32 ensures !IsTarget(ss[k], x) {
      NoTargetLong(long, x);
    }
    assert ss[..32] == a + b;
    NoneTrailing(a);
    TrailingLong(a, long, 20);
    assert dir.chain[..2] == [2, 3] && dir.chain[..1] == [2] && dir.chain[..0] == [];
    dir.NearOne(x, 2, 0, 20);
  }

  lemma FirstBlocks(d: seq<seq<Slot>>, cs: seq<nat>)
    requires |cs| == 3 && Inside(d, cs) && |d[cs[0]]| == |d[cs[1]]| == 16
    ensures Entries(d, cs) == d[cs[0]] + d[cs[1]] + d[cs[2]]
    ensures |Entries(d, cs[..0])| == 0 && |Entries(d, cs[..1])| == 16 && |Entries(d, cs[..2])| == 32
  {
    Directory.UpTo(d, cs, 0);
    Directory.UpTo(d, cs, 1);
    Directory.UpTo(d, cs, 2);
    assert cs[..3] == cs && cs[..0] == [];
  }

  lemma NoTargetLong(s: Slot, x: Slot)
    requires LiveLong(s)
    ensures !IsTarget(s, x)
  {
  }

  lemma NoneTrailing(a: seq<Slot>)
    requires a != [] && !LiveLong(a[|a| - 1])
    ensures Trailing(a) == 0
  {
  }

  lemma {:induction false} TrailingLong(a: seq<Slot>, long: Slot, k: nat)
    requires LiveLong(long)
    ensures Trailing(a + seq(k, _ => long)) == Trailing(a) + k
  {
    var b := a + seq(k, _ => long);
    if k == 0 {
      assert b == a;
    } else {
      assert b[..|b| - 1] == a + seq(k - 1, _ => long);
      TrailingLong(a, long, k - 1);
    }
  }

  // A long-name slot with a deleted one behind it.
  lemma Orphans(ss: seq<Slot>, long: Slot)
    requires |ss| == 48 && ss[15] == long && LiveLong(long)
    ensures !WellFormedDir(RangeDeleted(ss, 16, 32))
  {
    var r := RangeDeleted(ss, 16, 32);
    assert r[15] == long && Free(r[16]);
    assert !RunAt(r, 15);
  }
}

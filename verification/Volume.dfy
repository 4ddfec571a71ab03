// The cluster allocator: it sees the FAT only through the one-block window and
// is specified on the flat FAT behind it.
module Volume {
  import opened Common
  import opened FatCodec
  import opened FatChains
  import opened FatTable
  import opened Division

  const FAT_ASSIGN_NEW: nat := 1

  class Volume {
    const fat: FatTable
    var free: nat       // pBootFSInfo->ulFreeClusters
    var next: nat       // pBootFSInfo->ulNextFreeCluster

    function Top(): nat { fat.total + 2 }

    function End(): nat { Eof(fat.kind) }

    // Between operations the window agrees with the disk.
    ghost predicate Valid()
      reads this, fat, fat.disk, fat.window
    {
      fat.Valid() && !fat.dirty && free < ULONG && WellFormed(fat.kind, fat.entries)
    }

    ghost function State(): FatState
      reads this, fat
    {
      FatState(fat.entries, free, next)
    }

    constructor (fat: FatTable, free: nat, next: nat)
      requires fat.Valid() && !fat.dirty && free < ULONG && WellFormed(fat.kind, fat.entries)
      ensures Valid() && this.fat == fat && State() == FatState(fat.entries, free, next)
    {
      this.fat := fat;
      this.free := free;
      this.next := next;
    }

    // Load the block of an entry if another one is in the window, then read it.
    method Peek(cluster: nat) returns (value: nat)
      requires fat.Valid() && !fat.dirty && cluster < Top()
      modifies fat`current, fat.window
      ensures fat.Valid() && fat.current == fat.BlockOf(cluster)
      ensures value == fat.entries[cluster]
    {
      hide FatTable.Backed, FatTable.Geometry, FatTable.BlockOf, FatTable.Blocks, FatCodec.Masked;
      fat.EntryInBlock(cluster);
      var block := fat.BlockOf(cluster);
      if block != fat.current {
        var _ := fat.ReadFatSector(block);
      }
      value := fat.GetFatEntry(cluster);
    }

    // The window-switching step of MakeChain and DeleteFatChain: write back before loading.
    method SwitchTo(cluster: nat)
      requires fat.Valid() && fat.current >= 0 && cluster < Top()
      modifies fat`current, fat`dirty, fat.disk, fat.window
      ensures fat.Valid() && fat.current == fat.BlockOf(cluster)
    {
      hide FatTable.Backed, FatTable.Geometry, FatTable.BlockOf, FatTable.Blocks, FatCodec.Masked;
      fat.EntryInBlock(cluster);
      var block := fat.BlockOf(cluster);
      if block != fat.current {
        var _ := fat.WriteFatSector(fat.current);
        var _ := fat.ReadFatSector(block);
      }
    }

    // GetNextCluster2: every end mark reads as the end mark.
    method GetNextCluster(cluster: nat) returns (r: nat)
      requires Valid() && cluster < Top()
      modifies fat`current, fat.window
      ensures Valid()
      ensures r == if EndMark(fat.kind, fat.entries[cluster]) then End() else fat.entries[cluster]
      ensures match fat.kind
        case Fat12 => r == if fat.entries[cluster] >= 0xFF8 then 0xFFF else fat.entries[cluster]
        case Fat16 => r == if fat.entries[cluster] >= 0xFFF8 then 0xFFFF else fat.entries[cluster]
        case Fat32 => r == if fat.entries[cluster] >= 0xFFF_FFF8 then 0xFFF_FFFF else fat.entries[cluster]
    {
      hide FatTable.Backed, FatTable.Geometry, FatTable.BlockOf, FatTable.Blocks, FatCodec.Masked;
      r := Peek(cluster);
      if Eof2(fat.kind) <= r <= Eof(fat.kind) {
        r := Eof(fat.kind);
      }
    }

    method ClusterInUse(cluster: nat) returns (used: bool)
      requires Valid()
      modifies fat`current, fat.window
      ensures Valid()
      ensures used == (cluster < Top() && fat.entries[cluster] != 0)
    {
      hide FatTable.Backed, FatTable.Geometry, FatTable.BlockOf, FatTable.Blocks, FatCodec.Masked;
      if cluster >= Top() {
        return false;
      }
      var r := GetNextCluster(cluster);
      used := r != 0;
    }

    // Recounts the free clusters: afterwards both FSInfo counters are exact.
    method GetFreeSpace() returns (count: nat)
      requires Valid()
      modifies this`free, this`next, fat`current, fat.window
      ensures Valid()
      ensures count == free == |FreeSet(fat.entries)|
      ensures if count == 0 then next == 0 else NextFree(fat.entries, 0, next)
    {
      hide FatTable.Backed, FatTable.Geometry, FatTable.BlockOf, FatTable.Blocks, FatCodec.Masked;
      count := 0;
      var first := 0;
      var c := 2;
      ghost var seen: set<nat> := {};
      while c < Top()
        invariant 2 <= c <= Top() && Valid()
        invariant seen == set x: nat | x < c && IsFree(fat.entries, x)
        invariant count == |seen| <= c
        invariant if first == 0 then seen == {} else 2 <= first < c && IsFree(fat.entries, first)
        invariant first in seen || first == 0
        invariant forall x :: 2 <= x < (if first == 0 then c else first) ==> !IsFree(fat.entries, x)
      {
        var used := ClusterInUse(c);
        if !used {
          seen := seen + {c};
          count := count + 1;
          if first == 0 {
            first := c;
          }
        }
        c := c + 1;
      }
      assert seen == FreeSet(fat.entries);
      free := count;
      next := first;
    }

    method GetFreeCluster() returns (r: nat)
      requires Valid()
      modifies fat`current, fat.window
      ensures Valid()
      ensures r == End() <==> free == 0 || FreeSet(fat.entries) == {}
      ensures r != End() ==> NextFree(fat.entries, next, r)
      ensures free > 0 && 2 <= next < Top() && fat.entries[next] == 0 ==> r == next
    {
      hide FatTable.Backed, FatTable.Geometry, FatTable.BlockOf, FatTable.Blocks, FatCodec.Masked;
      if free == 0 {
        return Eof(fat.kind);
      }
      if 2 <= next < Top() && fat.entries[next] == 0 { NextFreeAtHint(fat.entries, next, next); }
      var startAt2 := next == 0 || next >= Top();
      var c := if startAt2 then 2 else next;
      var start := if startAt2 then Top() else c;
      ghost var h := c;
      var used := ClusterInUse(c);
      while used
        invariant Valid() && 0 < c < Top() && used == (fat.entries[c] != 0)
        invariant !startAt2 ==> h <= c && forall i :: h <= i < c ==> !IsFree(fat.entries, i)
        invariant startAt2 && start == Top() ==> forall i :: 2 <= i < c ==> !IsFree(fat.entries, i)
        invariant startAt2 && start < Top() ==>
          start == h && (c <= h || (h == 1 && c == 2)) && forall i :: 2 <= i < c || h <= i < Top() ==>
              !IsFree(fat.entries, i)
        decreases if startAt2 then 0 else 1, Top() - c
      {
        c := c + 1;
        if startAt2 && c >= start {
          assert FreeSet(fat.entries) == {};
          return Eof(fat.kind);
        }
        if c >= Top() {
          if !startAt2 {
            c := 2;
            startAt2 := true;
          } else {
            assert false;
          }
        }
        used := ClusterInUse(c);
      }
      r := c;
      assert c in FreeSet(fat.entries);
      if 2 <= next < Top() && fat.entries[next] == 0 { NextFreeAtHint(fat.entries, next, c); }
    }

    // SetNextCluster with both arguments given: store the link and account for a
    // cluster that leaves or enters the free pool.
    static ghost function Stored(t: FatType, s: FatState, cluster: nat, value: nat): FatState
      requires cluster < |s.f|
    {
      var v := Masked(t, value);
      FatState(s.f[cluster := v],
               if s.f[cluster] != 0 && value == 0 then (s.free + 1) % ULONG
               else if s.f[cluster] == 0 && value != 0 then (s.free + ULONG - 1) % ULONG
               else s.free,
               if s.f[cluster] == 0 && value != 0 then cluster + 1 else s.next)
    }

    method StoreLink(cluster: nat, value: nat)
      requires Valid() && 2 <= cluster < Top()
      requires value < Top() || Bad(fat.kind) <= value <= End()
      modifies this, fat, fat.disk, fat.window
      ensures Valid() && State() == Stored(fat.kind, old(State()), cluster, value)
    {
      hide FatTable.Backed, FatTable.Geometry, FatTable.BlockOf, FatTable.Blocks, FatCodec.Masked;
      fat.EntryInBlock(cluster);
      var _ := fat.ReadFatSector(fat.BlockOf(cluster));
      var was := fat.GetFatEntry(cluster);
      if was != 0 && value == 0 {
        free := (free + 1) % ULONG;
      }
      if was == 0 && value != 0 {
        next := cluster + 1;
        free := (free + ULONG - 1) % ULONG;
      }
      fat.SetFatEntry(cluster, value);
      var _ := fat.WriteFatSector(fat.BlockOf(cluster));
    }

    static lemma StoredIs(t: FatType, s: FatState, cluster: nat, value: nat)
      requires cluster < |s.f| && value <= Eof(t) && s.free < ULONG
      ensures var s', was := Stored(t, s, cluster, value), s.f[cluster];
        && s'.f == s.f[cluster := value]
        && ((was == 0) == (value == 0) ==> s'.free == s.free && s'.next == s.next)
        && (was != 0 && value == 0 ==> s'.next == s.next && s'.free == if s.free == 0xFFFF_FFFF then 0 else s.free + 1)
        && (was == 0 && value != 0 ==>
              s'.next == cluster + 1 && s'.free == if s.free == 0 then 0xFFFF_FFFF else s.free - 1)
    {
    }

    // SetNextCluster. FAT_ASSIGN_NEW as the cluster starts a chain of one free
    // cluster; FAT_ASSIGN_NEW as the value extends a chain by one free cluster.
    method SetNextCluster(cluster: nat, value: nat) returns (r: nat)
      requires Valid()
      requires cluster == FAT_ASSIGN_NEW || 2 <= cluster < Top()
      requires cluster != FAT_ASSIGN_NEW ==> value < Top() || Bad(fat.kind) <= value <= End()
      modifies this, fat, fat.disk, fat.window
      ensures Valid()
      ensures cluster != FAT_ASSIGN_NEW && value != FAT_ASSIGN_NEW ==>
        && r == value && State() == Stored(fat.kind, old(State()), cluster, value)
        && fat.entries == old(fat.entries)[cluster := value]
        && ((old(fat.entries)[cluster] == 0) == (value == 0) ==> free == old(free) && next == old(next))
        && (old(fat.entries)[cluster] != 0 && value == 0 ==>
              next == old(next) && free == if old(free) == 0xFFFF_FFFF then 0 else old(free) + 1)
        && (old(fat.entries)[cluster] == 0 && value != 0 ==>
              next == cluster + 1 && free == if old(free) == 0 then 0xFFFF_FFFF else old(free) - 1)
      ensures cluster == FAT_ASSIGN_NEW || value == FAT_ASSIGN_NEW ==>
        (r == End() <==> old(free) == 0 || FreeSet(old(fat.entries)) == {})
      ensures (cluster == FAT_ASSIGN_NEW || value == FAT_ASSIGN_NEW) && r == End() ==> State() == old(State())
      ensures (cluster == 1 || value == 1) && r != End() ==> r < Top() && IsFree(old(fat.entries), r)
      ensures (cluster == FAT_ASSIGN_NEW || value == FAT_ASSIGN_NEW) && r != End() ==>
        && NextFree(old(fat.entries), old(next), r)
        && var s := FatState(old(fat.entries)[r := End()], old(free) - 1, r + 1);
           && State() == (if cluster == FAT_ASSIGN_NEW then s else Stored(fat.kind, s, cluster, r))
           && (cluster != FAT_ASSIGN_NEW && old(fat.entries)[cluster] != 0 ==>
                 State() == FatState(s.f[cluster := r], s.free, s.next))
      decreases cluster != FAT_ASSIGN_NEW && value == FAT_ASSIGN_NEW
    {
      hide FatTable.Backed, FatTable.Geometry, FatTable.BlockOf, FatTable.Blocks, FatCodec.Masked;
      var c, v := cluster, value;
      r := value;
      if c == FAT_ASSIGN_NEW {
        c := GetFreeCluster();
        if c == Eof(fat.kind) {
          return Eof(fat.kind);
        }
        r := c;
        v := Eof(fat.kind);
      } else if v == FAT_ASSIGN_NEW {
        v := SetNextCluster(FAT_ASSIGN_NEW, Eof(fat.kind));
        if v == Eof(fat.kind) {
          return Eof(fat.kind);
        }
        r := v;
      }
      StoredIs(fat.kind, State(), c, v);
      StoreLink(c, v);
    }

    // `g` is `f` with the free clusters before the first used one of the run linked.
    static ghost predicate HalfLinked(f: Fat, g: Fat, first: nat, size: nat)
      requires first + size <= |f| == |g|
    {
      exists k: nat :: k < size && f[first + k] != 0 && FreeRun(f, first, k) && LinkedUpTo(f, g, first, first + k)
    }

    static ghost predicate LinkedUpTo(f: Fat, g: Fat, first: nat, end: nat)
      requires end <= |f| == |g|
    {
      forall c :: 0 <= c < |f| ==> g[c] == if first <= c < end then c + 1 else f[c]
    }

    // MakeChain: link the run of `size` clusters from `first`. It re-reads every
    // entry and gives up at the first one in use, the entries before it linked. A run
    // of no clusters is linked like one of one cluster, but not counted.
    method MakeChain(first: nat, size: nat) returns (rc: nat)
      requires Valid() && 2 <= first && first + Linked(size) <= Top() && size < ULONG
      modifies this, fat, fat.disk, fat.window
      ensures fat.Valid()
      ensures rc == NO_ERROR <==> FreeRun(old(fat.entries), first, Linked(size))
      ensures rc == 0 || rc == 27
      ensures rc == NO_ERROR ==>
        && Valid() && fat.entries == LinkRun(fat.kind, old(fat.entries), first, Linked(size))
        && next == first + Linked(size)
        && free == if size <= old(free) then old(free) - size else old(free) + ULONG - size
      ensures rc != NO_ERROR ==>
        free == old(free) && next == old(next) && HalfLinked(old(fat.entries), fat.entries, first, Linked(size))
    {
      hide FatTable.Backed, FatTable.Geometry, FatTable.BlockOf, FatTable.Blocks, FatCodec.Masked;
      var last: int := first + size - 1;
      ghost var was := fat.entries;
      var _ := Peek(first);
      var c := first;
      while c < last
        invariant first <= c && (c <= last || c == first) && fat.Valid() && fat.current >= 0
        invariant FreeRun(was, first, c - first) && LinkedUpTo(was, fat.entries, first, c)
        invariant free == old(free) && next == old(next)
      {
        SwitchTo(c);
        var entry := fat.GetFatEntry(c);
        if entry != 0 {
          assert was[first + (c - first)] != 0;
          return ERROR_SECTOR_NOT_FOUND;
        }
        fat.SetFatEntry(c, c + 1);
        c := c + 1;
      }
      SwitchTo(c);
      var entry := fat.GetFatEntry(c);
      if entry != 0 {
        assert was[first + (c - first)] != 0;
        return ERROR_SECTOR_NOT_FOUND;
      }
      fat.SetFatEntry(c, Eof(fat.kind));
      var _ := fat.WriteFatSector(fat.current);
      next := c + 1;
      free := if size <= free then free - size else free + ULONG - size;
      assert fat.entries == LinkRun(fat.kind, was, first, Linked(size));
      rc := NO_ERROR;
    }

    // How many entries MakeChain links.
    static function Linked(size: nat): nat { if size == 0 then 1 else size }

    // One cluster of DeleteFatChain: its entry is zeroed, and what it held is next.
    method TakeOut(c: nat) returns (following: nat)
      requires fat.Valid() && fat.current >= 0 && c < Top()
      modifies fat`current, fat`dirty, fat`entries, fat.disk, fat.window
      ensures fat.Valid() && fat.current >= 0
      ensures following == old(fat.entries)[c] && fat.entries == old(fat.entries)[c := 0]
      ensures following != 0 ==>
        NonZero(fat.entries) == NonZero(old(fat.entries)) - {c} && c in NonZero(old(fat.entries))
      ensures following == 0 ==> fat.entries == old(fat.entries)
    {
      hide FatTable.Backed, FatTable.Geometry, FatTable.BlockOf, FatTable.Blocks;
      SwitchTo(c);
      following := fat.GetFatEntry(c);
      fat.SetFatEntry(c, 0);
    }

    // DeleteFatChain. The walk is DeleteFrom's; the count wraps like a ULONG.
    method DeleteFatChain(cluster: nat) returns (ok: bool)
      requires Valid()
      modifies this`free, fat, fat.disk, fat.window
      ensures fat.Valid() && !fat.dirty && free < ULONG
      ensures ok == (cluster == 0 || 2 <= cluster < Top())
      ensures cluster < 2 || cluster >= Top() ==> State() == old(State())
      ensures 2 <= cluster < Top() ==>
        var d := DeleteFrom(fat.kind, old(fat.entries), cluster);
        State() == FatState(d.f, (old(free) + d.freed) % ULONG, old(next))
    {
      hide FatTable.Backed, FatTable.Geometry, FatTable.BlockOf, FatTable.Blocks, FatCodec.Masked;
      if cluster == 0 {
        return true;
      }
      if !(cluster >= 2 && cluster < Top()) {
        return false;
      }
      var c: nat := cluster;
      ghost var goal := DeleteFrom(fat.kind, fat.entries, c);
      fat.EntryInBlock(c);
      var _ := fat.ReadFatSector(fat.BlockOf(c));
      var freed := 0;
      while !(Eof2(fat.kind) <= c <= Eof(fat.kind))
        invariant fat.Valid() && fat.current >= 0 && free == old(free) && next == old(next)
        invariant forall i :: 0 <= i < Top() ==> fat.entries[i] < Top() || Bad(fat.kind) <= fat.entries[i] <= End()
        invariant c < Top() || Bad(fat.kind) <= c <= End()
        invariant var d := DeleteFrom(fat.kind, fat.entries, c);
          goal == d.(freed := freed + d.freed)
        decreases NonZero(fat.entries), if c == 0 then 0 else 1
      {
        if c == 0 || c == Bad(fat.kind) {
          break;
        }
        var following := TakeOut(c);
        freed := freed + 1;
        c := following;
      }
      var _ := fat.WriteFatSector(fat.current);
      free := (free + freed) % ULONG;
      ok := true;
    }

    // The loop of MakeFatChain that skips to the next free cluster.
    method SkipUsed(from: nat) returns (c: nat)
      requires Valid() && 2 <= from
      modifies fat`current, fat.window
      ensures Valid()
      ensures from <= c && (c >= Top() || fat.entries[c] == 0)
      ensures from <= Top() ==> c <= Top()
      ensures NoLonger(fat.entries, from, c, 0)
    {
      hide FatTable.Backed, FatTable.Geometry, FatTable.BlockOf, FatTable.Blocks;
      c := from;
      var entry := 1;
      while c < Top() && entry != 0
        invariant from <= c && Valid() && (from <= Top() ==> c <= Top())
        invariant entry == 0 ==> c < Top() && fat.entries[c] == 0
        invariant forall i :: from <= i < c && i < Top() ==> fat.entries[i] != 0
        decreases Top() - c, entry
      {
        entry := Peek(c);
        if entry != 0 {
          entry := 1;
          c := c + 1;
        }
      }
      forall s: nat, l: nat | from <= s < c && FreeRun(fat.entries, s, l) ensures l <= 0 {
        RunStops(fat.entries, s, l, s);
      }
    }

    // The search of MakeFatChain: from the hint to the end, then from cluster 2 up
    // to the hint. It stops at the first run of `n` free clusters; otherwise it has
    // seen every free run and returns the earliest of the longest ones.
    method SearchRun(n: nat) returns (fit: bool, start: nat, len: nat)
      requires Valid() && n > 0
      modifies fat`current, fat.window
      ensures Valid()
      ensures FreeRun(fat.entries, start, len)
      ensures fit ==> len == n
      ensures !fit ==> len < n && LongestFree(fat.entries, len)
      ensures len > 0 ==> FirstFit(fat.entries, next, len, start)
    {
      hide FatTable.Backed, FatTable.Geometry, FatTable.BlockOf, FatTable.Blocks;
      var startAt2 := next < 2 || next >= Top();
      var first := if startAt2 then 2 else next;
      ghost var h := first;
      var stop := if startAt2 then Top() + 1 else first;
      start, len := 2, 0;
      while true
        invariant Valid() && 2 <= first <= Top() && 2 <= h < Top()
        invariant !startAt2 ==> stop == h
        invariant startAt2 ==> stop == h || (stop == Top() + 1 && h == 2)
        invariant FreeRun(fat.entries, start, len) && len < n
        invariant len > 0 ==> FirstFit(fat.entries, next, len, start)
        invariant !startAt2 ==> h <= first && NoLonger(fat.entries, h, first, len)
        invariant startAt2 ==> NoLonger(fat.entries, 2, first, len)
        invariant startAt2 && stop == h ==> NoLonger(fat.entries, h, Top(), len)
        decreases if startAt2 then 0 else 1, Top() - first
      {
        var from := first;
        first := SkipUsed(first);
        assert startAt2 ==> NoLonger(fat.entries, 2, first, len);
        if startAt2 && first >= stop {
          break;
        }
        if first >= Top() {
          if startAt2 {
            break;
          }
          first := 2;
          startAt2 := true;
          continue;
        }
        var end := RunEnd(first, n);
        if end == first + n {
          return true, first, n;
        }
        if end - first > len {
          start, len := first, end - first;
        }
        first := end;
      }
      fit := false;
    }

    // The loop of MakeFatChain that measures a free run, up to `n` clusters.
    method RunEnd(first: nat, n: nat) returns (end: nat)
      requires Valid() && 2 <= first < Top() && n > 0 && fat.entries[first] == 0
      modifies fat`current, fat.window
      ensures Valid()
      ensures first < end <= first + n && end <= Top()
      ensures FreeRun(fat.entries, first, end - first)
      ensures end < first + n ==> NoLonger(fat.entries, first, end, end - first)
    {
      hide FatTable.Backed, FatTable.Geometry, FatTable.BlockOf, FatTable.Blocks;
      end := first;
      var entry := 0;
      while end < first + n && end < Top() && entry == 0
        invariant first <= end <= first + n && end <= Top() && Valid()
        invariant FreeRun(fat.entries, first, end - first)
        invariant entry != 0 ==> end < Top() && entry == fat.entries[end]
        decreases Top() - end, entry == 0
      {
        entry := Peek(end);
        if entry == 0 {
          end := end + 1;
        }
      }
      if end < first + n {
        forall s: nat, l: nat | first <= s < end && FreeRun(fat.entries, s, l) ensures l <= end - first {
          RunStops(fat.entries, s, l, end);
        }
      }
    }

    // One round of MakeFatChain: link the run just found and hang it on `prev`.
    method TakeRun(prev: nat, start: nat, len: nat)
      requires Valid() && 0 < len <= free && FreeRun(fat.entries, start, len)
      requires prev == End() || (2 <= prev < Top() && fat.entries[prev] != 0)
      modifies this, fat, fat.disk, fat.window
      ensures Valid() && free == old(free) - len && next == start + len
      ensures Appended(fat.kind, old(fat.entries), fat.entries, prev, RunClusters(Run(start, len)))
    {
      hide FatTable.Backed, FatTable.Geometry, FatTable.BlockOf, FatTable.Blocks;
      RunAppended(fat.kind, fat.entries, prev, start, len);
      var rc := MakeChain(start, len);
      if prev != Eof(fat.kind) {
        var _ := SetNextCluster(prev, start);
      }
    }

    // A successful MakeFatChain: exactly `n` clusters that were free, in the order the
    // rounds took them, linked behind `prev`, and both counters moved along.
    static ghost predicate Allocated(t: FatType, s: FatState, s': FatState, prev: nat, n: nat, runs: seq<Run>,
                                     first: nat, last: nat) {
      var cs := Flat(runs);
      && Rounds(s.f, s.next, runs) && |cs| == n
      && Appended(t, s.f, s'.f, prev, cs)
      && first == cs[0] && last == cs[n - 1]
      && s'.free == s.free - n && s'.next == last + 1
    }

    // One round of MakeFatChain: search, link, and hang the run on `tail`.
    method TakeRound(n: nat, tail: nat, ghost f0: Fat, ghost next0: nat, ghost prev: nat, ghost cs: seq<nat>,
                     ghost runs: seq<Run>)
      returns (fit: bool, start: nat, len: nat)
      requires Valid() && 0 < n <= free && |f0| <= Bad(fat.kind)
      requires Progress(fat.kind, f0, next0, fat.entries, prev, tail, cs, runs) && next == HintAfter(next0, runs)
      requires prev == End() || (2 <= prev < |f0| && f0[prev] != 0)
      modifies this, fat, fat.disk, fat.window
      ensures Valid() && len <= n && (fit <==> len == n)
      ensures len == 0 ==> FreeSet(fat.entries) == {} && State() == old(State())
      ensures len > 0 ==>
        && start != End() && free == old(free) - len && next == start + len
        && Appended(fat.kind, f0, fat.entries, prev, cs + RunClusters(Run(start, len)))
        && Rounds(f0, next0, runs + [Run(start, len)])
        && Flat(runs + [Run(start, len)]) == cs + RunClusters(Run(start, len))
      ensures len > 0 ==> next == HintAfter(next0, runs + [Run(start, len)])
      ensures runs == [] && !fit ==> LongestFree(f0, n - 1)
      ensures 0 < len < n ==>
        Progress(fat.kind, f0, next0, fat.entries, prev, start + len - 1, cs + RunClusters(Run(start, len)),
            runs + [Run(start, len)])
    {
      hide FatTable.Backed, FatTable.Geometry, FatTable.BlockOf, FatTable.Blocks;
      hide Progress, Rounds, Flat, Appended, HintAfter;
      ProgressTail(fat.kind, f0, next0, fat.entries, prev, tail, cs, runs);
      if runs == [] { ProgressNone(fat.kind, f0, next0, fat.entries, prev, tail, cs); }
      fit, start, len := SearchRun(n);
      HintStep(next0, runs, Run(start, len));
      if len == 0 {
        NothingFree(fat.entries);
      } else {
        ghost var f := fat.entries;
        TakeRun(tail, start, len);
        ProgressStep(fat.kind, f0, next0, f, fat.entries, prev, tail, cs, runs, Run(start, len));
      }
    }

    // MakeFatChain: take a run of all `requested` clusters if there is one, else the
    // longest free run, and again for the rest; `runs` records what was taken.
    method MakeFatChain(prev: nat, requested: nat, lastIn: nat) returns (first: nat, last: nat, ghost runs: seq<Run>)
      requires Valid()
      requires prev == End() || (2 <= prev < Top() && fat.entries[prev] != 0)
      modifies this, fat, fat.disk, fat.window
      ensures Valid()
      ensures first != End() <==> 0 < requested <= old(free) && requested <= |FreeSet(old(fat.entries))|
      ensures first != End() ==> Allocated(fat.kind, old(State()), State(), prev, requested, runs, first, last)
      ensures first == End() ==> last == lastIn && free == old(free)
      ensures first == End() && runs == [] ==> State() == old(State())
      ensures first == End() && runs != [] ==>
        && Rounds(old(fat.entries), old(next), runs)
        && fat.entries == if prev == End() then old(fat.entries) else old(fat.entries)[prev := runs[0].start]
      // Where the rounds search: the first from the old hint, every other from the end of the
      // run before; each takes the first run of its length there, and only the last one may
      // leave a longer one. Clusters free at the hint are taken at the hint.
      ensures first != End() ==> first == runs[0].start && next == last + 1
      ensures runs != [] ==> runs[0].len > 0 && FirstFit(old(fat.entries), old(next), runs[0].len, runs[0].start)
      ensures forall i :: 0 < i < |runs| ==> runs[i].len > 0 && FirstFit(
        FatChains.Taken(old(fat.entries), Flat(runs[..i])), runs[i - 1].start + runs[i - 1].len, runs[i].len,
        runs[i].start)
      ensures forall i :: 0 <= i < |runs| - 1 ==>
        LongestFree(FatChains.Taken(old(fat.entries), Flat(runs[..i])), runs[i].len)
      ensures first != End() && |runs| == 1 ==> FirstFit(old(fat.entries), old(next), requested, first)
      ensures
        (&& 0 < requested <= old(free) && 2 <= old(next) && old(next) + requested <= Top()
         && forall c :: old(next) <= c < old(next) + requested ==> old(fat.entries)[c] == 0)
        ==> first == old(next)
      ensures runs == [] <==> requested == 0 || old(free) < requested || FreeSet(old(fat.entries)) == {}
    {
      hide FatTable.Backed, FatTable.Geometry, FatTable.BlockOf, FatTable.Blocks;
      hide Progress, Rounds, Round, Flat, Appended, FreeSet, WellFormed, RunClusters, FirstFit, LongestFree, HintAfter;
      first, last, runs := Eof(fat.kind), lastIn, [];
      if requested == 0 || free < requested {
        return;
      }
      ghost var f0, next0 := fat.entries, next;
      ghost var cs: seq<nat> := [];
      ProgressStart(fat.kind, f0, next, prev);
      HintStep(next, [], Run(0, 0));
      var tail, n := prev, requested;
      while true
        invariant Valid() && n > 0 && |cs| + n == requested && free == old(free) - |cs|
        invariant Progress(fat.kind, f0, next0, fat.entries, prev, tail, cs, runs) && next == HintAfter(next0, runs)
        invariant runs != [] ==> LongestFree(f0, requested - 1)
        invariant if runs == [] then cs == [] && State() == old(State()) && first == End()
                  else (
                    && cs != [] && first == cs[0] == runs[0].start && first != End() && Rounds(f0, next0, runs)
                    && Appended(fat.kind, f0, fat.entries, prev, cs))
        decreases n
      {
        var fit, start, len := TakeRound(n, tail, f0, next0, prev, cs, runs);
        if len == 0 {
          break;
        }
        cs, runs := cs + RunClusters(Run(start, len)), runs + [Run(start, len)];
        if first == Eof(fat.kind) {
          first := start;
        }
        if fit {
          last := start + n - 1;
          AppendedFreeSet(fat.kind, f0, fat.entries, prev, cs);
          Searched(f0, next0, requested, runs);
          return;
        }
        tail := start + len - 1;
        n := n - len;
      }
      NotAtHint(f0, next0, requested);
      if first != Eof(fat.kind) {
        RoundsAre(f0, next0, runs);
        AppendedFreeSet(fat.kind, f0, fat.entries, prev, cs);
        Rollback(first, f0, prev, cs);
        first := Eof(fat.kind);
      }
    }

    // Where the rounds of an allocation have searched.
    lemma Searched(f: Fat, next: nat, n: nat, runs: seq<Run>)
      requires Rounds(f, next, runs) && |Flat(runs)| == n > 0 && (|runs| == 1 || LongestFree(f, n - 1))
      ensures runs[0].len > 0 && FirstFit(f, next, runs[0].len, runs[0].start)
      ensures forall i :: 0 < i < |runs| ==> runs[i].len > 0 && FirstFit(
        FatChains.Taken(f, Flat(runs[..i])), runs[i - 1].start + runs[i - 1].len, runs[i].len, runs[i].start)
      ensures forall i :: 0 <= i < |runs| - 1 ==> LongestFree(FatChains.Taken(f, Flat(runs[..i])), runs[i].len)
      ensures |runs| == 1 ==> FirstFit(f, next, n, runs[0].start)
      ensures
        (2 <= next && next + n <= |f| && forall c :: next <= c < next + n ==> f[c] == 0) ==> runs[0].start == next
    {
      hide Rounds, FirstFit, LongestFree, FatChains.Taken;
      RoundsAre(f, next, runs);
      if |runs| == 1 {
        assert runs[..0] == [] && Flat(runs) == Flat(runs[..0]) + RunClusters(runs[0]);
        if 2 <= next && next + n <= |f| && forall c :: next <= c < next + n ==> f[c] == 0 {
          AtHint(f, next, n, runs[0].start);
        }
      } else {
        NotAtHint(f, next, n);
      }
    }

    // The error exit of MakeFatChain deletes what it had built.
    method Rollback(first: nat, ghost f0: Fat, ghost prev: nat, ghost cs: seq<nat>)
      requires Valid() && WellFormed(fat.kind, f0) && Appended(fat.kind, f0, fat.entries, prev, cs)
      requires first == cs[0] && free + |cs| < ULONG
      modifies this`free, fat, fat.disk, fat.window
      ensures Valid() && free == old(free) + |cs|
      ensures fat.entries == if prev == End() then f0 else f0[prev := first]
    {
      hide FatTable.Backed, FatTable.Geometry, FatTable.BlockOf, FatTable.Blocks;
      AppendedIsChain(fat.kind, f0, fat.entries, prev, cs);
      AppendedCleared(fat.kind, f0, fat.entries, prev, cs);
      DeleteChain(fat.kind, fat.entries, cs);
      hide Appended, DeleteFrom;
      var _ := DeleteFatChain(first);
    }

    // SeekToCluster: follow the chain one cluster for every whole cluster before `position`.
    method SeekToCluster(cluster: nat, position: nat, clusterSize: nat, ghost cs: seq<nat>) returns (r: nat)
      requires Valid() && clusterSize > 0
      requires IsChain(fat.kind, fat.entries, cs) && cluster == cs[0]
      modifies fat`current, fat.window
      ensures Valid()
      ensures r == if Quot(position, clusterSize) < |cs| then cs[Quot(position, clusterSize)] else End()
    {
      hide FatTable.Backed, FatTable.Geometry, FatTable.BlockOf, FatTable.Blocks;
      var left: nat := position;
      ghost var i: nat := 0;
      r := cluster;
      while r != Eof(fat.kind) && left >= clusterSize
        invariant Valid() && i <= |cs| && r == if i < |cs| then cs[i] else End()
        invariant Quot(position, clusterSize) == i + Quot(left, clusterSize)
        decreases left
      {
        r := Peek(r);
        if Eof2(fat.kind) <= r <= Eof(fat.kind) {
          r := Eof(fat.kind);
        }
        left := left - clusterSize;
        i := i + 1;
      }
    }

    // GetLastCluster
    method GetLastCluster(cluster: nat, ghost cs: seq<nat>) returns (r: nat)
      requires Valid()
      requires cluster == 0 || (IsChain(fat.kind, fat.entries, cs) && cluster == cs[0])
      modifies fat`current, fat.window
      ensures Valid()
      ensures r == if cluster == 0 then End() else cs[|cs| - 1]
    {
      hide FatTable.Backed, FatTable.Geometry, FatTable.BlockOf, FatTable.Blocks;
      if cluster == 0 {
        return Eof(fat.kind);
      }
      var c := cluster;
      ghost var i := 0;
      r := c;
      while c != Eof(fat.kind)
        invariant Valid() && i < |cs| && c == cs[i]
        decreases |cs| - i
      {
        r := c;
        c := GetNextCluster(c);
        assert i < |cs| - 1 ==> fat.entries[cs[i]] == cs[i + 1];
        if Eof2(fat.kind) <= c <= Eof(fat.kind) {
          break;
        }
        i := i + 1;
      }
    }

    // GetChainSize
    method GetChainSize(cluster: nat, ghost cs: seq<nat>) returns (count: nat)
      requires Valid()
      requires cluster == 0 || (IsChain(fat.kind, fat.entries, cs) && cluster == cs[0])
      modifies fat`current, fat.window
      ensures Valid()
      ensures count == if cluster == 0 then 0 else |cs|
    {
      hide FatTable.Backed, FatTable.Geometry, FatTable.BlockOf, FatTable.Blocks;
      var c := cluster;
      count := 0;
      while c != 0 && c != Eof(fat.kind)
        invariant Valid() && (cluster == 0 ==> count == 0 && c == 0)
        invariant cluster != 0 ==> count <= |cs| && c == if count < |cs| then cs[count] else End()
        decreases if cluster == 0 then 0 else |cs| - count
      {
        c := GetNextCluster(c);
        count := count + 1;
      }
    }
  }

  // Cluster 2 is free, and a deletion from it counts it once more.
  method FreedTwice(v: Volume)
    requires v.Valid() && v.fat.kind == Fat16 && v.fat.entries == [0xFFF8, 0xFFFF, 0] && v.free == 1
    modifies v, v.fat, v.fat.disk, v.fat.window
    ensures v.fat.entries == old(v.fat.entries) && v.free == 2 && FreeSet(v.fat.entries) == {2}
  {
    hide FatTable.Backed, FatTable.Geometry, FatTable.BlockOf, FatTable.Blocks;
    var f: Fat := [0xFFF8, 0xFFFF, 0];
    assert f[2 := 0] == f;
    assert DeleteFrom(Fat16, f, 2) == Deletion(f, 1, false);
    var _ := v.DeleteFatChain(2);
  }

  // The counter says two clusters are free, one is. Extending the chain of cluster 2 by
  // two takes cluster 3, fails, and leaves cluster 2 linked to the deleted cluster.
  method DanglingLink(v: Volume) returns (first: nat)
    requires v.Valid() && v.fat.kind == Fat16 && v.fat.entries == [0xFFF8, 0xFFFF, 0xFFFF, 0] && v.free == 2
    modifies v, v.fat, v.fat.disk, v.fat.window
    ensures first == v.End() && v.free == 2
    ensures v.fat.entries == [0xFFF8, 0xFFFF, 3, 0] && IsFree(v.fat.entries, 3)
  {
    hide FatTable.Backed, FatTable.Geometry, FatTable.BlockOf, FatTable.Blocks, Volume.Allocated, WellFormed;
    var f: Fat := [0xFFF8, 0xFFFF, 0xFFFF, 0];
    assert 3 in FreeSet(f);
    assert FreeSet(f) == {3};
    var last;
    ghost var runs, next := [], v.next;
    first, last, runs := v.MakeFatChain(2, 2, 0);
    FirstTaken(f, next, runs);
    assert f[2 := 3] == [0xFFF8, 0xFFFF, 3, 0];
  }

  lemma FirstTaken(f: Fat, next: nat, runs: seq<Run>)
    requires Rounds(f, next, runs)
    ensures FreeRun(f, runs[0].start, 1)
  {
    RoundsAre(f, next, runs);
  }
}

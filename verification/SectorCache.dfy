// The sector cache of ifscache.c over its arrays. Each operation is specified by
// what it does to the logical contents of the disks; the ghost fields say which
// lists the arrays encode.
module SectorCache {
  import opened Common
  import opened CacheModel
  import opened CacheOrder
  import opened CacheRow

  // What matters to a transfer to one drive, before it.
  datatype Before = Before(logical: Disks, disk: Disks, stale: set<Key>, dirty: iset<nat>, copies: imap<Key, Sector>,
                           row: Row, pace: Pace)

  // What a read returns: the cached copies if every sector has one, else the contents up
  // to where the drive is flushed and the device's from there on.
  ghost predicate Returned(b: Before, d: nat, s: nat, n: nat, hit: bool, flushedAt: nat, buf: seq<Sector>) {
    && |buf| == n && d in b.logical && d in b.disk && s + n <= |b.logical[d]| == |b.disk[d]|
    && if hit then forall x: nat :: s <= x < s + n ==> (d, x) in b.copies && buf[x - s] == b.copies[(d, x)]
       else forall x: nat :: s <= x < s + n ==>
              buf[x - s] == if x < s + flushedAt then b.logical[d][x] else b.disk[d][x]
  }

  lemma ReturnedAt(b: Before, d: nat, s: nat, n: nat, hit: bool, flushedAt: nat, buf: seq<Sector>, x: nat)
    requires Returned(b, d, s, n, hit, flushedAt, buf) && s <= x < s + n
    ensures |buf| == n && d in b.logical && d in b.disk && x < |b.logical[d]| == |b.disk[d]|
    ensures hit ==> (d, x) in b.copies && buf[x - s] == b.copies[(d, x)]
    ensures !hit ==> buf[x - s] == if x < s + flushedAt then b.logical[d][x] else b.disk[d][x]
  {
  }

  // It is what the sectors contain if and only if the copies are up to date, or the device
  // is behind the flush.
  lemma ReturnsContents(b: Before, d: nat, s: nat, n: nat, hit: bool, flushedAt: nat, buf: seq<Sector>)
    requires Returned(b, d, s, n, hit, flushedAt, buf)
    ensures buf == b.logical[d][s..s + n] <==>
      if hit then forall x: nat :: s <= x < s + n ==> b.copies[(d, x)] == b.logical[d][x]
      else forall x: nat :: s + flushedAt <= x < s + n ==> b.disk[d][x] == b.logical[d][x]
  {
    var l := b.logical[d][s..s + n];
    if buf == l {
      forall x: nat | s <= x < s + n ensures buf[x - s] == b.logical[d][x] {
        assert l[x - s] == b.logical[d][x];
      }
    } else {
      var i :| 0 <= i < n && buf[i] != l[i];
      var x := s + i;
      assert buf[x - s] != b.logical[d][x];
    }
  }

  class SectorCache {
    const size: nat                  // f32Parms.usCacheSize
    const threshold: nat             // f32Parms.usDirtyTreshold
    const base: array<Base>          // pCacheBase
    const base2: array<Base2>        // pCacheBase2
    const slot: array<nat>           // rgSlot
    const dirty: array<bool>         // rgfDirty
    const data: array<Sector>        // the cached sectors, by entry
    var used: nat                    // f32Parms.usCacheUsed
    var oldest: nat                  // usOldestEntry
    var newest: nat                  // usNewestEntry
    var dirtyCount: nat              // f32Parms.usDirtySectors
    var disk: Disks                  // the devices of the mounted drives
    ghost var lru: seq<nat>          // the entries from oldest to newest
    ghost var chains: seq<seq<nat>>  // the entries of every slot
    ghost var logical: Disks         // the dirty copy of each sector, else the device's
    ghost var stale: set<(nat, nat)> // sectors that may be cached clean with out-of-date contents

    ghost predicate Shape() {
      && 0 < size <= MAX_SECTORS && threshold == size - size / 20
      && base.Length == base2.Length == dirty.Length == data.Length == size
      && slot.Length == MAX_SLOTS
    }

    ghost predicate LruValid()
      requires Shape()
      reads `used, `oldest, `newest, `lru, base2
    {
      && LruOk(base2[..], oldest, newest, lru)
      && (forall e :: e in lru ==> e < used)
      && (forall e :: 0 <= e < used ==> e in lru)
      && (forall e :: used <= e < size ==> base2[e] == Base2(NIL, NIL))
    }

    ghost predicate SlotsValid()
      requires Shape()
      reads `used, `chains, base, slot
    {
      |chains| == MAX_SLOTS && SlotsOk(base[..], slot[..], Members(used), chains)
    }

    ghost predicate ContentValid()
      requires Shape()
      reads `used, `disk, `logical, `stale, base, dirty, data
    {
      ContentOk(base[..], dirty[..], data[..], used, disk, logical, stale)
    }

    ghost predicate NoDiscards()
      requires Shape()
      reads base
    {
      forall e :: 0 <= e < size ==> !base[e].discard
    }

    ghost predicate CountValid()
      requires Shape()
      reads `dirtyCount, dirty
    {
      dirtyCount == |DirtySet(dirty[..])|
    }

    ghost predicate Valid()
      reads this, base, base2, slot, dirty, data
    {
      && Shape() && used <= size
      && LruValid() && SlotsValid() && CountValid() && ContentValid() && NoDiscards()
    }

    // Some live entry caches sector `s` of drive `d`.
    ghost predicate Cached(d: nat, s: nat)
      requires Shape() && used <= size
      reads `used, base
    {
      HasCopy(base[..], used, (d, s))
    }

    // The cached copies.
    ghost function Copies(): imap<Key, Sector>
      requires Shape() && used <= size
      reads `used, base, data
    {
      CopiesOf(base[..], data[..], used)
    }

    // The dirty sectors, the oldest first.
    ghost function Order(): seq<Key>
      requires Shape()
      reads `lru, base, dirty
    {
      DirtyOrder(lru, base[..], dirty[..])
    }

    // The entries by age.
    ghost function Row(): Row
      requires Shape()
      reads `lru, base, dirty
    {
      RowOf(lru, base[..], dirty[..])
    }

    // What the flushes of a transfer to drive `d` depend on.
    ghost function PaceOf(d: nat): Pace
      requires Shape() && used <= size
      reads `used, `dirtyCount, `lru, base, dirty
    {
      Pace(CachedSectors(d), size - used, dirtyCount - threshold, Order())
    }

    lemma CachedIs(d: nat, s: nat)
      requires Shape() && used <= size
      ensures Cached(d, s) <==> (d, s) in Copies()
    {
    }

    // The row has all entries in use, in the order of the list.
    lemma RowIs()
      requires Valid()
      ensures |Row()| == used && OrderOf(Row()) == Order()
    {
      ListSize(lru, used);
      OrderOfRow(lru, base[..], dirty[..]);
    }

    // A sector has a place in it if and only if it is cached.
    lemma InRow(d: nat, s: nat)
      requires Valid() && d != NO_DRIVE
      ensures (d, s) in Copies() <==> PlaceOf(Row(), (d, s)) < |Row()|
    {
      hide PlaceOf;
      Listed();
      CachedIs(d, s);
      assert forall i :: 0 <= i < |lru| ==> lru[i] in lru;
      if Cached(d, s) {
        var e: nat :| e < used && Holds(base[..], e, d, s);
        assert e in lru;
        var p :| 0 <= p < |lru| && lru[p] == e;
        PlaceIs(lru, base[..], dirty[..], used, p);
      } else {
        NoPlace(lru, base[..], dirty[..], used, (d, s));
      }
    }

    lemma CachedSectorsAre(d: nat)
      requires Shape() && used <= size
      ensures CachedSectors(d) == iset x: nat | (d, x) in Copies()
    {
    }

    lemma Listed()
      requires Valid()
      ensures UniqueLive(base[..], used) && Distinct(lru)
      ensures forall x :: x in lru ==> x < used && (dirty[x] ==> Live(base[x]))
      ensures forall x: nat :: x < size && dirty[x] ==> x < used && x in lru && Live(base[x])
    {
      ContentLive(base[..], dirty[..], data[..], used, disk, logical, stale);
    }

    // The order lists exactly the dirty sectors, each once.
    lemma OrderIs()
      requires Valid()
      ensures |Order()| == dirtyCount
      ensures forall k :: k in Order() <==> DirtyAt(base[..], dirty[..], k.0, k.1)
    {
      Listed();
      OrderCount(lru, base[..], dirty[..]);
      forall k: Key ensures k in Order() <==> DirtyAt(base[..], dirty[..], k.0, k.1) {
        InOrder(lru, base[..], dirty[..], k);
        if DirtyAt(base[..], dirty[..], k.0, k.1) {
          var e: nat :| e < size && dirty[e] && Holds(base[..], e, k.0, k.1);
          assert e in lru;
        }
      }
    }

    // The neighbours of entry `e` are linked to each other.
    method SpliceOut(e: nat)
      requires Shape() && e < size && Inside(base2[..], base2[e].older) && Inside(base2[..], base2[e].newer)
      requires base2[e].older != e
      modifies base2
      ensures base2[..] == Spliced(old(base2[..]), e)
    {
      ghost var b := base2[..];
      if base2[e].older != NIL {
        base2[base2[e].older] := base2[base2[e].older].(newer := base2[e].newer);
      }
      if base2[e].newer != NIL {
        base2[base2[e].newer] := base2[base2[e].newer].(older := base2[e].older);
      }
      assert base2[..] == Spliced(b, e);
    }

    // Entry `e` is linked behind the newest one.
    method Attach(e: nat)
      requires Shape() && e < size && Inside(base2[..], newest)
      modifies base2, this`newest
      ensures base2[..] == Attached(old(base2[..]), old(newest), e) && newest == e
    {
      ghost var b := base2[..];
      base2[e] := base2[e].(older := newest);
      if newest != NIL {
        base2[newest] := base2[newest].(newer := e);
      }
      base2[e] := base2[e].(newer := NIL);
      assert base2[..] == Attached(b, newest, e);
      newest := e;
    }

    ghost function CachedSectors(d: nat): iset<nat>
      requires Shape() && used <= size
      reads `used, base
    {
      iset x: nat | Cached(d, x)
    }

    // UpdateChain: entry `e` becomes the newest; the others keep their order.
    method UpdateChain(e: nat)
      requires Shape() && LruOk(base2[..], oldest, newest, lru) && e < size
      requires e in lru || base2[e] == Base2(NIL, NIL)
      modifies base2, this`oldest, this`newest, this`lru
      ensures LruOk(base2[..], oldest, newest, lru)
      ensures lru == Without(old(lru), e) + [e]
      ensures forall x :: 0 <= x < size && x !in old(lru) && x != e ==> base2[x] == old(base2[x])
    {
      hide LruOk, Without, Attached, Spliced;
      if newest == e {
        NewestStays(base2[..], oldest, newest, lru);
        return;
      }
      MovedOk(base2[..], oldest, newest, lru, e);
      ghost var b := base2[..];
      SpliceOut(e);
      if oldest == NIL {
        oldest := e;
      } else if oldest == e {
        oldest := base2[e].newer;
      }
      Attach(e);
      lru := Without(lru, e) + [e];
      assert base2[..] == Moved(b, old(newest), e);
    }

    // FindSector: walk the slot chain of the sector.
    method FindSector(s: nat, d: nat) returns (found: bool, e: nat)
      requires Shape() && used <= size && SlotsValid() && d != NO_DRIVE
      ensures found ==> e < used && Holds(base[..], e, d, s)
      ensures !found ==> !Cached(d, s)
    {
      hide SlotOf;
      found, e := false, 0;
      if used == 0 {
        return;
      }
      ghost var c, i := chains[SlotOf(s)], 0;
      assert ChainOk(base[..], slot[..], Members(used), chains, SlotOf(s));
      forall j | 0 <= j < |c| ensures c[j] < size {
        assert LinkNode(base[..], c, j);
      }
      e := slot[SlotOf(s)];
      while e != NIL
        invariant i <= |c| && (forall j :: 0 <= j < |c| ==> c[j] < size) && e == if i < |c| then c[i] else NIL
        invariant forall j :: 0 <= j < i ==> !Holds(base[..], c[j], d, s)
        decreases |c| - i
      {
        assert LinkNode(base[..], c, i) && c[i] in c;
        if base[e].sector == s && base[e].drive == d {
          return true, e;
        }
        e := base[e].next;
        i := i + 1;
      }
      forall x: nat | x < used ensures !Holds(base[..], x, d, s) {
        assert x in Members(used) && x in chains[SlotOf(base[x].sector)];
        if base[x].sector == s {
          var j :| 0 <= j < |c| && c[j] == x;
        }
      }
    }

    // GetSectorFromCache
    method GetSectorFromCache(e: nat) returns (v: Sector)
      requires Valid() && e < used
      modifies base2, this`oldest, this`newest, this`lru
      ensures Valid() && v == data[e]
      ensures lru == Without(old(lru), e) + [e]
      ensures Order() == if dirty[e] then Dropping(old(Order()), KeyOf(base[e])) + [KeyOf(base[e])] else old(Order())
    {
      hide SlotsValid, ContentValid, CountValid, LruOk, Distinct, UniqueLive, DirtyOrder, Dropping;
      Listed();
      OrderWithout(lru, base[..], dirty[..], used, e);
      OrderMoved(lru, base[..], dirty[..], base[..], dirty[..], e);
      v := data[e];
      UpdateChain(e);
      assert forall x :: x in lru ==> x < used;
      assert forall x :: 0 <= x < used ==> x in lru;
      assert LruValid();
      assert NoDiscards();
      assert CountValid();
      assert SlotsValid();
      assert ContentValid();
    }

    // ReplaceSectorInCache: new contents and dirty flag, and the newest place in the list.
    method ReplaceSectorInCache(e: nat, v: Sector, f: bool)
      requires Shape() && e < size && LruOk(base2[..], oldest, newest, lru) && CountValid()
      requires e in lru || base2[e] == Base2(NIL, NIL)
      modifies base2, dirty, data, this`oldest, this`newest, this`lru, this`dirtyCount
      ensures LruOk(base2[..], oldest, newest, lru) && CountValid()
      ensures dirty[..] == old(dirty[..])[e := f] && data[..] == old(data[..])[e := v]
      ensures lru == Without(old(lru), e) + [e]
      ensures forall x :: 0 <= x < size && x !in old(lru) && x != e ==> base2[x] == old(base2[x])
      ensures dirtyCount == old(dirtyCount) + (if f && !old(dirty[e]) then 1 else if !f && old(dirty[e]) then -1 else 0)
    {
      hide LruOk, Without;
      ghost var was := dirty[..];
      DirtyChanged(was, e, f);
      if !dirty[e] && f {
        dirtyCount := dirtyCount + 1;
      } else if dirty[e] && !f {
        if dirtyCount > 0 {
          dirtyCount := dirtyCount - 1;
        }
      }
      dirty[e] := f;
      data[e] := v;
      assert dirty[..] == was[e := f];
      UpdateChain(e);
    }

    // WriteCacheSector on a dirty entry: the device catches up, the entry is clean,
    // and if it was marked for discarding it no longer belongs to a drive.
    method WriteCacheSector(e: nat)
      requires Shape() && used <= size && LruValid() && SlotsValid() && CountValid() && ContentValid()
      requires e < used && dirty[e]
      requires forall x :: 0 <= x < size && x != e ==> !base[x].discard
      modifies base, dirty, this`dirtyCount, this`disk
      ensures Valid() && dirtyCount == old(dirtyCount) - 1
      ensures dirty[..] == old(dirty[..])[e := false]
      ensures old(InDisk(disk, base[e].drive, base[e].sector))
      ensures disk == Put(old(disk), old(base[e].drive), old(base[e].sector), data[e])
      ensures base[e] == old(base[e]).(drive := if old(base[e].discard) then NO_DRIVE
        else old(base[e].drive), discard := false)
      ensures forall x :: 0 <= x < size && x != e ==> base[x] == old(base[x])
    {
      hide LruValid, SlotsOk, ContentOk;
      ghost var b, f := base[..], dirty[..];
      ghost var b' := if b[e].discard then b[e := b[e].(drive := NO_DRIVE)] else b;
      ContentFlushed(b, f, data[..], used, disk, logical, stale, b', e);
      DirtyChanged(f, e, false);
      var d, s := base[e].drive, base[e].sector;
      disk := disk[d := disk[d][s := data[e]]];
      if base[e].discard {
        base[e] := base[e].(drive := NO_DRIVE);
        base[e] := base[e].(discard := false);
      }
      dirty[e] := false;
      if dirtyCount > 0 {
        dirtyCount := dirtyCount - 1;
      }
      assert dirty[..] == f[e := false];
      DiscardIrrelevant(b', f[e := false], data[..], used, disk, logical, stale, base[..]);
      SlotsFrame(b, base[..], slot[..], Members(used), chains);
      assert LruValid();
      assert NoDiscards();
      assert CountValid();
      assert SlotsValid();
      assert ContentValid();
    }

    // One step of a flush: a dirty entry is written back and, when its drive is
    // being discarded, given up.
    method FlushEntry(e: nat, discard: bool)
      requires Valid() && e < used && dirty[e]
      modifies base, dirty, this`dirtyCount, this`disk
      ensures Valid() && dirtyCount == old(dirtyCount) - 1
      ensures dirty[..] == old(dirty[..])[e := false]
      ensures base[..] == old(base[..])[e := old(base[e]).(drive := if discard then NO_DRIVE else old(base[e].drive))]
      ensures old(InDisk(disk, base[e].drive, base[e].sector))
      ensures disk == Put(old(disk), old(base[e].drive), old(base[e].sector), data[e])
    {
      hide LruValid, SlotsOk, ContentOk, CountValid;
      ghost var b := base[..];
      if discard {
        base[e] := base[e].(discard := true);
        DiscardIrrelevant(b, dirty[..], data[..], used, disk, logical, stale, base[..]);
        SlotsFrame(b, base[..], slot[..], Members(used), chains);
      }
      WriteCacheSector(e);
    }

    // The dirty sectors of drive `drive` have reached the device; those of other
    // drives are still dirty, and their devices are untouched.
    twostate predicate DriveFlushed(drive: nat)
      requires Shape()
      reads this, base, dirty
    {
      && drive in disk && OthersSame(old(disk), disk, {drive})
      && (forall d: nat, s: nat :: DirtyAt(base[..], dirty[..], d, s) <==>
          old(DirtyAt(base[..], dirty[..], d, s)) && d != drive)
    }

    // EmergencyFlush: write back and give up every dirty entry of the drive whose
    // dirty entry, at place `i` of the list, is the oldest.
    method EmergencyFlush() returns (ghost drive: nat, ghost i: nat)
      requires Valid()
      modifies base, dirty, this`dirtyCount, this`disk
      ensures Valid()
      ensures old(dirtyCount) > 0 ==>
        && i < |lru| && lru[i] < size && old(dirty[lru[i]]) && old(base[lru[i]].drive) == drive != NO_DRIVE
        && (forall j :: 0 <= j < i ==> lru[j] < size && !old(dirty[lru[j]]))
      ensures old(dirtyCount) > 0 ==> dirtyCount < old(dirtyCount) && DriveFlushed(drive)
      ensures old(dirtyCount) > 0 ==>
        && base[..] == GivenUp(old(base[..]), old(dirty[..]), {drive})
        && dirty[..] == StillDirty(old(base[..]), old(dirty[..]), {drive})
      ensures old(dirtyCount) == 0 ==>
        dirtyCount == 0 && disk == old(disk) && base[..] == old(base[..]) && dirty[..] == old(dirty[..])
    {
      hide SlotsOk, ContentOk;
      drive := 0;
      var e;
      e, i := OldestDirty();
      if e == NIL {
        return;
      }
      drive := base[e].drive;
      DirtyIsLive(e);
      var d := base[e].drive;
      Listed();
      FlushFrom(d, e, i);
      StillDirtyAt(old(base[..]), old(dirty[..]), {d});
    }

    // A dirty entry is in use and belongs to a mounted drive.
    lemma DirtyIsLive(e: nat)
      requires Valid() && e < size && dirty[e]
      ensures e < used && InDisk(disk, base[e].drive, base[e].sector) && base[e].drive != NO_DRIVE
    {
      assert EntryOk(base[..], dirty[..], data[..], logical, stale, e);
    }

    method OldestDirty() returns (e: nat, ghost i: nat)
      requires Valid()
      ensures e == (if i < |lru| then lru[i] else NIL)
      ensures i < |lru| ==> e < used && dirty[e]
      ensures forall j :: 0 <= j < i && j < |lru| ==> lru[j] < size && !dirty[lru[j]]
      ensures i >= |lru| ==> dirtyCount == 0
    {
      hide SlotsOk, ContentOk;
      Links();
      e, i := oldest, 0;
      while e != NIL && !dirty[e]
        invariant i <= |lru| && (forall j :: 0 <= j < |lru| ==> lru[j] < size) && e == if i < |lru| then lru[i] else NIL
        invariant forall j :: 0 <= j < i ==> lru[j] < size && !dirty[lru[j]]
        decreases |lru| - i
      {
        assert LruNode(base2[..], lru, i);
        e := base2[e].newer;
        i := i + 1;
      }
      if i == |lru| {
        forall x | 0 <= x < size ensures !dirty[x] {
          if dirty[x] {
            DirtyIsListed(x);
          }
        }
        NoneDirty(dirty[..]);
      }
    }

    lemma DirtyIsListed(x: nat)
      requires Valid() && x < size && dirty[x]
      ensures x in lru
    {
      DirtyIsLive(x);
    }

    // The list links, for walking it from the oldest entry to the newest.
    lemma Links()
      requires Valid()
      ensures Shape() && used <= size && NO_DRIVE !in disk
      ensures forall i :: 0 <= i < |lru| ==> lru[i] < used
      ensures forall i :: 0 <= i < |lru| ==> LruNode(base2[..], lru, i)
      ensures oldest == if lru == [] then NIL else lru[0]
    {
      assert forall i :: 0 <= i < |lru| ==> lru[i] in lru;
    }

    // Write back and give up every dirty entry of drive `d`, from entry `first` to the newest.
    method FlushFrom(d: nat, first: nat, ghost k: nat)
      requires Valid() && Shape() && k < |lru| && lru[k] == first < size && dirty[first] && base[first].drive == d
      requires forall j :: 0 <= j < k ==> lru[j] < size && !dirty[lru[j]]
      requires Distinct(lru) && forall x: nat :: x < size && dirty[x] ==> x in lru
      modifies base, dirty, this`dirtyCount, this`disk
      ensures Valid() && dirtyCount < old(dirtyCount) && d in disk && OthersSame(old(disk), disk, {d})
      ensures base[..] == GivenUp(old(base[..]), old(dirty[..]), {d})
      ensures dirty[..] == StillDirty(old(base[..]), old(dirty[..]), {d})
    {
      hide Valid, Given, OthersSame, GivenUp, StillDirty, Put;
      ghost var b, f, links := base[..], dirty[..], base2[..];
      ghost var disk0 := disk;
      Links();
      DirtyIsLive(first);
      OthersStart(disk, {d});
      GivenStart(b, f, lru, d, k);
      var e := first;
      ghost var i := k;
      while e != NIL
        invariant Valid() && k <= i <= |lru| && base2[..] == links && d in disk
        invariant e == if i < |lru| then lru[i] else NIL
        invariant OthersSame(disk0, disk, {d})
        invariant Given(b, f, base[..], dirty[..], lru, d, i)
        invariant if i == k then dirtyCount == old(dirtyCount) && dirty[first] && base[first].drive == d
                  else dirtyCount < old(dirtyCount)
        decreases |lru| - i
      {
        assert links[e].newer == if i + 1 < |lru| then lru[i + 1] else NIL by {
          assert LruNode(links, lru, i);
        }
        GivenStep(b, f, base[..], dirty[..], lru, d, i);
        if dirty[e] && base[e].drive == d {
          DirtyIsLive(e);
          OthersPut(disk0, disk, d, base[e].sector, data[e]);
          FlushEntry(e, true);
        }
        e := base2[e].newer;
        i := i + 1;
      }
      GivenEnd(b, f, base[..], dirty[..], lru, d);
    }

    // A clean entry is given up: nothing is lost, the device has its contents.
    method DiscardEntry(e: nat)
      requires Valid() && e < used && !dirty[e]
      modifies base
      ensures Valid() && base[..] == old(base[..])[e := old(base[e]).(drive := NO_DRIVE)]
    {
      hide LruValid, SlotsOk, ContentOk, CountValid;
      ghost var b := base[..];
      ContentDiscarded(b, dirty[..], data[..], used, disk, logical, stale, e);
      base[e] := base[e].(drive := NO_DRIVE);
      base[e] := base[e].(discard := false);
      assert base[..] == b[e := b[e].(drive := NO_DRIVE)];
      SlotsFrame(b, base[..], slot[..], Members(used), chains);
    }

    // The step of FlushVolume for one entry of the volume.
    method FlushOrDiscard(e: nat, discard: bool)
      requires Valid() && e < used && base[e].drive != NO_DRIVE
      modifies base, dirty, this`dirtyCount, this`disk
      ensures Valid() && dirty[..] == old(dirty[..])[e := false]
      ensures base[..] == old(base[..])[e := old(base[e]).(drive := if discard then NO_DRIVE else old(base[e].drive))]
      ensures old(dirty[e]) ==> old(InDisk(disk, base[e].drive, base[e].sector))
      ensures disk == if old(dirty[e]) then Put(old(disk), old(base[e].drive), old(base[e].sector), data[e])
                      else old(disk)
    {
      hide Valid;
      Links();
      ghost var b, f := base[..], dirty[..];
      if dirty[e] {
        FlushEntry(e, discard);
      } else if discard {
        assert f == f[e := false];
        DiscardEntry(e);
      } else {
        assert f == f[e := false] && b == b[e := b[e]];
      }
    }

    // FlushVolume with fFlushAll: afterwards the device of the drive holds the
    // logical contents, and after FLUSH_DISCARD none of its sectors is cached.
    method FlushAll(d: nat, discard: bool)
      requires Valid() && d in disk
      modifies base, dirty, this`dirtyCount, this`disk
      ensures Valid() && d in logical && disk[d] == logical[d]
      ensures Written(old(base[..]), old(dirty[..]), data[..], old(disk), base[..], dirty[..], disk, d, discard,
        old(EntriesOf(d)))
      ensures forall s: nat :: !DirtyAt(base[..], dirty[..], d, s)
      ensures discard ==> forall s: nat :: !Cached(d, s)
    {
      hide Valid, Written, UniqueLive;
      Links();
      Lives();
      ghost var b, f, disk0, done: set<nat> := base[..], dirty[..], disk, {};
      WrittenStart(b, f, data[..], disk, d, discard);
      var e := 0;
      while (dirtyCount > 0 || discard) && e < used
        invariant Valid() && e <= used && d != NO_DRIVE && d in disk
        invariant Written(b, f, data[..], disk0, base[..], dirty[..], disk, d, discard, done)
        invariant done == set x: nat | x < e && b[x].drive == d
        invariant forall x :: e <= x < |b| ==> base[x] == b[x] && dirty[x] == f[x]
        invariant forall x :: 0 <= x < e && base[x].drive == d ==> !dirty[x] && !discard
      {
        if base[e].drive == d {
          ghost var b1, f1, disk1 := base[..], dirty[..], disk;
          FlushOrDiscard(e, discard);
          WrittenStep(b, f, data[..], disk0, b1, f1, disk1, d, discard, done, e, used, disk);
          done := done + {e};
        }
        e := e + 1;
      }
      NothingDirtyLeft(d, e);
      ghost var more := set x: nat | e <= x < used && b[x].drive == d;
      if e < used {
        NoneLeft();
        WrittenIdle(b, f, data[..], disk0, base[..], dirty[..], disk, d, done, more);
        assert old(EntriesOf(d)) == done + more;
      } else {
        assert old(EntriesOf(d)) == done;
      }
    }

    // The entries of drive `d`.
    ghost function EntriesOf(d: nat): set<nat>
      requires Shape() && used <= size
      reads `used, base
    {
      set x: nat | x < used && base[x].drive == d
    }

    lemma Lives()
      requires Valid()
      ensures UniqueLive(base[..], used)
    {
    }

    lemma DirtyLives()
      requires Valid()
      ensures forall x: nat :: x < size && dirty[x] ==> x < used && InDisk(disk, base[x].drive, base[x].sector)
      ensures forall x: nat :: used <= x < size ==> base[x].drive == NO_DRIVE
    {
      hide LruValid, SlotsValid, ContentValid, CountValid, InDisk;
      forall x: nat | x < size && dirty[x] ensures x < used && InDisk(disk, base[x].drive, base[x].sector) {
        DirtyIsLive(x);
      }
      DeadAbove();
    }

    lemma DeadAbove()
      requires Valid()
      ensures forall x: nat :: used <= x < size ==> base[x].drive == NO_DRIVE
    {
    }

    lemma NoneLeft()
      requires Valid() && dirtyCount == 0
      ensures forall x :: 0 <= x < size ==> !dirty[x]
    {
      assert DirtySet(dirty[..]) == {};
      forall x: nat | x < size ensures !dirty[x] {
        assert x !in DirtySet(dirty[..]);
      }
    }

    lemma NothingDirtyLeft(d: nat, e: nat)
      requires Valid() && d in disk
      requires dirtyCount == 0 || e >= used
      requires forall x :: 0 <= x < e && x < used && base[x].drive == d ==> !dirty[x]
      ensures d in logical && disk[d] == logical[d]
      ensures forall s: nat :: !DirtyAt(base[..], dirty[..], d, s)
    {
      forall x: nat | x < size && dirty[x] ensures base[x].drive != d {
        DirtyIsLive(x);
        assert x in DirtySet(dirty[..]);
      }
      forall s: nat | s < |disk[d]| ensures disk[d][s] == logical[d][s] {
        assert InDisk(disk, d, s);
        assert SectorOk(base[..], dirty[..], disk, logical, d, s);
      }
    }

    // FlushVolume without fFlushAll: walk the list from the oldest entry up to the
    // first busy one and write back the entries that are old enough.
    method FlushAged(d: nat, discard: bool, aged: set<nat>, busy: set<nat>)
      returns (ghost n: nat, ghost done: set<nat>)
      requires Valid() && d in disk
      modifies base, dirty, this`dirtyCount, this`disk
      ensures Valid()
      ensures n <= |lru| && (forall i :: 0 <= i < n ==> lru[i] !in busy) && (n < |lru| ==> lru[n] in busy)
      ensures done == set x | x in old(EntriesOf(d)) && x in aged && x in lru[..n]
      ensures Written(old(base[..]), old(dirty[..]), data[..], old(disk), base[..], dirty[..], disk, d, discard, done)
    {
      hide Valid, Written, UniqueLive;
      Links();
      Lives();
      NoRepeats();
      ghost var b, f, links, disk0 := base[..], dirty[..], base2[..], disk;
      WrittenStart(b, f, data[..], disk, d, discard);
      var e := oldest;
      n, done := 0, {};
      while e != NIL && e !in busy
        invariant Valid() && n <= |lru| && base2[..] == links && NO_DRIVE != d
        invariant e == if n < |lru| then lru[n] else NIL
        invariant forall i :: 0 <= i < n ==> lru[i] !in busy
        invariant Written(b, f, data[..], disk0, base[..], dirty[..], disk, d, discard, done)
        invariant done == set x | x in old(EntriesOf(d)) && x in aged && x in lru[..n]
        invariant forall x: nat :: x < |b| && x !in lru[..n] ==> base[x] == b[x] && dirty[x] == f[x]
        decreases |lru| - n
      {
        assert LruNode(links, lru, n);
        assert lru[..n + 1] == lru[..n] + [e];
        if base[e].drive == d && e in aged {
          ghost var b1, f1, disk1 := base[..], dirty[..], disk;
          FlushOrDiscard(e, discard);
          WrittenStep(b, f, data[..], disk0, b1, f1, disk1, d, discard, done, e, used, disk);
          done := done + {e};
        }
        e := base2[e].newer;
        n := n + 1;
      }
    }

    lemma NoRepeats()
      requires Valid()
      ensures forall i, j :: 0 <= i < j < |lru| ==> lru[i] != lru[j]
      ensures forall i :: 0 <= i < |lru| ==> lru[i] != NIL
    {
      assert forall i :: 0 <= i < |lru| ==> lru[i] in lru;
    }

    // The drives in `flushed` have no dirty sector any more; the others' dirty
    // sectors and devices are as they were.
    twostate predicate DrivesFlushed(flushed: set<nat>)
      requires Shape()
      reads this, base, dirty
    {
      && OthersSame(old(disk), disk, flushed)
      && (forall d: nat, s: nat :: DirtyAt(base[..], dirty[..], d, s) <==>
          old(DirtyAt(base[..], dirty[..], d, s)) && d !in flushed)
    }

    // The threshold loop of StoreSector. It ends because every emergency flush
    // lowers the dirty count.
    method MakeRoom() returns (ghost flushed: set<nat>)
      requires Valid()
      modifies base, dirty, this`dirtyCount, this`disk
      ensures Valid() && dirtyCount < threshold && flushed == FlushedDrives(old(Order()), threshold)
      ensures NO_DRIVE !in flushed
      ensures old(dirtyCount) < threshold ==> flushed == {} && disk == old(disk) && dirtyCount == old(dirtyCount)
      ensures base[..] == GivenUp(old(base[..]), old(dirty[..]), flushed)
      ensures dirty[..] == StillDirty(old(base[..]), old(dirty[..]), flushed)
      ensures DrivesFlushed(flushed)
      ensures SameShape(old(disk), disk)
    {
      hide LruValid, SlotsValid, ContentValid, CountValid, DirtyOrder, FlushedDrives, GivenUp, StillDirty, OthersSame;
      flushed := {};
      OthersStart(disk, {});
      NoneGivenUp(base[..], dirty[..]);
      OrderIs();
      if dirtyCount < threshold {
        FlushedNone(Order(), threshold);
      }
      while dirtyCount >= threshold
        invariant Valid()
        invariant flushed == {} ==> disk == old(disk) && dirtyCount == old(dirtyCount)
        invariant OthersSame(old(disk), disk, flushed)
        invariant NO_DRIVE !in flushed
        invariant base[..] == GivenUp(old(base[..]), old(dirty[..]), flushed)
        invariant dirty[..] == StillDirty(old(base[..]), old(dirty[..]), flushed)
        invariant flushed + FlushedDrives(Order(), threshold) == FlushedDrives(old(Order()), threshold)
        decreases dirtyCount
      {
        OrderIs();
        ghost var b, f, disk1 := base[..], dirty[..], disk;
        var drive, i := EmergencyFlush();
        FlushOne(lru, b, f, i, drive, threshold, old(base[..]), old(dirty[..]), flushed);
        OthersTwice(old(disk), disk1, disk, flushed, drive);
        flushed := flushed + {drive};
      }
      OrderIs();
      FlushedNone(Order(), threshold);
      StillDirtyAt(old(base[..]), old(dirty[..]), flushed);
      DisksKeepShape();
    }

    twostate lemma DisksKeepShape()
      requires old(Valid()) && Valid() && logical == old(logical)
      ensures SameShape(old(disk), disk)
    {
      assert SameShape(disk, logical) && old(SameShape(disk, logical));
    }

    // The oldest clean entry of a cache that is not all dirty.
    method OldestClean() returns (e: nat, ghost i: nat)
      requires Valid() && used == size && dirtyCount < threshold
      ensures i < |lru| && e == lru[i] < size && !dirty[e]
      ensures forall j :: 0 <= j < i ==> lru[j] < size && dirty[lru[j]]
    {
      hide SlotsOk, ContentOk;
      SomeClean(dirty[..]);
      ghost var x :| 0 <= x < size && !dirty[x];
      assert x in lru;
      assert forall j :: 0 <= j < |lru| ==> lru[j] in lru;
      assert forall j :: 0 <= j < |lru| ==> lru[j] < size;
      e, i := oldest, 0;
      while dirty[e]
        invariant i < |lru| && e == lru[i]
        invariant forall j :: 0 <= j < i ==> dirty[lru[j]]
        decreases |lru| - i
      {
        assert LruNode(base2[..], lru, i);
        ghost var k :| 0 <= k < |lru| && lru[k] == x;
        assert k >= i;
        e := base2[e].newer;
        i := i + 1;
      }
    }

    // The entry before entry `e` in its slot chain.
    method Previous(e: nat, first: nat, ghost s: nat, ghost k: nat) returns (i: nat)
      requires Shape() && SlotsValid() && s < MAX_SLOTS && 0 < k < |chains[s]| && chains[s][k] == e
      requires first == slot[s]
      ensures i == chains[s][k - 1] && i < size
    {
      hide SlotOf;
      ghost var c := chains[s];
      assert ChainOk(base[..], slot[..], Members(used), chains, s);
      forall j | 0 <= j < |c| ensures c[j] < size {
        assert LinkNode(base[..], c, j);
      }
      i := first;
      ghost var n := 0;
      while base[i].next != e
        invariant n < k && i == c[n]
        decreases k - n
      {
        assert LinkNode(base[..], c, n);
        i := base[i].next;
        n := n + 1;
      }
      assert LinkNode(base[..], c, n) && n == k - 1;
    }

    // Take entry `e` out of the chain of its slot.
    method Unlink(e: nat)
      requires Shape() && used <= size && SlotsValid() && e < used
      modifies base, slot, this`chains
      ensures SlotsOk(base[..], slot[..], Members(used) - {e}, chains) && |chains| == MAX_SLOTS
      ensures forall x :: 0 <= x < size ==>
        base[x].sector == old(base[x]).sector && base[x].drive == old(base[x]).drive &&
            base[x].discard == old(base[x]).discard
    {
      hide SlotOf;
      ghost var s := SlotOf(base[e].sector);
      ghost var b, t, c := base[..], slot[..], chains[s];
      assert e in Members(used) && e in c;
      assert ChainOk(b, t, Members(used), chains, s);
      ghost var k :| 0 <= k < |c| && c[k] == e;
      Removed(b, t, Members(used), chains, s, k);
      var usSlot := SlotOf(base[e].sector);
      var i := slot[usSlot];
      if i == e {
        assert k == 0;
        slot[usSlot] := base[e].next;
      } else {
        assert k > 0;
        i := Previous(e, i, s, k);
        base[i] := base[i].(next := base[e].next);
      }
      assert base[..] == Unlinked(b, c, k);
      chains := chains[s := Dropped(c, k)];
    }

    // Put entry `e` at the head of the chain of sector `s`.
    method Link(e: nat, s: nat, d: nat, ghost members: set<nat>)
      requires Shape() && e < size && e !in members && |chains| == MAX_SLOTS
      requires SlotsOk(base[..], slot[..], members, chains)
      modifies base, slot, this`chains
      ensures SlotsOk(base[..], slot[..], members + {e}, chains) && |chains| == MAX_SLOTS
      ensures base[e].sector == s && base[e].drive == d && base[e].discard == old(base[e].discard)
      ensures d != NO_DRIVE ==> Holds(base[..], e, d, s)
      ensures old(NoDiscards()) ==> NoDiscards()
      ensures forall x :: 0 <= x < size && x != e ==> base[x] == old(base[x])
    {
      hide SlotOf, SlotsOk;
      ghost var b, t, c := base[..], slot[..], chains;
      Inserted(b, t, members, c, e, s, d);
      var usSlot := SlotOf(s);
      base[e] := base[e].(next := slot[usSlot]);
      slot[usSlot] := e;
      base[e] := base[e].(sector := s);
      base[e] := base[e].(drive := d);
      chains := chains[usSlot := [e] + chains[usSlot]];
      assert base[..] == b[e := Base(t[usSlot], s, d, b[e].discard)];
      assert slot[..] == t[usSlot := e];
    }

    // ReplaceSectorInCache for an entry that is in the list or about to enter it.
    method Replace(e: nat, v: Sector, f: bool)
      requires Shape() && used <= size && e < used && CountValid()
      requires LruOk(base2[..], oldest, newest, lru)
      requires (forall x :: x in lru ==> x < used) && (forall x :: 0 <= x < used && x != e ==> x in lru)
      requires e in lru || base2[e] == Base2(NIL, NIL)
      requires forall x :: used <= x < size ==> base2[x] == Base2(NIL, NIL)
      modifies base2, dirty, data, this`oldest, this`newest, this`lru, this`dirtyCount
      ensures LruValid() && CountValid() && lru == Without(old(lru), e) + [e]
      ensures dirty[..] == old(dirty[..])[e := f] && data[..] == old(data[..])[e := v]
      ensures dirtyCount == old(dirtyCount) + (if f && !old(dirty[e]) then 1 else if !f && old(dirty[e]) then -1 else 0)
    {
      hide LruOk, CountValid;
      ReplaceSectorInCache(e, v, f);
    }

    // Entry `e` takes over sector (d, s): contents, dirty flag, newest place. The
    // logical contents become a dirty copy's, else they are the device's.
    method Place(e: nat, used0: nat, d: nat, s: nat, v: Sector, f: bool)
      requires Shape() && used <= size && e < used && used0 <= used <= used0 + 1 && (used0 < used ==> e == used0)
      requires LruOk(base2[..], oldest, newest, lru) && CountValid() && NoDiscards()
      requires (forall x :: x in lru ==> x < used) && (forall x :: 0 <= x < used && x != e ==> x in lru)
      requires e in lru || base2[e] == Base2(NIL, NIL)
      requires forall x :: used <= x < size ==> base2[x] == Base2(NIL, NIL)
      requires ContentOk(base[..], dirty[..], data[..], used0, disk, logical, stale)
      requires SlotsOk(base[..], slot[..], Members(used) - {e}, chains) && |chains| == MAX_SLOTS
      requires !dirty[e] && InDisk(disk, d, s) && InDisk(logical, d, s) && d != NO_DRIVE
      requires forall x: nat :: x < used0 && x != e ==> !Holds(base[..], x, d, s)
      modifies this, base, base2, slot, dirty, data
      ensures Valid() && used == old(used) && disk == old(disk)
      ensures logical == NewLogical(old(logical), disk, d, s, v, f)
      ensures stale == NewStale(old(stale), disk, d, s, v, f)
      ensures dirtyCount == old(dirtyCount) + (if f then 1 else 0)
      ensures Holds(base[..], e, d, s) && dirty[e] == f
      ensures forall x :: 0 <= x < size && x != e ==>
        dirty[x] == old(dirty[x]) && base[x].drive == old(base[x]).drive && base[x].sector == old(base[x]).sector
      ensures Copies() == Placed(old(base[..]), old(data[..]), used0, e, (d, s), v)
      ensures Order() == old(Order()) + if f then [(d, s)] else []
      ensures e !in old(lru) ==> Row() == old(Row()) + [((d, s), f)]
      ensures forall p :: 0 <= p < |old(lru)| && old(lru[p]) == e ==> Row() == Cut(old(Row()), p) + [((d, s), f)]
    {
      hide LruOk, LruValid, SlotsOk, ContentOk, CountValid, NewLogical, NewStale, Members, Holds, InDisk, NoDiscards;
      hide Without, CopiesOf, Placed, DirtyOrder, UniqueLive, Distinct, RowOf, Cut;
      ghost var b, g, w, lru0 := base[..], dirty[..], data[..], lru;
      LruDistinct(base2[..], oldest, newest, lru);
      ContentLive(b, g, w, used0, disk, logical, stale);
      Link(e, s, d, Members(used) - {e});
      assert Members(used) - {e} + {e} == Members(used);
      ghost var b', t' := base[..], slot[..];
      ContentNew(b, g, w, used0, disk, logical, stale, b', used, e, d, s, v, f);
      Replace(e, v, f);
      assert base[..] == b' && slot[..] == t';
      logical, stale := NewLogical(logical, disk, d, s, v, f), NewStale(stale, disk, d, s, v, f);
      ContentLive(b', dirty[..], data[..], used, disk, logical, stale);
      CopiesPlaced(b, w, used0, b', data[..], used, e, d, s, v);
      OrderPlaced(lru0, b, g, b', dirty[..], e);
      RowPlaced(lru0, b, g, b', dirty[..], e);
      Holder(b', e, d, s);
    }

    // A sector that is not cached is as the device has it.
    lemma NotCached(d: nat, s: nat)
      requires Valid() && InDisk(disk, d, s) && !Cached(d, s)
      ensures InDisk(logical, d, s) && disk[d][s] == logical[d][s] && d != NO_DRIVE
      ensures !DirtyAt(base[..], dirty[..], d, s)
    {
      assert SectorOk(base[..], dirty[..], disk, logical, d, s);
      forall x: nat | x < size && dirty[x] ensures !Holds(base[..], x, d, s) {
        assert EntryOk(base[..], dirty[..], data[..], logical, stale, x);
        assert x < used && !Holds(base[..], x, d, s);
      }
    }

    ghost predicate NoFlush()
      reads `dirtyCount, `used
    {
      dirtyCount < threshold || used < size
    }

    // StoreSector while the cache has unused entries.
    method StoreUnused(d: nat, s: nat, v: Sector, f: bool)
      requires Valid() && used < size && InDisk(disk, d, s) && !Cached(d, s)
      modifies this, base, base2, slot, dirty, data
      ensures Valid() && disk == old(disk) && used == old(used) + 1
      ensures old(InDisk(logical, d, s))
      ensures logical == (if f then Put(old(logical), d, s, v) else old(logical))
      ensures stale == NewStale(old(stale), old(logical), d, s, v, f)
      ensures dirtyCount == old(dirtyCount) + (if f then 1 else 0)
      ensures Copies() == old(Copies())[(d, s) := v]
      ensures Order() == old(Order()) + (if f then [(d, s)] else []) && Row() == old(Row()) + [((d, s), f)]
      ensures forall d': nat, s': nat :: DirtyAt(base[..], dirty[..], d', s') <==>
        old(DirtyAt(base[..], dirty[..], d', s')) || (f && d' == d && s' == s)
    {
      hide LruOk, SlotsOk, EntryOk, SectorOk, UniqueLive, SlotOf, DirtyOrder, CopiesOf;
      NotCached(d, s);
      PutSame(logical, d, s);
      ghost var b, g := base[..], dirty[..];
      var e := used;
      used := used + 1;
      assert Members(used) - {e} == Members(e);
      Place(e, e, d, s, v, f);
      PlacedDirtyAt(b, g, base[..], dirty[..], e, d, s, f);
      assert Copies() == old(Copies())[(d, s) := v];
    }

    // StoreSector with all entries in use: the oldest clean entry is given up. A
    // dirty one never is.
    method StoreEvicting(d: nat, s: nat, v: Sector, f: bool)
      requires Valid() && used == size && dirtyCount < threshold
      requires InDisk(disk, d, s) && !Cached(d, s)
      modifies this, base, base2, slot, dirty, data
      ensures Valid() && disk == old(disk) && used == size
      ensures old(InDisk(logical, d, s))
      ensures logical == (if f then Put(old(logical), d, s, v) else old(logical))
      ensures stale == NewStale(old(stale), old(logical), d, s, v, f)
      ensures dirtyCount == old(dirtyCount) + (if f then 1 else 0)
      ensures Copies() == Minus(old(Copies()), Leaves(old(lru), old(base[..]), old(dirty[..]), {}))[(d, s) := v]
      ensures Order() == old(Order()) + if f then [(d, s)] else []
      ensures var p := FirstFree(old(Row()), {});
        p < |old(Row())| && Row() == Cut(old(Row()), p) + [((d, s), f)]
      ensures forall d': nat, s': nat :: DirtyAt(base[..], dirty[..], d', s') <==>
        old(DirtyAt(base[..], dirty[..], d', s')) || (f && d' == d && s' == s)
    {
      hide LruOk, SlotsOk, ContentOk, CountValid, DirtyOrder, CopiesOf, RowOf, FirstFree;
      NotCached(d, s);
      PutSame(logical, d, s);
      ghost var b, g := base[..], dirty[..];
      var e, i := OldestClean();
      Unlink(e);
      DiscardIrrelevant(b, g, data[..], used, disk, logical, stale, base[..]);
      ghost var b1 := base[..];
      ContentLive(b, g, data[..], used, disk, logical, stale);
      LeavesIs(lru, b, g, {}, i);
      FirstFreeIs(lru, b, g, {}, i);
      RowFrame(lru, b, g, b1);
      NoneGivenUp(b, g);
      CopiesFrame(b, b1, data[..], used);
      OrderFrame(lru, b, g, b1, g);
      forall x: nat | x < used ensures !Holds(b1, x, d, s) {
        assert !Holds(b, x, d, s);
      }
      Place(e, used, d, s, v, f);
      PlacedDirtyAt(b, g, base[..], dirty[..], e, d, s, f);
    }

    // StoreSector. An unused entry is taken if there is one. Otherwise drives are flushed
    // until few enough sectors are dirty, which gives their dirty entries up, and the
    // oldest clean entry is given up too.
    method StoreSector(d: nat, s: nat, v: Sector, f: bool) returns (ghost flushed: set<nat>)
      requires Valid() && InDisk(disk, d, s) && !Cached(d, s)
      modifies this, base, base2, slot, dirty, data
      ensures Valid() && old(InDisk(logical, d, s))
      ensures logical == (if f then Put(old(logical), d, s, v) else old(logical))
      ensures stale == NewStale(old(stale), old(logical), d, s, v, f)
      ensures old(used) < size ==> flushed == {} && used == old(used) + 1 && Copies() == old(Copies())[(d, s) := v]
      ensures old(used) == size ==>
        && flushed == FlushedDrives(old(Order()), threshold) && used == size
        && Copies() == Minus(Minus(old(Copies()), KeysOn(old(Order()), flushed)),
             Leaves(old(lru), old(base[..]), old(dirty[..]), flushed))[(d, s) := v]
      ensures old(used) < size ==> Row() == old(Row()) + [((d, s), f)]
      ensures old(used) == size ==>
        var p := FirstFree(old(Row()), flushed);
        p < |old(Row())| && Row() == Cut(FlushedRow(old(Row()), flushed), p) + [((d, s), f)]
      ensures Order() == NotOn(old(Order()), flushed) + if f then [(d, s)] else []
      ensures old(NoFlush()) ==>
        flushed == {} && disk == old(disk) && dirtyCount == old(dirtyCount) + (if f then 1 else 0)
      ensures !f && !old(NoFlush()) ==> dirtyCount < threshold
      ensures SameShape(old(disk), disk) && forall d' :: d' in disk && d' !in flushed ==> disk[d'] == old(disk)[d']
      ensures forall d': nat, s': nat :: DirtyAt(base[..], dirty[..], d', s') <==>
        (old(DirtyAt(base[..], dirty[..], d', s')) && d' !in flushed) || (f && d' == d && s' == s)
    {
      hide LruValid, SlotsValid, ContentValid, CountValid, NewStale, CopiesOf, DirtyOrder, FlushedDrives, NotOn, Leaves;
      hide GivenUp, StillDirty, UniqueLive, RowOf, FirstFree, FlushedRow;
      flushed := {};
      ghost var b, g, order := base[..], dirty[..], Order();
      NotOnNone(order);
      if used < size {
        StoreUnused(d, s, v, f);
      } else {
        Listed();
        OrderIs();
        CachedIs(d, s);
        flushed := MakeRoom();
        OrderGivenUp(lru, b, g, flushed);
        CopiesGivenUp(b, g, data[..], used, flushed, KeysOn(order, flushed));
        LeavesAfter(lru, b, g, flushed);
        RowGivenUp(lru, b, g, flushed);
        FirstFreeFlushed(RowOf(lru, b, g), flushed);
        CachedIs(d, s);
        StoreEvicting(d, s, v, f);
      }
    }

    // The sectors of a drive that have a dirty copy.
    ghost function DirtySectors(d: nat): iset<nat>
      requires Shape()
      reads base, dirty
    {
      iset x: nat | DirtyAt(base[..], dirty[..], d, x)
    }

    ghost function Now(d: nat): Before
      requires Shape() && used <= size
      reads this, base, dirty, data
    {
      Before(logical, disk, stale, DirtySectors(d), Copies(), Row(), PaceOf(d))
    }

    // StoreSector as part of a transfer. `flushed` says that the drive was flushed on the way.
    method StoreMissing(d: nat, x: nat, v: Sector, f: bool) returns (ghost flushed: bool)
      requires Valid() && InDisk(disk, d, x) && !Cached(d, x)
      modifies this, base, base2, slot, dirty, data
      ensures Valid() && old(InDisk(logical, d, x)) && SameShape(old(disk), disk)
      ensures logical == (if f then Put(old(logical), d, x, v) else old(logical))
      ensures stale == NewStale(old(stale), old(logical), d, x, v, f)
      ensures x !in old(DirtySectors(d)) && (d, x) !in old(Copies())
      ensures !f ==> DirtySectors(d) == if flushed then iset{} else old(DirtySectors(d))
      ensures flushed ==> forall y :: y in old(DirtySectors(d)) ==> (d, y) !in Copies()
      ensures KeptBut(old(Copies()), Copies(), (d, x)) && (d, x) in Copies() && Copies()[(d, x)] == v
      ensures f ==> Row() == StoredRow(old(Row()), size, threshold, (d, x))
      ensures !flushed ==> disk[d] == old(disk)[d]
      ensures !f ==>
        && Paced(old(PaceOf(d)), d, x, true, threshold, PaceOf(d), flushed)
        && Paced(old(PaceOf(d)), d, x, false, threshold, PaceOf(d), flushed)
      ensures !f && old(NoFlush()) ==>
        !flushed && disk == old(disk) && dirtyCount <= old(dirtyCount) && used <= old(used) + 1
      ensures old(used) < size ==>
        && disk == old(disk) && used == old(used) + 1 && Copies() == old(Copies())[(d, x) := v]
        && DirtySectors(d) == old(DirtySectors(d)) + if f then iset{x} else iset{}
    {
      hide LruValid, SlotsValid, ContentValid, CountValid, DirtyAt, Holds, DirtyOrder, CopiesOf, FlushedDrives, NotOn;
      hide Leaves, NewStale, Paced, RowOf, FirstFree, FlushedRow, Cut, OrderOf;
      NotCached(d, x);
      SameDisks();
      OrderIs();
      RowIs();
      CachedIs(d, x);
      CachedSectorsAre(d);
      ghost var c, p := Copies(), PaceOf(d);
      ghost var drives := StoreSector(d, x, v, f);
      flushed := d in drives;
      CachedSectorsAre(d);
      if !f {
        assert NotOn(p.order, drives) + [] == NotOn(p.order, drives);
        PacedStored(p, d, x, true, PaceOf(d), threshold, drives);
        PacedStored(p, d, x, false, PaceOf(d), threshold, drives);
      }
    }

    // ReplaceSectorInCache on the entry that caches (d, s), as part of a write.
    method ReplaceCached(e: nat, d: nat, s: nat, v: Sector, f: bool)
      requires Valid() && e < used && Holds(base[..], e, d, s) && InDisk(disk, d, s)
      modifies base2, dirty, data, this`oldest, this`newest, this`lru, this`dirtyCount, this`logical, this`stale
      ensures Valid()
      ensures old(InDisk(logical, d, s))
      ensures logical == NewLogical(old(logical), disk, d, s, v, f) && stale == NewStale(old(stale), disk, d, s, v, f)
      ensures dirtyCount == old(dirtyCount) + (if f && !old(dirty[e]) then 1 else if !f && old(dirty[e]) then -1 else 0)
      ensures Copies() == old(Copies())[(d, s) := v]
      ensures Order() == (if old(dirty[e]) then Dropping(old(Order()), (d, s)) else old(Order())) +
        if f then [(d, s)] else []
      ensures var p := PlaceOf(old(Row()), (d, s));
        p < |old(Row())| && Row() == Cut(old(Row()), p) + [((d, s), f)]
      ensures DirtyAt(base[..], dirty[..], d, s) <==> f
      ensures forall d': nat, s': nat :: d' != d || s' != s ==>
        (DirtyAt(base[..], dirty[..], d', s') <==> old(DirtyAt(base[..], dirty[..], d', s')))
    {
      hide LruOk, SlotsOk, ContentOk, CountValid, Members, Holds, NoDiscards, NewLogical, NewStale, DirtyAt;
      hide CopiesOf, DirtyOrder, Dropping, UniqueLive, Distinct, Without, RowOf, PlaceOf, Cut;
      ghost var b, g, w, t, lru0 := base[..], dirty[..], data[..], slot[..], lru;
      Listed();
      OnlyHolder(e, d, s);
      SameSector(d, s);
      Holder(b, e, d, s);
      ContentNew(b, g, w, used, disk, logical, stale, b, used, e, d, s, v, f);
      ReplacedDirtyAt(b, g, used, e, d, s, f);
      Replace(e, v, f);
      assert base[..] == b && slot[..] == t;
      logical, stale := NewLogical(logical, disk, d, s, v, f), NewStale(stale, disk, d, s, v, f);
      assert base[..] == b && dirty[..] == g[e := f];
      CopiesReplaced(b, w, used, e, d, s, v);
      OrderWithout(lru0, b, g, used, e);
      OrderMoved(lru0, b, g, b, g[e := f], e);
      RowReplaced(lru0, b, g, used, e, f);
      Holder(b, e, d, s);
    }

    static lemma Holder(b: seq<Base>, e: nat, d: nat, s: nat)
      requires e < |b| && Holds(b, e, d, s)
      ensures b[e].drive == d != NO_DRIVE && b[e].sector == s
    {
    }

    lemma SameSector(d: nat, s: nat)
      requires Valid() && InDisk(disk, d, s)
      ensures InDisk(logical, d, s) && d != NO_DRIVE
    {
      assert SameShape(disk, logical);
    }

    lemma OnlyHolder(e: nat, d: nat, s: nat)
      requires Valid() && e < used && Holds(base[..], e, d, s)
      ensures forall x: nat :: x < used && x != e ==> !Holds(base[..], x, d, s)
      ensures forall x: nat :: used <= x < size ==> !dirty[x]
    {
    }

    // A dirty copy is what the sector logically contains.
    lemma DirtyCopy(e: nat, d: nat, s: nat)
      requires Valid() && e < used && Holds(base[..], e, d, s)
      ensures InDisk(logical, d, s)
      ensures dirty[e] || (d, s) !in stale ==> data[e] == logical[d][s]
      ensures dirty[e] <==> DirtyAt(base[..], dirty[..], d, s)
    {
      assert EntryOk(base[..], dirty[..], data[..], logical, stale, e);
      OnlyHolder(e, d, s);
      forall x: nat | x < size && dirty[x] ensures x < used {
        assert EntryOk(base[..], dirty[..], data[..], logical, stale, x);
      }
    }

    // A copy that is not stale is what the sector contains.
    lemma CopyRight(k: Key)
      requires Valid() && k in Copies()
      ensures InDisk(logical, k.0, k.1) && (k !in stale ==> Copies()[k] == logical[k.0][k.1])
    {
      var e: nat :| e < used && Holds(base[..], e, k.0, k.1);
      CopyOf(e, k.0, k.1);
      DirtyCopy(e, k.0, k.1);
    }

    lemma DirtyCached(k: Key)
      requires Valid() && k in Order()
      ensures k in Copies() && k !in stale
    {
      OrderIs();
      Listed();
      var e: nat :| e < size && dirty[e] && Holds(base[..], e, k.0, k.1);
      CopyOf(e, k.0, k.1);
      assert EntryOk(base[..], dirty[..], data[..], logical, stale, e);
    }

    lemma CleanCopy(d: nat, s: nat)
      requires Valid() && InDisk(disk, d, s) && !DirtyAt(base[..], dirty[..], d, s)
      ensures InDisk(logical, d, s) && disk[d][s] == logical[d][s]
    {
      assert SectorOk(base[..], dirty[..], disk, logical, d, s);
    }

    // ReadSector: from the cache if every sector is there, else from the device
    // (reading ahead up to `ra` sectors), with dirty copies laid over it. From
    // sector `flushedAt` of the transfer on, an emergency flush of the drive has
    // come in between, and the caller gets what the device held before it, which the
    // copies made from there on hold too. Copies of this kind are what a later read
    // may find in the cache.
    method ReadSector(d: nat, s: nat, n: nat, ra: nat, startOfData: nat, noCache: bool)
      returns (rc: nat, buf: seq<Sector>, ghost flushedAt: nat, ghost m: nat)
      requires Valid() && d in disk
      modifies this, base, base2, slot, dirty, data
      ensures Valid() && logical == old(logical)
      ensures rc == if s + n == 0 || s + n - 1 >= |old(disk)[d]| then ERROR_SECTOR_NOT_FOUND else NO_ERROR
      ensures rc == 0 || rc == 27
      ensures rc == NO_ERROR ==>
        && |buf| == n <= m <= (if n < ra then ra else n) && s + m <= |logical[d]| && |old(disk)[d]| == |logical[d]|
        && m == (if old(AllCached(d, s, n)) || s < startOfData || noCache || ra <= n then n
                 else if s + ra > |old(disk)[d]| then |old(disk)[d]| - s else ra)
      ensures rc == NO_ERROR ==> Returned(old(Now(d)), d, s, n, old(AllCached(d, s, n)), flushedAt, buf)
      ensures rc == NO_ERROR && old(AllCached(d, s, n)) ==>
        forall x: nat :: s <= x < s + n && (d, x) !in old(stale) ==> buf[x - s] == logical[d][x]
      ensures rc == NO_ERROR ==>
        flushedAt == if noCache then m else FlushAt(old(PaceAfterHits(d, s, n)), d, s, true, threshold, m)
      ensures rc == NO_ERROR && (old(dirtyCount) < threshold || noCache || old(used) + m <= size) ==>
        flushedAt == m && disk == old(disk)
      ensures rc == NO_ERROR ==> LeftStale(old(Now(d)), d, s, m, flushedAt)
      ensures rc == NO_ERROR && !noCache && n > 0 ==> (d, s + m - 1) in Copies()
      // While unused entries last, the sectors that were not cached now are, with what the
      // device holds; a read that finds all its sectors in the cache adds none.
      ensures rc == NO_ERROR && old(used) + m <= size ==>
        && (forall k :: k in old(Copies()) ==> k in Copies() && Copies()[k] == old(Copies())[k])
        && (forall k: Key :: k in Copies() && k !in old(Copies()) ==>
              !noCache && !old(AllCached(d, s, n)) && k.0 == d && s <= k.1 < s + m)
        && (!noCache && !old(AllCached(d, s, n)) ==> forall x: nat :: s <= x < s + m && (d, x) !in old(Copies()) ==>
              (d, x) in Copies() && Copies()[(d, x)] == old(disk)[d][x])
      ensures rc != NO_ERROR ==> stale == old(stale) && disk == old(disk)
    {
      hide Valid, FlushAt, CachedSectors, Cached, DirtyOrder, AfterAll, CopiesOf, Hits, Returned, LeftStale, Laid;
      buf, flushedAt, m := [], 0, n;
      SameDisks();
      if s + n == 0 || s + n - 1 >= |disk[d]| {
        return ERROR_SECTOR_NOT_FOUND, [], 0, 0;
      }
      ghost var b, p := Now(d), PaceAfterHits(d, s, n);
      var hit;
      hit, buf := FromCache(d, s, n);
      rc := NO_ERROR;
      if hit {
        flushedAt := n;
        NoneFlushed(p, d, s, true, threshold, n);
        ReadFromCache(b, d, s, n, buf);
        return;
      }
      var length := n;
      if s >= startOfData && !noCache && n < ra {
        length := if s + ra > |disk[d]| then |disk[d]| - s else ra;
      }
      m := length;
      ghost var c, read := Copies(), disk[d][s..s + length];
      LaidIs(c, d, s, read, false, !noCache);
      buf, flushedAt := FromDevice(b, d, s, n, length, noCache);
    }

    lemma ReadFromCache(b: Before, d: nat, s: nat, n: nat, buf: seq<Sector>)
      requires Shape() && used <= size && |buf| == n && d in b.logical && d in b.disk
      requires s + n <= |b.logical[d]| == |b.disk[d]| && b.stale == stale
      requires forall x: nat :: s <= x < s + n ==> (d, x) in b.copies && buf[x - s] == b.copies[(d, x)]
      ensures Returned(b, d, s, n, true, n, buf) && LeftStale(b, d, s, n, n)
      ensures n > 0 ==> (d, s + n - 1) in b.copies
    {
      hide CopiesOf;
    }

    // Newly stale after a read of `m` sectors are exactly those from `flushedAt` on that
    // the device did not have yet, and their copies are the device's.
    ghost predicate LeftStale(b: Before, d: nat, s: nat, m: nat, flushedAt: nat)
      requires Shape() && used <= size
      reads this, base, data
    {
      && d in b.disk && d in b.logical && s + m <= |b.disk[d]| == |b.logical[d]|
      && (forall k :: k in stale && k !in b.stale ==>
            && k.0 == d && s + flushedAt <= k.1 < s + m && b.disk[d][k.1] != b.logical[d][k.1]
            && (k in Copies() ==> Copies()[k] == b.disk[d][k.1]))
      && (forall x: nat :: s + flushedAt <= x < s + m && b.disk[d][x] != b.logical[d][x] ==> (d, x) in stale)
    }

    // The part of ReadSector that reads the device.
    method FromDevice(ghost b: Before, d: nat, s: nat, n: nat, length: nat, noCache: bool)
      returns (buf: seq<Sector>, ghost flushedAt: nat)
      requires Valid() && d in disk && n <= length && s + length <= |disk[d]|
      requires b.disk == disk && b.logical == logical && b.stale == stale
      modifies this, base, base2, slot, dirty, data
      ensures Valid() && logical == old(logical) && LeftStale(b, d, s, length, flushedAt)
      ensures |buf| == n && Returned(b, d, s, n, false, flushedAt, buf)
      ensures old(dirtyCount) < threshold || noCache || old(used) + length <= size ==>
        flushedAt == length && disk == old(disk)
      ensures flushedAt == if noCache then length else FlushAt(old(PaceOf(d)), d, s, true, threshold, length)
      ensures !noCache && length > 0 ==> (d, s + length - 1) in Copies()
      ensures old(used) + length <= size ==>
        Copies() == Laid(old(Copies()), d, s, old(disk)[d][s..s + length], length, false, !noCache)
    {
      hide Laid, Valid, FlushAt, CachedSectors, DirtyOrder, CopiesOf;
      SameDisks();
      var read := disk[d][s..s + length];
      buf, flushedAt := Overlay(d, s, read, noCache);
      SameDisks();
      buf := buf[..n];
    }

    // The pace of a read, which first looks for all its sectors in the cache.
    ghost function PaceAfterHits(d: nat, s: nat, n: nat): Pace
      requires Shape() && used <= size
      reads `used, `dirtyCount, `lru, base, dirty
    {
      Pace(CachedSectors(d), size - used, dirtyCount - threshold,
           AfterAll(Order(), d, s, Hits(CachedSectors(d), s, n), true))
    }

    lemma SameDisks()
      requires Valid()
      ensures Shape() && used <= size && SameShape(disk, logical) && NO_DRIVE !in disk
    {
      assert SameShape(disk, logical);
    }

    ghost predicate AllCached(d: nat, s: nat, n: nat)
      requires Shape() && used <= size
      reads `used, base
    {
      forall x: nat :: s <= x < s + n ==> x in CachedSectors(d)
    }

    // The copies of `n` sectors in a row.
    ghost predicate Collected(d: nat, s: nat, n: nat, buf: seq<Sector>)
      requires Shape() && used <= size
      reads `used, `stale, `logical, base, data
    {
      && |buf| == n && d in logical && s + n <= |logical[d]|
      && (forall x: nat :: s <= x < s + n ==> (d, x) in Copies() && buf[x - s] == Copies()[(d, x)])
      && (forall x: nat :: s <= x < s + n && (d, x) !in stale ==> buf[x - s] == logical[d][x])
    }

    lemma CollectedNone(d: nat, s: nat)
      requires Shape() && used <= size && d in logical && s <= |logical[d]|
      ensures Collected(d, s, 0, [])
    {
    }

    lemma CollectedNext(d: nat, s: nat, n: nat, buf: seq<Sector>, v: Sector)
      requires Shape() && used <= size && Collected(d, s, n, buf) && InDisk(logical, d, s + n)
      requires (d, s + n) in Copies() && v == Copies()[(d, s + n)]
      requires (d, s + n) !in stale ==> v == logical[d][s + n]
      ensures Collected(d, s, n + 1, buf + [v])
    {
      hide CopiesOf;
    }

    // The first loop of ReadSector: it stops at the first sector that is not cached.
    method FromCache(d: nat, s: nat, n: nat) returns (hit: bool, buf: seq<Sector>)
      requires Valid() && d in disk && s + n <= |disk[d]|
      modifies base2, this`oldest, this`newest, this`lru
      ensures Valid()
      ensures hit <==> AllCached(d, s, n)
      ensures d in logical && |logical[d]| == |disk[d]| && (hit ==> Collected(d, s, n, buf))
      ensures PaceOf(d) == old(PaceAfterHits(d, s, n))
    {
      hide LruValid, SlotsOk, ContentOk, CountValid, DirtyOrder, CopiesOf, AfterAll, Hits, Collected, Holds;
      SameDisks();
      buf := [];
      CollectedNone(d, s);
      var i := 0;
      AfterNone(Order(), d, s, true);
      while i < n
        invariant Valid() && i <= n && Collected(d, s, i, buf)
        invariant AllCached(d, s, i) && Order() == AfterAll(old(Order()), d, s, i, true)
      {
        var found, e := FindSector(s + i, d);
        if !found {
          assert s + i !in CachedSectors(d);
          HitsAre(CachedSectors(d), s, n, i);
          return false, buf;
        }
        var v := Hit(e, d, s + i);
        AfterNext(old(Order()), d, s, i, true);
        CollectedNext(d, s, i, buf, v);
        buf := buf + [v];
        i := i + 1;
      }
      HitsAre(CachedSectors(d), s, n, n);
      hit := true;
    }

    // A sector found in the cache.
    method Hit(e: nat, d: nat, x: nat) returns (v: Sector)
      requires Valid() && e < used && Holds(base[..], e, d, x)
      modifies base2, this`oldest, this`newest, this`lru
      ensures Valid() && x in CachedSectors(d) && (d, x) in Copies() && v == Copies()[(d, x)] == data[e]
      ensures InDisk(logical, d, x) && ((d, x) !in stale ==> v == logical[d][x])
      ensures Order() == After(old(Order()), (d, x), true)
    {
      hide LruValid, SlotsOk, ContentOk, CountValid, DirtyOrder, CopiesOf, Dropping, DirtyAt;
      DirtyCopy(e, d, x);
      Listed();
      CopyIs(base[..], data[..], used, e);
      OrderIs();
      v := GetSectorFromCache(e);
    }

    // Where the drive's device had fallen behind the logical contents.
    lemma DeviceOrDirty(d: nat)
      requires Valid() && d in disk
      ensures d in logical && |logical[d]| == |disk[d]|
      ensures forall x: nat :: x < |disk[d]| ==> disk[d][x] == logical[d][x] || x in DirtySectors(d)
    {
      forall x: nat | x < |disk[d]| ensures disk[d][x] == logical[d][x] || DirtyAt(base[..], dirty[..], d, x) {
        assert InDisk(disk, d, x) && SectorOk(base[..], dirty[..], disk, logical, d, x);
      }
    }

    // What one sector of a transfer with contents `v` has done when there was an unused entry.
    ghost predicate Stored(used0: nat, disk0: Disks, c: imap<Key, Sector>, d: nat, x: nat, v: Sector, over: bool,
                           all: bool)
      requires Shape() && used <= size
      reads `used, `disk, base, data
    {
      && disk == disk0 && used <= used0 + 1
      && Copies() == if if (d, x) in c then over else all then c[(d, x) := v] else c
    }

    // One sector of that loop. `flushed` says that the drive was flushed on the way.
    method OverlaySector(d: nat, x: nat, read: Sector, noCache: bool) returns (v: Sector, ghost flushed: bool)
      requires Valid() && InDisk(disk, d, x)
      modifies this, base, base2, slot, dirty, data
      ensures Valid() && logical == old(logical) && InDisk(logical, d, x) && InDisk(disk, d, x)
      ensures v == if x in old(DirtySectors(d)) then logical[d][x] else read
      ensures stale - {(d, x)} == old(stale) - {(d, x)}
      ensures (d, x) in stale && (d, x) !in old(stale) ==>
        && read != logical[d][x] && x !in old(DirtySectors(d))
        && ((d, x) in Copies() ==> Copies()[(d, x)] == read)
      ensures (d, x) !in old(Copies()) && !noCache && read != logical[d][x] ==> (d, x) in stale
      ensures DirtySectors(d) == if flushed then iset{} else old(DirtySectors(d))
      ensures flushed ==> x !in old(DirtySectors(d)) && Gone(old(DirtySectors(d)), Copies(), d, x)
      ensures KeptBut(old(Copies()), Copies(), (d, x)) && (!noCache ==> (d, x) in Copies())
      ensures !noCache ==> Paced(old(PaceOf(d)), d, x, true, threshold, PaceOf(d), flushed)
      ensures old(NoFlush()) || noCache ==>
        !flushed && disk == old(disk) && dirtyCount <= old(dirtyCount) && used <= old(used) + 1
      ensures old(used) < size ==> Stored(old(used), old(disk), old(Copies()), d, x, read, false, !noCache)
    {
      hide LruValid, SlotsValid, ContentValid, CountValid, DirtyAt, Holds, DirtyOrder, CopiesOf, KeptBut, Dropping;
      hide Paced;
      v, flushed := read, false;
      SameDisks();
      CachedIs(d, x);
      KeptSame(Copies(), (d, x));
      ghost var p := PaceOf(d);
      var found, e := FindSector(x, d);
      if found {
        DirtyCopy(e, d, x);
        OrderIs();
        if dirty[e] {
          v := Hit(e, d, x);
        }
        PacedFound(p, d, x, true, PaceOf(d), threshold);
      } else {
        NotCached(d, x);
        if !noCache {
          flushed := StoreMissing(d, x, read, false);
        }
      }
    }

    // Between two sectors of that loop: `i` are done.
    ghost predicate Laying(b: Before, d: nat, s: nat, read: seq<Sector>, buf: seq<Sector>, i: nat, noCache: bool,
                           calm: bool, flushedAt: nat)
      requires Shape() && used <= size
      reads this, base, dirty, data
    {
      && flushedAt <= |read| && i <= |read| && (flushedAt < |read| ==> flushedAt < i)
      && d in disk && d in logical && s + |read| <= |disk[d]| == |logical[d]|
      && Mixed(buf, read, logical[d], s, if i < flushedAt then i else flushedAt)
      && LeftBehind(Copies(), stale, b.stale, b.dirty, d, s, read, logical[d], flushedAt, i)
      && Accounted(b.dirty, read, logical[d], s)
      && DirtySectors(d) == (if flushedAt < |read| then iset{} else b.dirty)
      && (if noCache then flushedAt == |read|
          else
            && Pacing(b.pace, d, s, true, threshold, |read|, i, flushedAt, PaceOf(d))
            && (i > 0 ==> (d, s + i - 1) in Copies()))
      && (calm ==>
            && flushedAt == |read| && disk == b.disk
            && (noCache || dirtyCount < threshold || used + (|read| - i) <= size))
    }

    // There is an unused entry for every sector that is left, so no copy has been evicted and
    // no drive flushed.
    ghost predicate Roomy(b: Before, d: nat, s: nat, buf: seq<Sector>, i: nat, over: bool, all: bool)
      requires Shape() && used <= size && i <= |buf|
      reads `used, `disk, base, data
    {
      used + (|buf| - i) <= size && Copies() == Laid(b.copies, d, s, buf, i, over, all)
    }

    lemma RoomyHere(b: Before, d: nat, s: nat, buf: seq<Sector>, i: nat, over: bool, all: bool)
      requires Shape() && used <= size && i <= |buf|
      ensures Roomy(b, d, s, buf, i, over, all) <==>
        used + (|buf| - i) <= size && Copies() == Laid(b.copies, d, s, buf, i, over, all)
    {
    }

    lemma RoomyNext(b: Before, d: nat, s: nat, buf: seq<Sector>, i: nat, over: bool, all: bool, used0: nat,
                    disk0: Disks, c: imap<Key, Sector>)
      requires Shape() && used <= size && i < |buf| && used0 + (|buf| - i) <= size
      requires c == Laid(b.copies, d, s, buf, i, over, all)
      requires Stored(used0, disk0, c, d, s + i, buf[i], over, all)
      ensures disk == disk0 && Roomy(b, d, s, buf, i + 1, over, all)
    {
      hide Laid;
      LaidStep(b.copies, c, Copies(), d, s, buf, i, over, all);
    }

    method OverlayStep(ghost b: Before, d: nat, s: nat, read: seq<Sector>, buf: seq<Sector>, i: nat, noCache: bool,
                       ghost calm: bool, ghost flushedAt: nat)
      returns (buf': seq<Sector>, ghost flushedAt': nat)
      requires Valid() && Shape() && Laying(b, d, s, read, buf, i, noCache, calm, flushedAt)
      requires i < |read|
      modifies this, base, base2, slot, dirty, data
      ensures Valid() && logical == old(logical)
      ensures Laying(b, d, s, read, buf', i + 1, noCache, calm, flushedAt')
      ensures old(used) < size ==> Stored(old(used), old(disk), old(Copies()), d, s + i, read[i], false, !noCache)
    {
      hide Valid, DirtySectors, Mixed, LeftBehind, Pacing, Paced, KeptBut, CopiesOf, DirtyOrder, CachedSectors;
      hide FlushedDrives, After, HasCopy, Cached, Stored, Accounted, Laying, Gone;
      SameDisks();
      LayingNow(b, d, s, read, buf, i, noCache, calm, flushedAt);
      ghost var stale1, L, c, p1 := stale, logical[d], Copies(), PaceOf(d);
      UnreadSector(buf, read, L, s, i, flushedAt);
      assert InDisk(disk, d, s + i);
      var v, flushed := OverlaySector(d, s + i, buf[i], noCache);
      SameDisks();
      flushedAt' := if flushed && flushedAt == |read| then i else flushedAt;
      AccountedAt(b.dirty, read, L, s, i);
      LeftStep(c, Copies(), stale1, stale, b.stale, b.dirty, d, s, read, L, flushedAt, i, flushed);
      MixedStep(buf, read, L, s, i, flushedAt', v);
      if !noCache {
        PacingStep(b.pace, d, s, true, threshold, |read|, i, flushedAt, p1, PaceOf(d), flushed);
      }
      buf' := buf[i := v];
      LayingNext(b, d, s, read, buf', i, noCache, calm, flushedAt');
    }

    lemma LayingNext(b: Before, d: nat, s: nat, read: seq<Sector>, buf: seq<Sector>, i: nat, noCache: bool, calm: bool,
                     flushedAt: nat)
      requires Shape() && used <= size && i < |read| && flushedAt <= |read|
      requires flushedAt < |read| ==> flushedAt <= i
      requires d in disk && d in logical && s + |read| <= |disk[d]| == |logical[d]|
      requires Mixed(buf, read, logical[d], s, if i + 1 < flushedAt then i + 1 else flushedAt)
      requires LeftBehind(Copies(), stale, b.stale, b.dirty, d, s, read, logical[d], flushedAt, i + 1)
      requires Accounted(b.dirty, read, logical[d], s)
      requires DirtySectors(d) == if flushedAt < |read| then iset{} else b.dirty
      requires if noCache then flushedAt == |read|
               else Pacing(b.pace, d, s, true, threshold, |read|, i + 1, flushedAt, PaceOf(d)) && (d, s + i) in Copies()
      requires calm ==>
        && flushedAt == |read| && disk == b.disk
        && (noCache || dirtyCount < threshold || used + (|read| - i - 1) <= size)
      ensures Laying(b, d, s, read, buf, i + 1, noCache, calm, flushedAt)
    {
    }

    // What the loop knows before sector `i`.
    lemma LayingNow(b: Before, d: nat, s: nat, read: seq<Sector>, buf: seq<Sector>, i: nat, noCache: bool, calm: bool,
                    flushedAt: nat)
      requires Shape() && used <= size && Laying(b, d, s, read, buf, i, noCache, calm, flushedAt) && i < |read|
      ensures flushedAt <= |read| && (flushedAt < |read| ==> flushedAt < i)
      ensures d in disk && d in logical && s + |read| <= |disk[d]| == |logical[d]|
      ensures Mixed(buf, read, logical[d], s, if i < flushedAt then i else flushedAt)
      ensures LeftBehind(Copies(), stale, b.stale, b.dirty, d, s, read, logical[d], flushedAt, i)
      ensures Accounted(b.dirty, read, logical[d], s)
      ensures DirtySectors(d) == if flushedAt < |read| then iset{} else b.dirty
      ensures if noCache then flushedAt == |read|
              else Pacing(b.pace, d, s, true, threshold, |read|, i, flushedAt, PaceOf(d))
      ensures calm ==>
        && flushedAt == |read| && disk == b.disk
        && (noCache || dirtyCount < threshold || used + (|read| - i) <= size)
    {
    }

    // The second loop of ReadSector: cache what was read, lay dirty copies over it.
    method Overlay(d: nat, s: nat, read: seq<Sector>, noCache: bool) returns (buf: seq<Sector>, ghost flushedAt: nat)
      requires Valid() && d in disk && s + |read| <= |disk[d]| && read == disk[d][s..s + |read|]
      modifies this, base, base2, slot, dirty, data
      ensures Valid() && logical == old(logical) && d in logical && |logical[d]| == |old(disk)[d]|
      ensures flushedAt <= |read| && Mixed(buf, read, logical[d], s, flushedAt)
      ensures LeftBehind(Copies(), stale, old(stale), old(DirtySectors(d)), d, s, read, logical[d], flushedAt, |read|)
      ensures old(dirtyCount) < threshold || noCache || old(used) + |read| <= size ==>
        flushedAt == |read| && disk == old(disk)
      ensures flushedAt == if noCache then |read| else FlushAt(old(PaceOf(d)), d, s, true, threshold, |read|)
      ensures !noCache && |read| > 0 ==> (d, s + |read| - 1) in Copies()
      ensures old(used) + |read| <= size ==> Copies() == Laid(old(Copies()), d, s, read, |read|, false, !noCache)
    {
      hide Valid, DirtySectors, Mixed, LeftBehind, Cached, CachedSectors, Pacing, FlushAt, CopiesOf, DirtyOrder, Laid;
      hide Roomy, Stored;
      SameDisks();
      ghost var n, calm := |read|, dirtyCount < threshold || noCache || used + |read| <= size;
      ghost var b := Now(d);
      DeviceOrDirty(d);
      OverlayStart(read, logical[d], s);
      LeftStart(Copies(), stale, b.dirty, d, s, read, logical[d]);
      PacingStart(b.pace, d, s, true, threshold, n);
      LaidStart(b.copies, d, s, read, false, !noCache);
      RoomyHere(b, d, s, read, 0, false, !noCache);
      buf, flushedAt := read, n;
      var i := 0;
      while i < |read|
        invariant Valid() && i <= n && used <= size && logical == old(logical)
        invariant Laying(b, d, s, read, buf, i, noCache, calm, flushedAt)
        invariant old(used) + n <= size ==> Roomy(b, d, s, read, i, false, !noCache)
      {
        ghost var used0, disk0, c := used, disk, Copies();
        RoomyHere(b, d, s, read, i, false, !noCache);
        buf, flushedAt := OverlayStep(b, d, s, read, buf, i, noCache, calm, flushedAt);
        SameDisks();
        if old(used) + n <= size { RoomyNext(b, d, s, read, i, false, !noCache, used0, disk0, c); }
        i := i + 1;
      }
      RoomyHere(b, d, s, read, n, false, !noCache);
      if !noCache {
        PacingEnd(b.pace, d, s, true, threshold, n, flushedAt, PaceOf(d));
      }
    }

    // One sector of the second loop of WriteSector. A lazy write skips a sector whose
    // cached copy is identical, even if that copy is stale.
    method WriteStep(d: nat, x: nat, v: Sector, f: bool, noCache: bool)
      returns (ghost flushed: bool, ghost skipped: bool)
      requires Valid() && InDisk(disk, d, x) && (f ==> !noCache)
      requires !f && (noCache || x in DirtySectors(d)) ==> disk[d][x] == v
      modifies this, base, base2, slot, dirty, data
      ensures Valid() && old(InDisk(logical, d, x)) && SameShape(old(disk), disk)
      ensures logical == if (if f then skipped else x !in old(DirtySectors(d))) then old(logical)
        else Put(old(logical), d, x, v)
      ensures f ==>
        (skipped <==> (d, x) in old(Copies()) && old(Copies())[(d, x)] == v && old(logical)[d][x] != v)
      ensures skipped ==> f && (d, x) in old(stale)
      ensures stale - {(d, x)} == old(stale) - {(d, x)}
      ensures f ==> stale <= old(stale)
      ensures !f ==> InDisk(logical, d, x) && ((d, x) in stale <==> v != logical[d][x])
      ensures flushed ==> x !in old(DirtySectors(d))
      ensures !f ==> DirtySectors(d) == if flushed then iset{} else old(DirtySectors(d)) - iset{x}
      ensures !flushed ==> disk[d] == old(disk)[d]
      ensures !f && !noCache ==> Paced(old(PaceOf(d)), d, x, false, threshold, PaceOf(d), flushed)
      ensures KeptBut(old(Copies()), Copies(), (d, x))
      ensures old(used) < size ==> Stored(old(used), old(disk), old(Copies()), d, x, v, true, !noCache)
      ensures f && old(used) < size ==>
        DirtySectors(d) == old(DirtySectors(d)) +
          if (d, x) in old(Copies()) && old(Copies())[(d, x)] == v then iset{} else iset{x}
      ensures f ==>
        Row() == WrittenRow(old(Row()), size, threshold, (d, x), (d, x) in old(Copies()) && old(Copies())[(d, x)] == v)
      ensures (d, x) in old(Copies()) <==> PlaceOf(old(Row()), (d, x)) < |old(Row())|
      ensures !f && (old(NoFlush()) || noCache) ==>
        !flushed && disk == old(disk) && dirtyCount <= old(dirtyCount) && used <= old(used) + 1
    {
      hide LruValid, SlotsOk, ContentValid, CountValid, Holds, DirtyAt, Put, CopiesOf, DirtyOrder, Paced;
      hide KeptBut, RowOf, PlaceOf, StoredRow, Cut;
      flushed, skipped := false, false;
      SameSector(d, x);
      CachedIs(d, x);
      InRow(d, x);
      var found, e := FindSector(x, d);
      if !found {
        flushed := WriteMissing(d, x, v, f, noCache);
      } else {
        Found(e, d, x);
        skipped := WriteFound(e, d, x, v, f);
      }
    }

    lemma Found(e: nat, d: nat, x: nat)
      requires Shape() && e < used <= size && Holds(base[..], e, d, x)
      ensures x in CachedSectors(d)
    {
    }

    // The sector is not cached.
    method WriteMissing(d: nat, x: nat, v: Sector, f: bool, noCache: bool) returns (ghost flushed: bool)
      requires Valid() && InDisk(disk, d, x) && !Cached(d, x) && (f ==> !noCache)
      requires noCache ==> disk[d][x] == v
      modifies this, base, base2, slot, dirty, data
      ensures Valid() && old(InDisk(logical, d, x)) && SameShape(old(disk), disk)
      ensures logical == if f then Put(old(logical), d, x, v) else old(logical)
      ensures stale - {(d, x)} == old(stale) - {(d, x)} && (f ==> stale <= old(stale))
      ensures !f ==> InDisk(logical, d, x) && ((d, x) in stale <==> v != logical[d][x])
      ensures x !in old(DirtySectors(d))
      ensures !f ==> DirtySectors(d) == if flushed then iset{} else old(DirtySectors(d))
      ensures !flushed ==> disk[d] == old(disk)[d]
      ensures !f && !noCache ==> Paced(old(PaceOf(d)), d, x, false, threshold, PaceOf(d), flushed)
      ensures KeptBut(old(Copies()), Copies(), (d, x))
      ensures old(used) < size ==> Stored(old(used), old(disk), old(Copies()), d, x, v, true, !noCache)
      ensures f && old(used) < size ==> DirtySectors(d) == old(DirtySectors(d)) + iset{x}
      ensures (d, x) !in old(Copies())
      ensures f ==> Row() == StoredRow(old(Row()), size, threshold, (d, x))
      ensures !f && (old(NoFlush()) || noCache) ==>
        !flushed && disk == old(disk) && dirtyCount <= old(dirtyCount) && used <= old(used) + 1
    {
      hide LruValid, SlotsValid, ContentOk, CountValid, Holds, DirtyAt, CopiesOf, DirtyOrder, Paced, KeptBut, StoredRow;
      flushed := false;
      SameSector(d, x);
      CachedIs(d, x);
      NotCached(d, x);
      KeptSame(Copies(), (d, x));
      if !noCache {
        flushed := StoreMissing(d, x, v, f);
      } else {
        NotHeld(d, x);
        ContentUncached(base[..], dirty[..], data[..], used, disk, logical, stale, {(d, x)});
        stale := stale - {(d, x)};
      }
      SameDisks();
    }

    // The sector is cached in entry `e`.
    method WriteFound(e: nat, d: nat, x: nat, v: Sector, f: bool) returns (ghost skipped: bool)
      requires Valid() && InDisk(disk, d, x) && e < used && Holds(base[..], e, d, x)
      requires !f && x in DirtySectors(d) ==> disk[d][x] == v
      modifies this`logical, this`stale, this`oldest, this`newest, this`lru, this`dirtyCount, base2, dirty, data
      ensures Valid() && old(InDisk(logical, d, x)) && InDisk(logical, d, x) && (d, x) in old(Copies())
      ensures logical == if (if f then skipped else x !in old(DirtySectors(d))) then old(logical)
        else Put(old(logical), d, x, v)
      ensures f ==> (skipped <==> old(Copies())[(d, x)] == v && old(logical)[d][x] != v)
      ensures skipped ==> f && (d, x) in old(stale)
      ensures stale - {(d, x)} == old(stale) - {(d, x)} && (f ==> stale <= old(stale))
      ensures !f ==> ((d, x) in stale <==> v != logical[d][x])
      ensures !f ==>
        && DirtySectors(d) == old(DirtySectors(d)) - iset{x}
        && dirtyCount == old(dirtyCount) - (if x in old(DirtySectors(d)) then 1 else 0)
        && Paced(old(PaceOf(d)), d, x, false, threshold, PaceOf(d), false)
      ensures KeptBut(old(Copies()), Copies(), (d, x))
      ensures Copies() == old(Copies())[(d, x) := v]
      ensures f ==>
        DirtySectors(d) == old(DirtySectors(d)) + if old(Copies())[(d, x)] == v then iset{} else iset{x}
      ensures f ==>
        var p := PlaceOf(old(Row()), (d, x));
        && p < |old(Row())|
        && Row() == if old(Copies())[(d, x)] == v then old(Row()) else Cut(old(Row()), p) + [((d, x), true)]
    {
      hide LruValid, SlotsValid, ContentOk, CountValid, Holds, DirtyAt, CopiesOf, DirtyOrder, Dropping, Paced;
      hide RowOf, PlaceOf, Cut;
      skipped := false;
      SameSector(d, x);
      InRow(d, x);
      PutSame(logical, d, x);
      DirtyCopy(e, d, x);
      Listed();
      CopyOf(e, d, x);
      OrderIs();
      ghost var p := PaceOf(d);
      if !dirty[e] {
        CleanCopy(d, x);
      }
      var identical := false;
      if f {
        identical := v == data[e];
      }
      if !identical {
        ReplaceCached(e, d, x, v, f);
        if !f {
          PacedFound(p, d, x, false, PaceOf(d), threshold);
        }
      } else {
        skipped := logical[d][x] != v;
        assert skipped ==> (d, x) in stale;
      }
      SameDisks();
    }

    lemma CopyOf(e: nat, d: nat, x: nat)
      requires Valid() && e < used && Holds(base[..], e, d, x)
      ensures (d, x) in Copies() && Copies()[(d, x)] == data[e] && x in CachedSectors(d)
    {
      CopyIs(base[..], data[..], used, e);
      CachedIs(d, x);
    }

    lemma NotHeld(d: nat, s: nat)
      requires Shape() && used <= size && !Cached(d, s)
      ensures forall x: nat :: x < used && Live(base[x]) ==> (base[x].drive, base[x].sector) !in {(d, s)}
    {
      forall x: nat | x < used && Live(base[x]) ensures (base[x].drive, base[x].sector) != (d, s) {
        assert !Holds(base[..], x, d, s);
      }
    }

    // Between two sectors of that loop: `i` are done.
    ghost predicate Writing(b: Before, d: nat, s: nat, buf: seq<Sector>, i: nat, f: bool, noCache: bool, calm: bool,
                            flushedAt: nat, skipped: iset<nat>)
      requires Shape() && used <= size
      reads this, base, dirty, data
    {
      && d in disk && d in logical && i <= |buf| && s + |buf| <= |disk[d]| == |logical[d]| && d in b.disk
      && |b.disk[d]| == |disk[d]| && d in b.logical && |b.logical[d]| == |disk[d]|
      && flushedAt <= |buf|
      && if f then
           && !noCache && Lazily(b.logical, logical, b.stale, stale, d, s, buf, i, skipped)
           && Skipping(b.row, size, threshold, b.copies, b.logical[d], d, s, buf, i, skipped, Copies(), Row())
         else
           && Through(b.logical, logical, disk, b.stale, stale, b.dirty, DirtySectors(d), d, s, buf, i, flushedAt)
           && (if noCache then calm else Pacing(b.pace, d, s, false, threshold, |buf|, i, flushedAt, PaceOf(d)))
           && (calm ==>
                 && flushedAt == |buf| && disk == WrittenDisks(b.disk, d, s, buf)
                 && (noCache || dirtyCount < threshold || used + (|buf| - i) <= size))
    }

    // The same for a write; a lazy one leaves the device alone.
    ghost predicate RoomyWrite(b: Before, d: nat, s: nat, buf: seq<Sector>, i: nat, f: bool, noCache: bool)
      requires Shape() && used <= size && i <= |buf|
      reads this, base, dirty, data
    {
      && Roomy(b, d, s, buf, i, true, !noCache)
      && (f ==> disk == b.disk && DirtySectors(d) == b.dirty + Dirtied(b.copies, d, s, buf, i))
    }

    lemma RoomyStart(b: Before, d: nat, s: nat, buf: seq<Sector>, f: bool, noCache: bool)
      requires Shape() && used <= size && used + |buf| <= size
      requires b.copies == Copies() && (f ==> b.disk == disk && b.dirty == DirtySectors(d))
      ensures RoomyWrite(b, d, s, buf, 0, f, noCache)
    {
      LaidStart(b.copies, d, s, buf, true, !noCache);
      assert Dirtied(b.copies, d, s, buf, 0) == iset{};
    }

    method WriteOne(ghost b: Before, d: nat, s: nat, buf: seq<Sector>, i: nat, f: bool, noCache: bool,
                    ghost calm: bool, ghost flushedAt: nat, ghost skipped: iset<nat>)
      returns (ghost flushedAt': nat, ghost skipped': iset<nat>)
      requires Valid() && Shape() && used <= size && i < |buf|
      requires Writing(b, d, s, buf, i, f, noCache, calm, flushedAt, skipped)
      modifies this, base, base2, slot, dirty, data
      ensures Valid() && Writing(b, d, s, buf, i + 1, f, noCache, calm, flushedAt', skipped')
      ensures old(RoomyWrite(b, d, s, buf, i, f, noCache)) ==> RoomyWrite(b, d, s, buf, i + 1, f, noCache)
    {
      hide Laid, Dirtied, Valid, Through, Lazily, WrittenDisks, DirtySectors, Cached, Put, Skipping, Pacing, Paced;
      hide KeptBut, CachedSectors, CopiesOf, DirtyOrder, RowOf, PlaceOf, WrittenRow;
      SameDisks();
      ghost var to, disk1, stale1, dirty1, c, p := logical, disk, stale, DirtySectors(d), Copies(), PaceOf(d);
      ghost var row := Row();
      assert InDisk(disk, d, s + i);
      if !f {
        StillToWrite(b.logical, to, disk, b.stale, stale, b.dirty, dirty1, d, s, buf, i, flushedAt);
        WrittenAt(b.disk, d, s, buf, i);
      } else {
        LazyNow(b.logical, to, b.stale, stale, d, s, buf, i, skipped);
      }
      ghost var flushed, skip := WriteStep(d, s + i, buf[i], f, noCache);
      SameDisks();
      flushedAt', skipped' := flushedAt, skipped;
      if f {
        LazyStep(b.logical, to, logical, b.stale, stale1, stale, d, s, buf, i, skipped, skip);
        SkippingStep(b.row, size, threshold, b.copies, b.logical[d], d, s, buf, i, skipped, c, row, Copies(), Row(),
          skip);
        skipped' := if skip then skipped + iset{s + i} else skipped;
      } else {
        ThroughStep(b.logical, to, logical, disk1, disk, b.stale, stale1, stale, b.dirty, dirty1, DirtySectors(d), d, s,
          buf, i, flushedAt, flushed);
        flushedAt' := if flushed && flushedAt == |buf| then i else flushedAt;
        FlushedBefore(b.logical, to, disk1, b.stale, stale1, b.dirty, dirty1, d, s, buf, i, flushedAt);
        if !noCache {
          PacingStep(b.pace, d, s, false, threshold, |buf|, i, flushedAt, p, PaceOf(d), flushed);
        }
      }
      if old(RoomyWrite(b, d, s, buf, i, f, noCache)) {
        LaidStep(b.copies, c, Copies(), d, s, buf, i, true, !noCache);
        DirtiedStep(b.copies, c, d, s, buf, i, !noCache);
      }
    }

    // The device holds what was written through.
    lemma OnDevice(d: nat, s: nat, n: nat)
      requires Valid() && d in disk && s + n <= |disk[d]|
      requires forall x :: x in DirtySectors(d) ==> !(s <= x < s + n)
      ensures d in logical && |logical[d]| == |disk[d]|
      ensures forall x: nat :: s <= x < s + n ==> disk[d][x] == logical[d][x]
    {
      DeviceOrDirty(d);
    }

    // The second loop of WriteSector.
    method WriteAll(ghost b: Before, d: nat, s: nat, buf: seq<Sector>, f: bool, noCache: bool, ghost calm: bool)
      returns (ghost flushedAt: nat, ghost skipped: iset<nat>)
      requires Valid() && Shape() && used <= size
      requires Writing(b, d, s, buf, 0, f, noCache, calm, |buf|, iset{})
      modifies this, base, base2, slot, dirty, data
      ensures Valid() && Writing(b, d, s, buf, |buf|, f, noCache, calm, flushedAt, skipped)
      ensures old(RoomyWrite(b, d, s, buf, 0, f, noCache)) ==> RoomyWrite(b, d, s, buf, |buf|, f, noCache)
    {
      hide RoomyWrite, Valid, Writing, Cached, CachedSectors, CopiesOf, DirtyOrder;
      SameDisks();
      flushedAt, skipped := |buf|, iset{};
      var i := 0;
      while i < |buf|
        invariant Valid() && Shape() && used <= size && i <= |buf|
        invariant Writing(b, d, s, buf, i, f, noCache, calm, flushedAt, skipped)
        invariant old(RoomyWrite(b, d, s, buf, 0, f, noCache)) ==> RoomyWrite(b, d, s, buf, i, f, noCache)
      {
        flushedAt, skipped := WriteOne(b, d, s, buf, i, f, noCache, calm, flushedAt, skipped);
        SameDisks();
        i := i + 1;
      }
    }

    // What a write through has done: `flushedAt` is where an emergency flush of the drive
    // happened, if anywhere.
    ghost predicate WentThrough(b: Before, d: nat, s: nat, buf: seq<Sector>, noCache: bool, calm: bool, flushedAt: nat,
                                lost: iset<nat>)
      reads `disk, `logical, `stale
    {
      && flushedAt <= |buf| && lost == LostFrom(b.dirty, s + flushedAt)
      && flushedAt == (if noCache then |buf| else FlushAt(b.pace, d, s, false, threshold, |buf|))
      && d in disk && d in logical && s + |buf| <= |disk[d]| == |logical[d]| && d in b.disk && |b.disk[d]| == |disk[d]|
      && (forall x: nat :: s <= x < s + |buf| ==> disk[d][x] == logical[d][x])
      && (forall k :: k in stale && k !in b.stale ==>
          k.0 == d && s <= k.1 < s + |buf| && logical[d][k.1] != buf[k.1 - s])
      && (forall x: nat :: s <= x < s + |buf| && logical[d][x] != buf[x - s] ==> (d, x) in stale)
      && (calm ==> flushedAt == |buf| && disk == WrittenDisks(b.disk, d, s, buf))
    }

    lemma WrittenThrough(b: Before, d: nat, s: nat, buf: seq<Sector>, noCache: bool, calm: bool, flushedAt: nat,
                         skipped: iset<nat>)
      requires Valid() && Shape() && used <= size
      requires Writing(b, d, s, buf, |buf|, false, noCache, calm, flushedAt, skipped)
      ensures WentThrough(b, d, s, buf, noCache, calm, flushedAt, LostFrom(b.dirty, s + flushedAt))
      ensures Transferred(b.logical, logical, d, s, buf, LostFrom(b.dirty, s + flushedAt))
    {
      hide Valid, Through, Transferred, DirtySectors, WrittenDisks, LostFrom, Pacing, FlushAt, DirtyOrder;
      hide CachedSectors;
      SameDisks();
      ThroughEnd(b.logical, logical, disk, b.stale, stale, b.dirty, DirtySectors(d), d, s, buf, flushedAt);
      OnDevice(d, s, |buf|);
      if !noCache {
        PacingEnd(b.pace, d, s, false, threshold, |buf|, flushedAt, PaceOf(d));
      }
    }

    // What a lazy write has done: it lost exactly the sectors whose copy it found and was
    // mistaken about.
    ghost predicate WentLazily(b: Before, d: nat, s: nat, buf: seq<Sector>, lost: iset<nat>)
      reads `stale
    {
      && stale <= b.stale && d in b.logical
      && (forall x: nat :: x in lost <==>
            && Mistaken(b.copies, b.logical[d], d, s, buf, x)
            && StillThere(b.row, size, threshold, b.copies, d, s, buf, x))
      && (forall x :: x in lost ==> (d, x) in b.stale)
    }

    lemma WrittenLazily(b: Before, d: nat, s: nat, buf: seq<Sector>, noCache: bool, calm: bool, flushedAt: nat,
                        skipped: iset<nat>)
      requires Shape() && used <= size
      requires Writing(b, d, s, buf, |buf|, true, noCache, calm, flushedAt, skipped)
      ensures WentLazily(b, d, s, buf, skipped) && Transferred(b.logical, logical, d, s, buf, skipped)
    {
      hide Lazily, Transferred;
      LazyEnd(b.logical, logical, b.stale, stale, d, s, buf, skipped);
    }

    lemma RoomyEnd(b: Before, d: nat, s: nat, buf: seq<Sector>, f: bool, noCache: bool)
      requires Shape() && used <= size && RoomyWrite(b, d, s, buf, |buf|, f, noCache)
      ensures Copies() == Laid(b.copies, d, s, buf, |buf|, true, !noCache)
      ensures f ==> disk == b.disk && DirtySectors(d) == b.dirty + Dirtied(b.copies, d, s, buf, |buf|)
    {
    }

    // WriteSector. A lazy write stays in the cache; any other goes to the device at
    // once. An emergency flush that comes in between, at sector `flushedAt` of the
    // transfer, writes the older dirty copies of the later sectors over it.
    method WriteSector(d: nat, s: nat, buf: seq<Sector>, lazy: bool, through: bool, noCache: bool, writeProtected: bool)
      returns (rc: nat, ghost flushedAt: nat, ghost lost: iset<nat>)
      requires Valid() && d in disk
      modifies this, base, base2, slot, dirty, data
      ensures Valid()
      ensures rc == if writeProtected then ERROR_WRITE_PROTECT
        else if s + |buf| == 0 || s + |buf| - 1 >= |old(disk)[d]| then ERROR_SECTOR_NOT_FOUND else NO_ERROR
      ensures rc == 0 || rc == 19 || rc == 27
      ensures rc != NO_ERROR ==> logical == old(logical) && disk == old(disk) && stale == old(stale)
      ensures rc == NO_ERROR ==> Transferred(old(logical), logical, d, s, buf, lost)
      ensures rc == NO_ERROR && lazy && !through && !noCache ==> WentLazily(old(Now(d)), d, s, buf, lost)
      ensures rc == NO_ERROR && !(lazy && !through && !noCache) ==>
        WentThrough(old(Now(d)), d, s, buf, noCache,
          noCache || old(dirtyCount) < threshold || old(used) + |buf| <= size, flushedAt, lost)
      // While unused entries last: the copies of the sectors are what was written, and only
      // with `noCache` a sector that had no copy gets none. A lazy write makes its sectors
      // dirty, but for identical copies, and the device does not change; any other write
      // puts all of them on the device.
      ensures rc == NO_ERROR && old(used) + |buf| <= size ==>
        && (forall k: Key :: k in Copies() <==>
              k in old(Copies()) || (!noCache && k.0 == d && s <= k.1 < s + |buf|))
        && (forall k: Key :: k in old(Copies()) && !(k.0 == d && s <= k.1 < s + |buf|) ==>
              Copies()[k] == old(Copies())[k])
        && (forall x: nat :: s <= x < s + |buf| && (d, x) in Copies() ==> Copies()[(d, x)] == buf[x - s])
      ensures rc == NO_ERROR && lazy && !through && !noCache && old(used) + |buf| <= size ==>
        && disk == old(disk)
        && forall x: nat :: x in DirtySectors(d) <==>
             (|| x in old(DirtySectors(d))
              || (s <= x < s + |buf| && !((d, x) in old(Copies()) && old(Copies())[(d, x)] == buf[x - s])))
      ensures rc == NO_ERROR && !(lazy && !through && !noCache) && old(used) + |buf| <= size ==>
        && disk.Keys == old(disk).Keys && (forall d' :: d' in disk && d' != d ==> disk[d'] == old(disk)[d'])
        && |disk[d]| == |old(disk)[d]| && s + |buf| <= |disk[d]|
        && forall x: nat :: x < |disk[d]| ==>
             disk[d][x] == if s <= x < s + |buf| then buf[x - s] else old(disk)[d][x]
    {
      hide Laid, Dirtied, RoomyWrite;
      hide Valid, Through, Lazily, Transferred, DirtySectors, WrittenDisks, WentThrough, CachedSectors, CopiesOf;
      hide DirtyOrder, Pacing, Skipping, WentLazily;
      flushedAt, lost := 0, iset{};
      if writeProtected {
        return ERROR_WRITE_PROTECT, 0, iset{};
      }
      if s + |buf| == 0 || s + |buf| - 1 >= |disk[d]| {
        return ERROR_SECTOR_NOT_FOUND, 0, iset{};
      }
      SameDisks();
      LaidIs(Copies(), d, s, buf, true, !noCache);
      DirtiedIs(Copies(), d, s, buf);
      WrittenSectors(disk, d, s, buf);
      ghost var b, calm := Now(d), noCache || dirtyCount < threshold || used + |buf| <= size;
      flushedAt, lost := WriteSectors(d, s, buf, lazy && !through && !noCache, noCache);
      if !(lazy && !through && !noCache) { ThroughCalm(b, d, s, buf, noCache, calm, flushedAt, lost); }
      rc := NO_ERROR;
    }

    lemma ThroughCalm(b: Before, d: nat, s: nat, buf: seq<Sector>, noCache: bool, calm: bool, flushedAt: nat,
                      lost: iset<nat>)
      requires WentThrough(b, d, s, buf, noCache, calm, flushedAt, lost)
      ensures d in b.disk && s + |buf| <= |b.disk[d]| && (calm ==> disk == WrittenDisks(b.disk, d, s, buf))
    {
    }

    // What WriteSector does to a transfer it accepts: to the device, unless it is lazy, and
    // to the cache.
    method WriteSectors(d: nat, s: nat, buf: seq<Sector>, f: bool, noCache: bool)
      returns (ghost flushedAt: nat, ghost lost: iset<nat>)
      requires Valid() && d in disk && s + |buf| <= |disk[d]| && (f ==> !noCache)
      modifies this, base, base2, slot, dirty, data
      ensures Valid() && Transferred(old(logical), logical, d, s, buf, lost)
      ensures f ==> WentLazily(old(Now(d)), d, s, buf, lost)
      ensures !f ==>
        WentThrough(old(Now(d)), d, s, buf, noCache,
          noCache || old(dirtyCount) < threshold || old(used) + |buf| <= size, flushedAt, lost)
      ensures old(used) + |buf| <= size ==>
        && Copies() == Laid(old(Copies()), d, s, buf, |buf|, true, !noCache)
        && (f ==>
              && disk == old(disk)
              && DirtySectors(d) == old(DirtySectors(d)) + Dirtied(old(Copies()), d, s, buf, |buf|))
    {
      hide Laid, Dirtied, RoomyWrite;
      hide Valid, Through, Lazily, Transferred, DirtySectors, WrittenDisks, WentThrough, CachedSectors, CopiesOf;
      hide DirtyOrder, Pacing, Skipping, WentLazily;
      SameDisks();
      ghost var b := Now(d);
      ghost var calm := noCache || dirtyCount < threshold || used + |buf| <= size;
      PacingStart(b.pace, d, s, false, threshold, |buf|);
      if !f {
        DeviceWrite(d, s, buf);
        SameDisks();
      } else {
        LazyStart(logical, stale, d, s, buf);
        SkippingStart(b.row, size, threshold, b.copies, logical[d], d, s, buf);
      }
      ghost var skipped;
      if used + |buf| <= size { RoomyStart(b, d, s, buf, f, noCache); }
      flushedAt, skipped := WriteAll(b, d, s, buf, f, noCache, calm);
      SameDisks();
      if old(used) + |buf| <= size { RoomyEnd(b, d, s, buf, f, noCache); }
      if f {
        WrittenLazily(b, d, s, buf, noCache, calm, flushedAt, skipped);
        lost := skipped;
      } else {
        WrittenThrough(b, d, s, buf, noCache, calm, flushedAt, skipped);
        lost := LostFrom(b.dirty, s + flushedAt);
      }
    }

    // FSH_DOVOLIO: the device changes; cached copies of its sectors lag behind it.
    method DeviceWrite(d: nat, s: nat, buf: seq<Sector>)
      requires Valid() && d in disk && s + |buf| <= |disk[d]|
      modifies this`disk, this`logical, this`stale
      ensures Valid() && disk == WrittenDisks(old(disk), d, s, buf) && DirtySectors(d) == old(DirtySectors(d))
      ensures SameShape(old(disk), disk)
      ensures Through(old(logical), logical, disk, old(stale), stale, DirtySectors(d), DirtySectors(d), d, s, buf, 0,
        |buf|)
    {
      hide LruValid, SlotsValid, ContentOk, CountValid, Through, Transferred, DirtyAt;
      SameDisks();
      ghost var from, clean := logical, CleanSectors(base[..], dirty[..], d, s, |buf|);
      ContentBehind(base[..], dirty[..], data[..], used, disk, logical, stale, d, s, buf);
      WrittenShape(disk, d, s, buf);
      logical, stale := BehindDevice(base[..], dirty[..], logical, d, s, buf), stale + clean;
      disk := disk[d := Overwritten(disk[d], s, buf)];
      assert SameShape(disk, logical) by { ContentShape(); }
      ThroughStart(from, logical, disk, old(stale), clean, DirtySectors(d), d, s, buf);
    }

    lemma ContentShape()
      requires Shape() && ContentValid()
      ensures SameShape(disk, logical)
    {
    }

    // InitCache: every entry is unused, and what a reader sees is the devices.
    constructor (sectors: nat, disk: Disks)
      requires 0 < sectors && NO_DRIVE !in disk
      ensures Valid() && stale == {} && fresh(base) && fresh(base2) && fresh(slot) && fresh(dirty) && fresh(data)
      ensures this.disk == disk && logical == disk && used == 0 && dirtyCount == 0
      ensures size == (if sectors > 4096 then 4096 else sectors) && threshold == size - size / 20
    {
      hide ContentOk, SlotsOk;
      var n := if sectors > MAX_SECTORS then MAX_SECTORS else sectors;
      size, threshold := n, n - n / 20;
      base := new Base[n](i requires 0 <= i => Base(if i + 1 < n then i + 1 else NIL, NOT_USED, NO_DRIVE, false));
      base2 := new Base2[n](i => Base2(NIL, NIL));
      slot := new nat[MAX_SLOTS](i => NIL);
      dirty := new bool[n](i => false);
      data := new Sector[n](i => []);
      used, oldest, newest, dirtyCount := 0, NIL, NIL, 0;
      this.disk, logical, stale := disk, disk, {};
      lru, chains := [], seq(MAX_SLOTS, i => []);
      new;
      NoneDirty(dirty[..]);
      EmptyContent(base[..], dirty[..], data[..], disk);
      EmptySlots(base[..], slot[..], chains);
    }

    // The first two sectors that are written lazily to a new cache.
    method BothDirty(d: nat, x: nat, v: Sector, y: nat, w: Sector)
      requires Valid() && used == 0 && dirtyCount == 0 && size >= 2
      requires InDisk(disk, d, x) && InDisk(disk, d, y) && x != y
      modifies this, base, base2, slot, dirty, data
      ensures Valid() && used == 2 && dirtyCount == 2 && disk == old(disk)
      ensures SameShape(disk, logical) && SameShape(disk, old(logical))
      ensures d in old(logical) && logical[d] == old(logical)[d][x := v][y := w] && stale <= old(stale)
      ensures CachedSectors(d) == iset{x, y} && Order() == [(d, x), (d, y)] && DirtySectors(d) == iset{x, y}
    {
      hide LruValid, SlotsValid, ContentValid, CountValid, DirtyOrder, CopiesOf;
      EmptyCache();
      SameDisks();
      CachedIs(d, x);
      StoreUnused(d, x, v, true);
      CachedIs(d, y);
      StoreUnused(d, y, w, true);
      CachedSectorsAre(d);
      SameDisks();
    }

    lemma EmptyCache()
      requires Valid() && used == 0 && dirtyCount == 0
      ensures Shape() && Copies() == imap[] && Order() == []
      ensures forall d: nat, s: nat :: !DirtyAt(base[..], dirty[..], d, s)
    {
      OrderIs();
      forall k | k in Copies() ensures false {
        CachedIs(k.0, k.1);
      }
      forall d: nat, s: nat ensures !DirtyAt(base[..], dirty[..], d, s) {
        assert (d, s) !in Order();
      }
    }

    // FlushVolume: all entries of the drive, or the aged ones before the first busy one.
    method FlushVolume(d: nat, discard: bool, all: bool, aged: set<nat>, busy: set<nat>) returns (ghost n: nat)
      requires Valid() && d in disk
      modifies base, dirty, this`dirtyCount, this`disk, this`stale
      ensures Valid()
      ensures disk.Keys == old(disk).Keys && forall d' :: d' in disk && d' != d ==> disk[d'] == old(disk)[d']
      ensures forall d': nat, s: nat :: d' != d ==>
        (DirtyAt(base[..], dirty[..], d', s) <==> old(DirtyAt(base[..], dirty[..], d', s)))
      ensures all ==> d in logical && disk[d] == logical[d] && forall s: nat :: !DirtyAt(base[..], dirty[..], d, s)
      ensures all && discard ==> forall s: nat :: !Cached(d, s)
      ensures stale <= old(stale) && (all && discard ==> forall k :: k in stale ==> k.0 != d)
      // Entry by entry: the chosen ones are clean and on the device, with `discard` given up ...
      ensures n <= |lru| && (!all ==> (forall i :: 0 <= i < n ==> lru[i] !in busy) && (n < |lru| ==> lru[n] in busy))
      ensures forall x: nat :: x < size && old(base[x].drive) == d && (all || (x in aged && x in lru[..n])) ==>
        !dirty[x] && base[x] == old(base[x]).(drive := if discard then 0xFF else d)
      ensures d in disk && |disk[d]| == |old(disk)[d]|
      ensures forall x: nat ::
        x < size && old(base[x].drive) == d && (all || (x in aged && x in lru[..n])) && old(dirty[x]) ==>
          old(base[x].sector) < |disk[d]| && disk[d][old(base[x].sector)] == data[x]
      // ... and every other entry and sector is as it was.
      ensures forall x: nat :: x < size && !(old(base[x].drive) == d && (all || (x in aged && x in lru[..n]))) ==>
        base[x] == old(base[x]) && dirty[x] == old(dirty[x])
      ensures forall s: nat :: s < |disk[d]| && disk[d][s] != old(disk)[d][s] ==> exists x: nat ::
        x < size && old(base[x].drive) == d && (all || (x in aged && x in lru[..n])) && old(dirty[x]) &&
          old(base[x].sector) == s
    {
      hide Valid, Written, UniqueLive;
      Links();
      SameDisks();
      ghost var b, f, disk0 := base[..], dirty[..], disk;
      Lives();
      DirtyLives();
      ghost var done := EntriesOf(d);
      if !all {
        n, done := FlushAged(d, discard, aged, busy);
      } else {
        n := 0;
        FlushAll(d, discard);
      }
      SameDisks();
      OtherDrivesKept(b, f, data[..], disk0, base[..], dirty[..], disk, d, discard, done);
      WrittenIs(b, f, data[..], disk0, base[..], dirty[..], disk, d, discard, done, used);
      if all && discard {
        Forget(d);
      }
    }

    // A drive none of whose sectors is cached has no stale ones.
    ghost method Forget(d: nat)
      requires Valid() && forall s: nat :: !Cached(d, s)
      modifies this`stale
      ensures Valid() && stale == set k | k in old(stale) && k.0 != d
    {
      hide LruValid, SlotsValid, ContentOk, CountValid;
      ghost var gone := set k | k in stale && k.0 == d;
      forall x: nat | x < used && Live(base[x]) ensures (base[x].drive, base[x].sector) !in gone {
        assert base[x].drive == d ==> Holds(base[..], x, d, base[x].sector) && Cached(d, base[x].sector);
      }
      ContentUncached(base[..], dirty[..], data[..], used, disk, logical, stale, gone);
      stale := stale - gone;
    }
  }

  // A cache of two entries, both dirty, and a read that starts just before one of
  // them: making room flushes and drops the dirty copy after the device was read,
  // and the reader gets the old contents.
  method StaleRead(old1: Sector, new1: Sector, new2: Sector) returns (c: SectorCache, buf: seq<Sector>)
    requires old1 != new1
    ensures c.Valid() && fresh(c) && fresh(c.base) && fresh(c.base2) && fresh(c.slot) && fresh(c.dirty) && fresh(c.data)
    ensures 2 in c.disk && |c.disk[2]| == 3 && 2 in c.logical && |c.logical[2]| == 3 && c.logical[2][1] == new1
    ensures |buf| == 2 && buf[1] == old1
    ensures (2, 1) in c.Copies() && c.Copies()[(2, 1)] == old1
  {
    hide SectorCache.Valid, SectorCache.Cached, DirtyAt, DirtyOrder, CopiesOf, FlushAt;
    c := new SectorCache(2, map[2 := [[], old1, []]]);
    c.SameDisks();
    c.BothDirty(2, 1, new1, 2, new2);
    c.SameDisks();
    TwoDirty(c.PaceOf(2), 2, true, 2);
    ghost var p := c.PaceAfterHits(2, 0, 2);
    assert p == c.PaceOf(2);
    var rc, b, at, m := c.ReadSector(2, 0, 2, 0, 0, false);
    buf := b;
    c.SameDisks();
    assert (2, 1) in c.stale && m == 2 && (2, 0 + m - 1) in c.Copies();
  }

  // The same cache and a write through of the first two sectors: making room flushes
  // the older dirty copy of the second one over what the device was just given.
  method LateWrite(copy1: Sector, copy2: Sector, new0: Sector, new1: Sector) returns (c: SectorCache, rc: nat)
    requires copy1 != new1
    ensures c.Valid() && rc == NO_ERROR
    ensures 2 in c.disk && |c.disk[2]| == 3 && c.disk[2][0] == new0 && c.disk[2][1] == copy1 && (2, 1) in c.stale
  {
    hide SectorCache.Valid, SectorCache.Cached, DirtyAt, DirtyOrder, CopiesOf, FlushAt;
    c := new SectorCache(2, map[2 := [[], [], []]]);
    c.SameDisks();
    c.BothDirty(2, 1, copy1, 2, copy2);
    c.SameDisks();
    TwoDirty(c.PaceOf(2), 2, false, 2);
    ghost var at, lost;
    rc, at, lost := c.WriteSector(2, 0, [new0, new1], false, true, false, false);
    assert 1 in lost && 0 !in lost;
    assert c.logical[2][1] == copy1 && c.logical[2][0] == new0;
  }

  // Behind the cache of `StaleRead`, what the out-of-date copy holds is written lazily:
  // the write finds an identical copy and does nothing, and the sector keeps the rest.
  method LostWrite(old1: Sector, new1: Sector, new2: Sector) returns (c: SectorCache, rc: nat)
    requires old1 != new1
    ensures c.Valid() && rc == NO_ERROR
    ensures 2 in c.logical && |c.logical[2]| == 3 && c.logical[2][1] == new1
  {
    hide SectorCache.Valid, SectorCache.Cached, DirtyAt, DirtyOrder, CopiesOf;
    var b;
    c, b := StaleRead(old1, new1, new2);
    c.SameDisks();
    ghost var n, at, lost := c.Now(2), 0, iset{};
    c.InRow(2, 1);
    assert Mistaken(n.copies, n.logical[2], 2, 1, [old1], 1);
    assert StillThere(n.row, c.size, c.threshold, n.copies, 2, 1, [old1], 1);
    rc, at, lost := c.WriteSector(2, 1, [old1], true, false, false, false);
    assert 1 in lost;
  }
}

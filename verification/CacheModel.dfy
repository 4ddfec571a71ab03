// The sector cache's tables as values, and what each table operation does to
// them: the LRU list, the hash slot chains, the dirty flags and the contents.
module CacheModel {
  import opened Common

  const NIL: nat := 0xFFFF          // end of a chain or list, FREE_SLOT
  const NO_DRIVE: nat := 0xFF
  const NOT_USED: nat := 0xFFFF_FFFF
  const MAX_SECTORS: nat := 4096
  const MAX_SLOTS: nat := 0x4000

  type Sector = seq<int>

  datatype Base = Base(next: nat, sector: nat, drive: nat, discard: bool)   // CACHEBASE
  datatype Base2 = Base2(newer: nat, older: nat)                            // CACHEBASE2

  function SlotOf(sector: nat): (r: nat)
    ensures r < MAX_SLOTS
  {
    sector % MAX_SLOTS
  }

  // ---------------------------------------------------------------- LRU list

  ghost predicate LruNode(b: seq<Base2>, lru: seq<nat>, i: nat)
    requires i < |lru|
  {
    && lru[i] < |b|
    && b[lru[i]].older == (if i == 0 then NIL else lru[i - 1])
    && b[lru[i]].newer == (if i + 1 == |lru| then NIL else lru[i + 1])
  }

  // `lru` is the doubly linked list from the oldest entry to the newest.
  ghost predicate LruOk(b: seq<Base2>, oldest: nat, newest: nat, lru: seq<nat>) {
    && |b| <= MAX_SECTORS
    && Distinct(lru)
    && (forall i :: 0 <= i < |lru| ==> LruNode(b, lru, i))
    && oldest == (if lru == [] then NIL else lru[0])
    && newest == (if lru == [] then NIL else lru[|lru| - 1])
  }

  ghost function Without(s: seq<nat>, x: nat): (r: seq<nat>)
    ensures forall y :: y in r <==> y in s && y != x
    ensures |r| <= |s|
  {
    if s == [] then [] else if s[0] == x then Without(s[1..], x) else [s[0]] + Without(s[1..], x)
  }

  lemma {:induction false} WithoutSame(s: seq<nat>, x: nat)
    requires x !in s
    ensures Without(s, x) == s
  {
    if s != [] {
      WithoutSame(s[1..], x);
    }
  }

  lemma {:induction false} WithoutAt(s: seq<nat>, k: nat)
    requires k < |s| && Distinct(s)
    ensures Without(s, s[k]) == s[..k] + s[k + 1..]
  {
    if k == 0 {
      WithoutSame(s[1..], s[0]);
    } else {
      WithoutAt(s[1..], k - 1);
      assert s[1..][..k - 1] == s[1..k];
      assert s[..k] + s[k + 1..] == [s[0]] + (s[1..k] + s[k + 1..]);
    }
  }

  // A list of all entries below `n`, each once, has `n` of them.
  lemma {:induction false} ListSize(s: seq<nat>, n: nat)
    requires Distinct(s) && forall e: nat :: e in s <==> e < n
    ensures |s| == n
    decreases n
  {
    if s == [] {
      assert 0 !in s;
    } else {
      assert s[0] in s && n - 1 in s;
      var k :| 0 <= k < |s| && s[k] == n - 1;
      DroppedMembers(s, k);
      ListSize(Dropped(s, k), n - 1);
    }
  }

  ghost predicate Inside(b: seq<Base2>, x: nat) { x == NIL || x < |b| }

  // The table after UpdateChain has spliced entry `e` out of the list.
  ghost function Spliced(b: seq<Base2>, e: nat): (r: seq<Base2>)
    requires e < |b| && Inside(b, b[e].older) && Inside(b, b[e].newer) && b[e].older != e
    ensures |r| == |b| && r[e].newer == b[e].newer
  {
    var b1 := if b[e].older != NIL then b[b[e].older := b[b[e].older].(newer := b[e].newer)] else b;
    if b1[e].newer != NIL then b1[b1[e].newer := b1[b1[e].newer].(older := b1[e].older)] else b1
  }

  lemma SplicedOut(b: seq<Base2>, oldest: nat, newest: nat, lru: seq<nat>, k: nat)
    requires LruOk(b, oldest, newest, lru) && k < |lru| - 1
    ensures lru[k] < |b| && var n := b[lru[k]]; Inside(b, n.older) && Inside(b, n.newer) && n.older != lru[k]
    ensures b[lru[k]].newer == lru[k + 1] && (oldest == lru[k] <==> k == 0) && oldest != NIL
    ensures LruOk(Spliced(b, lru[k]), if k == 0 then lru[1] else oldest, newest, lru[..k] + lru[k + 1..])
  {
    assert LruNode(b, lru, k);
    if k > 0 { assert LruNode(b, lru, k - 1); }
    assert LruNode(b, lru, k + 1);
    assert LruNode(b, lru, 0);
    hide Spliced, LruNode;
    var b', lru' := Spliced(b, lru[k]), lru[..k] + lru[k + 1..];
    forall i | 0 <= i < |lru'| ensures LruNode(b', lru', i) {
      SplicedNode(b, lru, k, i);
    }
  }

  lemma SplicedNode(b: seq<Base2>, lru: seq<nat>, k: nat, i: nat)
    requires |b| <= MAX_SECTORS && Distinct(lru) && k < |lru| - 1 && i < |lru| - 1
    requires LruNode(b, lru, k) && LruNode(b, lru, k + 1) && (k > 0 ==> LruNode(b, lru, k - 1))
    requires LruNode(b, lru, if i < k then i else i + 1)
    ensures Inside(b, b[lru[k]].older) && Inside(b, b[lru[k]].newer) && b[lru[k]].older != lru[k]
    ensures LruNode(Spliced(b, lru[k]), lru[..k] + lru[k + 1..], i)
  {
    var lru', j := lru[..k] + lru[k + 1..], if i < k then i else i + 1;
    assert lru'[i] == lru[j] != lru[k];
    assert i > 0 ==> lru'[i - 1] == lru[if i - 1 < k then i - 1 else i];
    assert i + 1 < |lru'| ==> lru'[i + 1] == lru[if i + 1 < k then i + 1 else i + 2];
  }

  // Linking entry `e`, outside the list, behind the newest one.
  ghost function Attached(b: seq<Base2>, newest: nat, e: nat): (r: seq<Base2>)
    requires e < |b| && Inside(b, newest)
    ensures |r| == |b|
  {
    var b2 := b[e := b[e].(older := newest)];
    var b3 := if newest != NIL then b2[newest := b2[newest].(newer := e)] else b2;
    b3[e := b3[e].(newer := NIL)]
  }

  lemma Pushed(b: seq<Base2>, oldest: nat, newest: nat, lru: seq<nat>, e: nat)
    requires LruOk(b, oldest, newest, lru) && e < |b| && e !in lru
    ensures Inside(b, newest)
    ensures LruOk(Attached(b, newest, e), if lru == [] then e else oldest, e, lru + [e])
  {
    var n := |lru|;
    if n > 0 { assert LruNode(b, lru, n - 1) && lru[n - 1] in lru; }
    var lru', b' := lru + [e], Attached(b, newest, e);
    forall i | 0 <= i < |lru'| ensures LruNode(b', lru', i) {
      if i < n {
        assert LruNode(b, lru, i) && lru[i] in lru;
        assert lru[i] == newest <==> i == n - 1;
      }
    }
  }

  // The whole of UpdateChain for an entry that is not the newest.
  ghost function Moved(b: seq<Base2>, newest: nat, e: nat): (r: seq<Base2>)
    requires e < |b| && Inside(b, b[e].older) && Inside(b, b[e].newer) && b[e].older != e && Inside(b, newest)
    ensures |r| == |b|
  {
    Attached(Spliced(b, e), newest, e)
  }

  ghost function MovedOldest(b: seq<Base2>, oldest: nat, e: nat): nat
    requires e < |b|
  {
    if oldest == NIL then e else if oldest == e then b[e].newer else oldest
  }

  lemma MovedOk(b: seq<Base2>, oldest: nat, newest: nat, lru: seq<nat>, e: nat)
    requires LruOk(b, oldest, newest, lru) && e < |b| && newest != e
    requires e in lru || b[e] == Base2(NIL, NIL)
    ensures Inside(b, b[e].older) && Inside(b, b[e].newer) && b[e].older != e && Inside(b, newest)
    ensures LruOk(Moved(b, newest, e), MovedOldest(b, oldest, e), e, Without(lru, e) + [e])
    ensures forall x :: 0 <= x < |b| && x !in lru && x != e ==> Moved(b, newest, e)[x] == b[x]
  {
    if e in lru {
      MovedListed(b, oldest, newest, lru, e);
    } else {
      WithoutSame(lru, e);
      Pushed(b, oldest, newest, lru, e);
      assert lru != [] ==> LruNode(b, lru, 0) && lru[0] in lru;
    }
    MovedFrame(b, oldest, newest, lru, e);
  }

  lemma MovedListed(b: seq<Base2>, oldest: nat, newest: nat, lru: seq<nat>, e: nat)
    requires LruOk(b, oldest, newest, lru) && e < |b| && newest != e && e in lru
    ensures Inside(b, b[e].older) && Inside(b, b[e].newer) && b[e].older != e && Inside(b, newest)
    ensures LruOk(Moved(b, newest, e), MovedOldest(b, oldest, e), e, Without(lru, e) + [e])
  {
    var k :| 0 <= k < |lru| && lru[k] == e;
    assert k < |lru| - 1;
    SplicedOut(b, oldest, newest, lru, k);
    WithoutAt(lru, k);
    Pushed(Spliced(b, e), if k == 0 then lru[1] else oldest, newest, Without(lru, e), e);
  }

  lemma MovedFrame(b: seq<Base2>, oldest: nat, newest: nat, lru: seq<nat>, e: nat)
    requires LruOk(b, oldest, newest, lru) && e < |b|
    requires e in lru || b[e] == Base2(NIL, NIL)
    requires Inside(b, b[e].older) && Inside(b, b[e].newer) && b[e].older != e && Inside(b, newest)
    ensures forall x :: 0 <= x < |b| && x !in lru && x != e ==> Moved(b, newest, e)[x] == b[x]
  {
    assert newest != NIL ==> newest in lru;
    if e in lru {
      var k :| 0 <= k < |lru| && lru[k] == e;
      assert LruNode(b, lru, k);
      assert (k > 0 ==> lru[k - 1] in lru) && (k + 1 < |lru| ==> lru[k + 1] in lru);
    }
  }

  lemma LruDistinct(b: seq<Base2>, oldest: nat, newest: nat, lru: seq<nat>)
    requires LruOk(b, oldest, newest, lru)
    ensures Distinct(lru)
  {
  }

  lemma NewestStays(b: seq<Base2>, oldest: nat, newest: nat, lru: seq<nat>)
    requires LruOk(b, oldest, newest, lru) && newest < NIL
    ensures lru == Without(lru, newest) + [newest]
  {
    WithoutAt(lru, |lru| - 1);
  }

  // ---------------------------------------------------------------- slot chains

  ghost function Members(n: nat): (r: set<nat>)
    ensures forall e: nat :: e in r <==> e < n
  {
    if n == 0 then {} else Members(n - 1) + {n - 1}
  }

  ghost predicate LinkNode(b: seq<Base>, c: seq<nat>, i: nat)
    requires i < |c|
  {
    c[i] < |b| && b[c[i]].next == (if i + 1 == |c| then NIL else c[i + 1])
  }

  ghost predicate Linked(b: seq<Base>, head: nat, c: seq<nat>) {
    && head == (if c == [] then NIL else c[0])
    && (forall i :: 0 <= i < |c| ==> LinkNode(b, c, i))
  }

  // The hash table holds exactly the entries `members`, each in the chain of its sector.
  ghost predicate SlotsOk(b: seq<Base>, slot: seq<nat>, members: set<nat>, chains: seq<seq<nat>>) {
    && |b| <= MAX_SECTORS && |slot| == MAX_SLOTS == |chains|
    && (forall s :: 0 <= s < MAX_SLOTS ==> ChainOk(b, slot, members, chains, s))
    && (forall e :: e in members ==> e < |b| && e in chains[SlotOf(b[e].sector)])
  }

  ghost predicate ChainOk(b: seq<Base>, slot: seq<nat>, members: set<nat>, chains: seq<seq<nat>>, s: nat)
    requires s < MAX_SLOTS == |chains| == |slot|
  {
    && Linked(b, slot[s], chains[s]) && Distinct(chains[s])
    && forall e :: e in chains[s] ==> e < |b| && e in members && SlotOf(b[e].sector) == s
  }

  lemma Inserted(b: seq<Base>, slot: seq<nat>, members: set<nat>, chains: seq<seq<nat>>, e: nat, sector: nat,
                 drive: nat)
    requires SlotsOk(b, slot, members, chains) && e < |b| && e !in members
    ensures var s := SlotOf(sector);
      SlotsOk(b[e := Base(slot[s], sector, drive, b[e].discard)], slot[s := e], members + {e},
          chains[s := [e] + chains[s]])
  {
    var s := SlotOf(sector);
    var b', slot', members', chains' := b[e := Base(slot[s], sector, drive, b[e].discard)], slot[s := e],
      members + {e}, chains[s := [e] + chains[s]];
    assert ChainOk(b, slot, members, chains, s);
    forall t: nat | t < MAX_SLOTS ensures ChainOk(b', slot', members', chains', t) {
      assert ChainOk(b, slot, members, chains, t);
      if t == s {
        InsertedHere(b, slot[s], chains[s], e, b'[e]);
      } else {
        LinkedFrame(b, b', slot[t], chains[t]);
      }
    }
  }

  lemma LinkedFrame(b: seq<Base>, b': seq<Base>, head: nat, c: seq<nat>)
    requires Linked(b, head, c) && |b'| == |b|
    requires forall x :: x in c && x < |b| ==> b'[x].next == b[x].next
    ensures Linked(b', head, c)
  {
    forall i | 0 <= i < |c| ensures LinkNode(b', c, i) {
      assert LinkNode(b, c, i) && c[i] in c;
    }
  }

  lemma InsertedHere(b: seq<Base>, head: nat, c: seq<nat>, e: nat, v: Base)
    requires Linked(b, head, c) && e < |b| && e !in c && v.next == head
    ensures Linked(b[e := v], e, [e] + c)
  {
    var b', c' := b[e := v], [e] + c;
    forall i | 0 <= i < |c'| ensures LinkNode(b', c', i) {
      if i > 0 {
        assert LinkNode(b, c, i - 1) && c[i - 1] in c;
      }
    }
  }

  // The entry at position `k` of a chain unlinked from its predecessor.
  ghost function Unlinked(b: seq<Base>, c: seq<nat>, k: nat): (r: seq<Base>)
    requires k < |c| && c[k] < |b| && (k > 0 ==> c[k - 1] < |b|)
    ensures |r| == |b|
    ensures forall e :: 0 <= e < |b| ==>
      r[e].sector == b[e].sector && r[e].drive == b[e].drive && r[e].discard == b[e].discard
  {
    if k == 0 then b else b[c[k - 1] := b[c[k - 1]].(next := b[c[k]].next)]
  }

  function Dropped(c: seq<nat>, k: nat): (r: seq<nat>)
    requires k < |c|
  {
    c[..k] + c[k + 1..]
  }

  lemma DroppedMembers(c: seq<nat>, k: nat)
    requires k < |c| && Distinct(c)
    ensures forall x :: x in Dropped(c, k) <==> x in c && x != c[k]
    ensures Distinct(Dropped(c, k))
  {
    WithoutAt(c, k);
  }

  lemma Removed(b: seq<Base>, slot: seq<nat>, members: set<nat>, chains: seq<seq<nat>>, s: nat, k: nat)
    requires SlotsOk(b, slot, members, chains) && s < MAX_SLOTS && k < |chains[s]|
    ensures var c := chains[s];
      && c[k] < |b| && (k > 0 ==> c[k - 1] < |b|)
      && SlotsOk(Unlinked(b, c, k), if k == 0 then slot[s := b[c[0]].next]
          else slot, members - {c[k]}, chains[s := Dropped(c, k)])
  {
    var c := chains[s];
    assert ChainOk(b, slot, members, chains, s);
    RemovedHere(b, slot[s], c, k);
    DroppedMembers(c, k);
    var e, b', slot' := c[k], Unlinked(b, c, k), if k == 0 then slot[s := b[c[0]].next] else slot;
    var chains' := chains[s := Dropped(c, k)];
    forall t: nat | t < MAX_SLOTS ensures ChainOk(b', slot', members - {e}, chains', t) {
      assert ChainOk(b, slot, members, chains, t);
      if t != s {
        assert k > 0 ==> c[k - 1] in c;
        LinkedFrame(b, b', slot[t], chains[t]);
      }
    }
    hide Unlinked, Dropped, ChainOk, Linked, Distinct;
    forall x | x in members - {e} ensures x < |b'| && x in chains'[SlotOf(b'[x].sector)] {
      assert x in chains[SlotOf(b[x].sector)];
    }
  }

  lemma RemovedHere(b: seq<Base>, head: nat, c: seq<nat>, k: nat)
    requires Linked(b, head, c) && Distinct(c) && k < |c|
    ensures c[k] < |b| && (k > 0 ==> c[k - 1] < |b|)
    ensures Linked(Unlinked(b, c, k), if k == 0 then b[c[0]].next else head, Dropped(c, k))
  {
    assert LinkNode(b, c, k) && (k > 0 ==> LinkNode(b, c, k - 1));
    var c', b' := Dropped(c, k), Unlinked(b, c, k);
    forall i | 0 <= i < |c'| ensures LinkNode(b', c', i) {
      var j := if i < k then i else i + 1;
      assert LinkNode(b, c, j) && c'[i] == c[j] != c[k];
    }
  }

  // ---------------------------------------------------------------- dirty count

  ghost function DirtySet(dirty: seq<bool>): set<nat> { set e: nat | e < |dirty| && dirty[e] }

  lemma DirtyChanged(dirty: seq<bool>, e: nat, v: bool)
    requires e < |dirty|
    ensures |DirtySet(dirty[e := v])| == |DirtySet(dirty)| + (if v && !dirty[e] then 1
      else if !v && dirty[e] then -1 else 0)
  {
    if v {
      assert DirtySet(dirty[e := v]) == DirtySet(dirty) + {e};
    } else {
      assert DirtySet(dirty[e := v]) == DirtySet(dirty) - {e};
    }
  }

  // ---------------------------------------------------------------- contents

  type Disks = map<nat, seq<Sector>>

  ghost predicate SameShape(a: Disks, b: Disks) {
    a.Keys == b.Keys && forall d :: d in a ==> |a[d]| == |b[d]|
  }

  ghost predicate InDisk(disk: Disks, d: nat, s: nat) { d in disk && s < |disk[d]| }

  ghost predicate Live(b: Base) { b.drive != NO_DRIVE }

  ghost predicate Holds(b: seq<Base>, e: nat, d: nat, s: nat)
    requires e < |b|
  {
    b[e].drive == d && b[e].sector == s && d != NO_DRIVE
  }

  // Entry `e` against the logical contents: a live entry outside `stale` holds
  // what the sector logically contains, and only such an entry may be dirty.
  ghost predicate EntryOk(b: seq<Base>, dirty: seq<bool>, data: seq<Sector>, logical: Disks, stale: set<(nat, nat)>,
                          e: nat)
    requires e < |b| == |dirty| == |data|
  {
    && (Live(b[e]) ==> InDisk(logical, b[e].drive, b[e].sector))
    && (Live(b[e]) && (b[e].drive, b[e].sector) !in stale ==> data[e] == logical[b[e].drive][b[e].sector])
    && (dirty[e] ==> Live(b[e]) && (b[e].drive, b[e].sector) !in stale)
  }

  // Sector (d, s) has a dirty cached copy.
  ghost predicate DirtyAt(b: seq<Base>, dirty: seq<bool>, d: nat, s: nat)
    requires |b| == |dirty|
  {
    exists e: nat :: e < |b| && dirty[e] && Holds(b, e, d, s)
  }

  // The device differs from the logical contents only where a dirty entry says so.
  ghost predicate SectorOk(b: seq<Base>, dirty: seq<bool>, disk: Disks, logical: Disks, d: nat, s: nat)
    requires |b| == |dirty| && InDisk(disk, d, s) && InDisk(logical, d, s)
  {
    disk[d][s] == logical[d][s] || DirtyAt(b, dirty, d, s)
  }

  ghost predicate UniqueLive(b: seq<Base>, used: nat) {
    forall e: nat, e': nat :: e < e' < used <= |b| && Live(b[e]) && Live(b[e']) ==>
      b[e].drive != b[e'].drive || b[e].sector != b[e'].sector
  }

  ghost predicate ContentOk(b: seq<Base>, dirty: seq<bool>, data: seq<Sector>, used: nat,
                            disk: Disks, logical: Disks, stale: set<(nat, nat)>) {
    && used <= |b| == |dirty| == |data|
    && SameShape(disk, logical) && NO_DRIVE !in disk
    && UniqueLive(b, used)
    && (forall e: nat :: used <= e < |b| ==> !dirty[e] && b[e].drive == NO_DRIVE)
    && (forall e: nat :: e < |b| ==> EntryOk(b, dirty, data, logical, stale, e))
    && (forall d: nat, s: nat :: InDisk(disk, d, s) ==> SectorOk(b, dirty, disk, logical, d, s))
  }

  lemma ContentLive(b: seq<Base>, dirty: seq<bool>, data: seq<Sector>, used: nat, disk: Disks, logical: Disks,
                    stale: set<(nat, nat)>)
    requires ContentOk(b, dirty, data, used, disk, logical, stale)
    ensures UniqueLive(b, used) && forall x: nat :: x < |b| && dirty[x] ==> x < used && Live(b[x])
  {
    forall x: nat | x < |b| && dirty[x] ensures x < used && Live(b[x]) {
      assert EntryOk(b, dirty, data, logical, stale, x);
    }
  }

  ghost function Put(disk: Disks, d: nat, s: nat, v: Sector): Disks
    requires InDisk(disk, d, s)
  {
    disk[d := disk[d][s := v]]
  }

  // Only the devices of the drives have changed.
  ghost predicate OthersSame(disk: Disks, disk': Disks, drives: set<nat>) {
    disk'.Keys == disk.Keys && forall d :: d in disk && d !in drives ==> disk'[d] == disk[d]
  }

  lemma OthersStart(disk: Disks, drives: set<nat>)
    ensures OthersSame(disk, disk, drives)
  {
  }

  lemma OthersPut(disk: Disks, disk': Disks, d: nat, s: nat, v: Sector)
    requires OthersSame(disk, disk', {d}) && InDisk(disk', d, s)
    ensures OthersSame(disk, Put(disk', d, s, v), {d})
  {
  }

  lemma OthersTwice(disk: Disks, disk': Disks, disk'': Disks, drives: set<nat>, d: nat)
    requires OthersSame(disk, disk', drives) && OthersSame(disk', disk'', {d})
    ensures OthersSame(disk, disk'', drives + {d})
  {
  }

  // The sector's logical contents are its dirty cached copy, else the device's copy.
  lemma LogicalIs(b: seq<Base>, dirty: seq<bool>, data: seq<Sector>, used: nat,
                  disk: Disks, logical: Disks, stale: set<(nat, nat)>, d: nat, s: nat)
    requires ContentOk(b, dirty, data, used, disk, logical, stale) && InDisk(disk, d, s)
    ensures InDisk(logical, d, s)
    ensures forall e: nat :: e < |b| && dirty[e] && Holds(b, e, d, s) ==> logical[d][s] == data[e]
    ensures (forall e: nat :: e < |b| && dirty[e] ==> !Holds(b, e, d, s)) ==> logical[d][s] == disk[d][s]
  {
    assert SectorOk(b, dirty, disk, logical, d, s);
    forall e: nat | e < |b| && dirty[e] && Holds(b, e, d, s) ensures logical[d][s] == data[e] {
      assert EntryOk(b, dirty, data, logical, stale, e);
    }
  }

  // What changing one sector's logical contents may look like.
  ghost predicate OnlyAt(a: Disks, b: Disks, d: nat, s: nat) {
    && SameShape(a, b) && InDisk(a, d, s)
    && forall d': nat, s': nat :: InDisk(a, d', s') && (d' != d || s' != s) ==>
        InDisk(b, d', s') && b[d'][s'] == a[d'][s']
  }

  // Entry `e` now caches sector (d, s) with contents `v`: dirty, or equal to the
  // device, or (clean and different from the logical contents) stale.
  ghost predicate Caches(v: Sector, f: bool, disk': Disks, logical': Disks, stale': set<(nat, nat)>, d: nat, s: nat)
    requires InDisk(disk', d, s) && InDisk(logical', d, s)
  {
    && ((d, s) !in stale' ==> v == logical'[d][s])
    && (f ==> (d, s) !in stale')
    && (f || disk'[d][s] == logical'[d][s])
  }

  lemma ContentStored(b: seq<Base>, dirty: seq<bool>, data: seq<Sector>, used: nat, disk: Disks, logical: Disks,
                      stale: set<(nat, nat)>,
                      b': seq<Base>, used': nat, disk': Disks, logical': Disks, stale': set<(nat, nat)>,
                      e: nat, d: nat, s: nat, v: Sector, f: bool)
    requires ContentOk(b, dirty, data, used, disk, logical, stale)
    requires e < used' <= |b| == |b'| && (used' == used || (used' == used + 1 && e == used))
    requires b'[e].drive == d != NO_DRIVE && b'[e].sector == s
    requires forall x :: 0 <= x < |b| && x != e ==> b'[x].drive == b[x].drive && b'[x].sector == b[x].sector
    requires dirty[e] ==> Holds(b, e, d, s)
    requires forall x: nat :: x < used && x != e ==> !Holds(b, x, d, s)
    requires OnlyAt(disk, disk', d, s) && OnlyAt(logical, logical', d, s)
    requires stale - {(d, s)} <= stale' <= stale + {(d, s)}
    requires Caches(v, f, disk', logical', stale', d, s)
    ensures ContentOk(b', dirty[e := f], data[e := v], used', disk', logical', stale')
  {
    var dirty', data' := dirty[e := f], data[e := v];
    forall x: nat | x < |b'| ensures EntryOk(b', dirty', data', logical', stale', x) {
      assert EntryOk(b, dirty, data, logical, stale, x);
      assert x < used && x != e ==> !Holds(b, x, d, s);
    }
    forall d': nat, s': nat | InDisk(disk', d', s') ensures SectorOk(b', dirty', disk', logical', d', s') {
      assert SectorOk(b, dirty, disk, logical, d', s');
      if d' == d && s' == s {
        if f { assert dirty'[e] && Holds(b', e, d, s); }
      } else if x: nat :| x < |b| && dirty[x] && Holds(b, x, d', s') {
        assert x != e && dirty'[x] && Holds(b', x, d', s');
      }
    }
    hide EntryOk, SectorOk;
    forall x: nat, y: nat | x < y < used' && Live(b'[x]) && Live(b'[y])
      ensures b'[x].drive != b'[y].drive || b'[x].sector != b'[y].sector
    {
      assert x != e ==> !Holds(b, x, d, s);
      assert y != e && y < used ==> !Holds(b, y, d, s);
    }
  }

  // Writing a dirty entry to the device makes it clean; dropping it from its drive
  // as well loses nothing.
  lemma ContentFlushed(b: seq<Base>, dirty: seq<bool>, data: seq<Sector>, used: nat, disk: Disks, logical: Disks,
                       stale: set<(nat, nat)>,
                       b': seq<Base>, e: nat)
    requires ContentOk(b, dirty, data, used, disk, logical, stale) && e < |b| && dirty[e]
    requires b' == b || b' == b[e := b[e].(drive := NO_DRIVE)]
    ensures InDisk(disk, b[e].drive, b[e].sector) && b[e].drive != NO_DRIVE
    ensures ContentOk(b', dirty[e := false], data, used, Put(disk, b[e].drive, b[e].sector, data[e]), logical, stale)
  {
    assert EntryOk(b, dirty, data, logical, stale, e);
    var d, s := b[e].drive, b[e].sector;
    var dirty', disk' := dirty[e := false], Put(disk, d, s, data[e]);
    forall x: nat | x < |b'| ensures EntryOk(b', dirty', data, logical, stale, x) {
      assert EntryOk(b, dirty, data, logical, stale, x);
    }
    forall d': nat, s': nat | InDisk(disk', d', s') ensures SectorOk(b', dirty', disk', logical, d', s') {
      assert SectorOk(b, dirty, disk, logical, d', s');
      if !(d' == d && s' == s) {
        if x: nat :| x < |b| && dirty[x] && Holds(b, x, d', s') {
          assert x != e && dirty'[x] && Holds(b', x, d', s');
        }
      }
    }
  }

  lemma ContentDiscarded(b: seq<Base>, dirty: seq<bool>, data: seq<Sector>, used: nat, disk: Disks, logical: Disks,
                         stale: set<(nat, nat)>, e: nat)
    requires ContentOk(b, dirty, data, used, disk, logical, stale) && e < |b| && !dirty[e]
    ensures ContentOk(b[e := b[e].(drive := NO_DRIVE)], dirty, data, used, disk, logical, stale)
  {
    var b' := b[e := b[e].(drive := NO_DRIVE)];
    forall x: nat | x < |b'| ensures EntryOk(b', dirty, data, logical, stale, x) {
      assert EntryOk(b, dirty, data, logical, stale, x);
    }
    forall d: nat, s: nat | InDisk(disk, d, s) ensures SectorOk(b', dirty, disk, logical, d, s) {
      assert SectorOk(b, dirty, disk, logical, d, s);
      if x: nat :| x < |b| && dirty[x] && Holds(b, x, d, s) {
        assert x != e && Holds(b', x, d, s);
      }
    }
  }

  // The slot chains do not look at drives.
  lemma SlotsFrame(b: seq<Base>, b': seq<Base>, slot: seq<nat>, members: set<nat>, chains: seq<seq<nat>>)
    requires SlotsOk(b, slot, members, chains) && |b'| == |b|
    requires forall x :: 0 <= x < |b| ==> b'[x].next == b[x].next && b'[x].sector == b[x].sector
    ensures SlotsOk(b', slot, members, chains)
  {
    forall s: nat | s < MAX_SLOTS ensures ChainOk(b', slot, members, chains, s) {
      assert ChainOk(b, slot, members, chains, s);
      LinkedFrame(b, b', slot[s], chains[s]);
    }
  }

  // Nor do the contents depend on the discard marks and slot links.
  lemma DiscardIrrelevant(b: seq<Base>, dirty: seq<bool>, data: seq<Sector>, used: nat, disk: Disks, logical: Disks,
                          stale: set<(nat, nat)>,
                          b': seq<Base>)
    requires ContentOk(b, dirty, data, used, disk, logical, stale) && |b'| == |b|
    requires forall x :: 0 <= x < |b| ==> b'[x].drive == b[x].drive && b'[x].sector == b[x].sector
    ensures ContentOk(b', dirty, data, used, disk, logical, stale)
  {
    forall x: nat | x < |b'| ensures EntryOk(b', dirty, data, logical, stale, x) {
      assert EntryOk(b, dirty, data, logical, stale, x);
    }
    forall d: nat, s: nat | InDisk(disk, d, s) ensures SectorOk(b', dirty, disk, logical, d, s) {
      assert SectorOk(b, dirty, disk, logical, d, s);
      if x: nat :| x < |b| && dirty[x] && Holds(b, x, d, s) {
        assert Holds(b', x, d, s);
      }
    }
  }

  // The sector of a dirty entry in `done` has been written.
  ghost predicate Reached(b: seq<Base>, f: seq<bool>, data: seq<Sector>, done: set<nat>, s: nat, v: Sector) {
    exists x: nat :: x in done && x < |b| && x < |f| && x < |data| && f[x] && b[x].sector == s && data[x] == v
  }

  ghost predicate NotReached(b: seq<Base>, f: seq<bool>, done: set<nat>, s: nat) {
    forall x: nat :: x in done && x < |b| && x < |f| && f[x] ==> b[x].sector != s
  }

  // From (b, f, disk) to (b', f', disk'): the entries in `done`, all of drive `d`, have been
  // written back if they were dirty, and with `discard` given up; nothing else has changed.
  ghost predicate Written(b: seq<Base>, f: seq<bool>, data: seq<Sector>, disk: Disks, b': seq<Base>, f': seq<bool>,
                          disk': Disks, d: nat, discard: bool, done: set<nat>) {
    && |b| == |b'| == |f| == |f'| == |data|
    && (forall x: nat :: x in done ==> x < |b| && b[x].drive == d)
    && (forall x: nat :: x in done ==> !f'[x] && b'[x] == b[x].(drive := if discard then NO_DRIVE else d))
    && (forall x: nat :: x < |b| && x !in done ==> b'[x] == b[x] && f'[x] == f[x])
    && OthersSame(disk, disk', {d}) && d in disk && |disk'[d]| == |disk[d]|
    && forall s: nat :: s < |disk[d]| ==>
         Reached(b, f, data, done, s, disk'[d][s]) || (disk'[d][s] == disk[d][s] && NotReached(b, f, done, s))
  }

  lemma WrittenStart(b: seq<Base>, f: seq<bool>, data: seq<Sector>, disk: Disks, d: nat, discard: bool)
    requires |b| == |f| == |data| && d in disk
    ensures Written(b, f, data, disk, b, f, disk, d, discard, {})
  {
  }

  lemma WrittenStep(b: seq<Base>, f: seq<bool>, data: seq<Sector>, disk: Disks, b': seq<Base>, f': seq<bool>,
                    disk': Disks, d: nat, discard: bool, done: set<nat>, e: nat, used: nat, disk'': Disks)
    requires Written(b, f, data, disk, b', f', disk', d, discard, done) && UniqueLive(b, used) && d != NO_DRIVE
    requires e !in done && e < used <= |b| && b[e].drive == d && forall x :: x in done ==> x < used
    requires f[e] ==> InDisk(disk', d, b[e].sector)
    requires disk'' == if f[e] then Put(disk', d, b[e].sector, data[e]) else disk'
    ensures Written(b, f, data, disk, b'[e := b[e].(drive := if discard then NO_DRIVE else d)], f'[e := false], disk'',
      d, discard, done + {e})
  {
    forall s: nat | s < |disk[d]|
      ensures Reached(b, f, data, done + {e}, s, disk''[d][s]) ||
        (disk''[d][s] == disk[d][s] && NotReached(b, f, done + {e}, s))
    {
      if f[e] && s == b[e].sector {
        assert disk''[d][s] == data[e];
      } else if Reached(b, f, data, done, s, disk'[d][s]) {
        var x: nat :| x in done && x < |b| && x < |f| && x < |data| && f[x] && b[x].sector == s &&
          data[x] == disk'[d][s];
        assert x in done + {e};
      }
    }
  }

  // Entries that need nothing: clean ones that are not to be given up.
  lemma WrittenIdle(b: seq<Base>, f: seq<bool>, data: seq<Sector>, disk: Disks, b': seq<Base>, f': seq<bool>,
                    disk': Disks, d: nat, done: set<nat>, more: set<nat>)
    requires Written(b, f, data, disk, b', f', disk', d, false, done)
    requires forall x :: x in more ==> x < |b| && b[x].drive == d && !f'[x]
    ensures Written(b, f, data, disk, b', f', disk', d, false, done + more)
  {
    forall s: nat | s < |disk[d]|
      ensures Reached(b, f, data, done + more, s, disk'[d][s]) ||
        (disk'[d][s] == disk[d][s] && NotReached(b, f, done + more, s))
    {
      if Reached(b, f, data, done, s, disk'[d][s]) {
        var x: nat :| x in done && x < |b| && x < |f| && x < |data| && f[x] && b[x].sector == s &&
          data[x] == disk'[d][s];
        assert x in done + more;
      }
    }
  }

  lemma NoneDirty(dirty: seq<bool>)
    requires forall x :: 0 <= x < |dirty| ==> !dirty[x]
    ensures |DirtySet(dirty)| == 0
  {
    assert DirtySet(dirty) == {};
  }

  // Every sector of a dirty entry in `done` has the entry's data, and no other has changed.
  lemma WrittenIs(b: seq<Base>, f: seq<bool>, data: seq<Sector>, disk: Disks, b': seq<Base>, f': seq<bool>,
                  disk': Disks, d: nat, discard: bool, done: set<nat>, used: nat)
    requires Written(b, f, data, disk, b', f', disk', d, discard, done) && UniqueLive(b, used) && d != NO_DRIVE
    requires forall x :: x in done ==> x < used <= |b| && (f[x] ==> b[x].sector < |disk[d]|)
    ensures d in disk && d in disk' && |disk'[d]| == |disk[d]|
    ensures forall x :: x in done ==> !f'[x] && b'[x] == b[x].(drive := if discard then NO_DRIVE else d)
    ensures forall x: nat :: x < |b| && x !in done ==> b'[x] == b[x] && f'[x] == f[x]
    ensures forall x :: x in done && f[x] ==> disk'[d][b[x].sector] == data[x]
    ensures forall s: nat :: s < |disk[d]| && disk'[d][s] != disk[d][s] ==>
      exists x: nat :: x in done && f[x] && b[x].sector == s
  {
    forall x | x in done && f[x] ensures disk'[d][b[x].sector] == data[x] {
      var s := b[x].sector;
      assert Reached(b, f, data, done, s, disk'[d][s]);
      var y: nat :| y in done && y < |b| && y < |f| && y < |data| && f[y] && b[y].sector == s && data[y] == disk'[d][s];
      assert Live(b[x]) && Live(b[y]);
    }
  }

  // Flushing one drive leaves the others' dirty sectors and devices alone.
  lemma OtherDrivesKept(b: seq<Base>, f: seq<bool>, data: seq<Sector>, disk: Disks, b': seq<Base>, f': seq<bool>,
                        disk': Disks, drive: nat, discard: bool, done: set<nat>)
    requires Written(b, f, data, disk, b', f', disk', drive, discard, done) && drive != NO_DRIVE
    ensures disk'.Keys == disk.Keys && forall d :: d in disk && d != drive ==> disk'[d] == disk[d]
    ensures forall d: nat, s: nat :: d != drive ==> (DirtyAt(b', f', d, s) <==> DirtyAt(b, f, d, s))
  {
    forall d: nat, s: nat | d != drive ensures DirtyAt(b', f', d, s) <==> DirtyAt(b, f, d, s) {
      if x: nat :| x < |b| && f[x] && Holds(b, x, d, s) {
        assert f'[x] && Holds(b', x, d, s);
      }
      if x: nat :| x < |b| && f'[x] && Holds(b', x, d, s) {
        assert f[x] && Holds(b, x, d, s);
      }
    }
  }

  // Some entry is clean when not all of them are dirty.
  lemma SomeClean(f: seq<bool>)
    requires |DirtySet(f)| < |f|
    ensures exists e :: 0 <= e < |f| && !f[e]
  {
    if forall e :: 0 <= e < |f| ==> f[e] {
      AllIn(DirtySet(f), |f|);
    }
  }

  lemma {:induction false} AllIn(s: set<nat>, n: nat)
    requires forall x: nat :: x < n ==> x in s
    ensures |s| >= n
    decreases n
  {
    if n > 0 {
      AllIn(s - {n - 1}, n - 1);
    }
  }

  // Caching (d, s) with contents `v`: a dirty copy is what the sector contains from
  // now on, beside a clean one the device's contents count.
  ghost function NewLogical(logical: Disks, disk: Disks, d: nat, s: nat, v: Sector, f: bool): Disks
    requires InDisk(logical, d, s) && InDisk(disk, d, s)
  {
    Put(logical, d, s, if f then v else disk[d][s])
  }

  ghost function NewStale(stale: set<(nat, nat)>, disk: Disks, d: nat, s: nat, v: Sector, f: bool): set<(nat, nat)>
    requires InDisk(disk, d, s)
  {
    if f || v == disk[d][s] then stale - {(d, s)} else stale + {(d, s)}
  }

  lemma ContentNew(b: seq<Base>, dirty: seq<bool>, data: seq<Sector>, used: nat, disk: Disks, logical: Disks,
                   stale: set<(nat, nat)>,
                   b': seq<Base>, used': nat, e: nat, d: nat, s: nat, v: Sector, f: bool)
    requires ContentOk(b, dirty, data, used, disk, logical, stale)
    requires e < used' <= |b| == |b'| && (used' == used || (used' == used + 1 && e == used))
    requires b'[e].drive == d != NO_DRIVE && b'[e].sector == s
    requires forall x :: 0 <= x < |b| && x != e ==> b'[x].drive == b[x].drive && b'[x].sector == b[x].sector
    requires dirty[e] ==> Holds(b, e, d, s)
    requires forall x: nat :: x < used && x != e ==> !Holds(b, x, d, s)
    requires InDisk(disk, d, s) && InDisk(logical, d, s)
    ensures ContentOk(b', dirty[e := f], data[e := v], used',
      disk, NewLogical(logical, disk, d, s, v, f), NewStale(stale, disk, d, s, v, f))
  {
    ContentStored(b, dirty, data, used, disk, logical, stale, b', used',
      disk, NewLogical(logical, disk, d, s, v, f), NewStale(stale, disk, d, s, v, f), e, d, s, v, f);
  }

  // Giving one clean entry a new sector adds at most that sector to the dirty ones.
  lemma PlacedDirtyAt(b: seq<Base>, dirty: seq<bool>, b': seq<Base>, dirty': seq<bool>, e: nat, d: nat, s: nat, f: bool)
    requires |b| == |b'| == |dirty| == |dirty'| && e < |b| && !dirty[e]
    requires Holds(b', e, d, s) && dirty'[e] == f
    requires forall x :: 0 <= x < |b| && x != e ==>
      dirty'[x] == dirty[x] && b'[x].drive == b[x].drive && b'[x].sector == b[x].sector
    ensures forall d': nat, s': nat ::
      DirtyAt(b', dirty', d', s') <==> DirtyAt(b, dirty, d', s') || (f && d' == d && s' == s)
  {
    forall d': nat, s': nat
      ensures DirtyAt(b', dirty', d', s') <==> DirtyAt(b, dirty, d', s') || (f && d' == d && s' == s)
    {
      if x: nat :| x < |b| && dirty[x] && Holds(b, x, d', s') {
        assert x != e && dirty'[x] && Holds(b', x, d', s');
      }
      if x: nat :| x < |b| && dirty'[x] && Holds(b', x, d', s') {
        assert x != e ==> dirty[x] && Holds(b, x, d', s');
      }
    }
  }

  // A clean or dirty copy put in place of the only copy of (d, s).
  lemma ReplacedDirtyAt(b: seq<Base>, dirty: seq<bool>, used: nat, e: nat, d: nat, s: nat, f: bool)
    requires e < used <= |b| == |dirty| && Holds(b, e, d, s)
    requires forall x: nat :: used <= x < |b| ==> !dirty[x]
    requires forall x: nat :: x < used && x != e ==> !Holds(b, x, d, s)
    ensures DirtyAt(b, dirty[e := f], d, s) <==> f
    ensures forall d': nat, s': nat :: d' != d || s' != s ==>
      (DirtyAt(b, dirty[e := f], d', s') <==> DirtyAt(b, dirty, d', s'))
  {
    var dirty' := dirty[e := f];
    if DirtyAt(b, dirty', d, s) {
      var x: nat :| x < |b| && dirty'[x] && Holds(b, x, d, s);
      assert x < used;
    }
    if f {
      assert dirty'[e] && Holds(b, e, d, s);
    }
    forall d': nat, s': nat | d' != d || s' != s ensures DirtyAt(b, dirty', d', s') <==> DirtyAt(b, dirty, d', s') {
      if x: nat :| x < |b| && dirty'[x] && Holds(b, x, d', s') {
        assert x != e && dirty[x];
      }
      if x: nat :| x < |b| && dirty[x] && Holds(b, x, d', s') {
        assert dirty'[x];
      }
    }
  }

  // ---------------------------------------------------------------- transfers

  // The sectors from `s` on replaced by `buf`.
  function Overwritten(sectors: seq<Sector>, s: nat, buf: seq<Sector>): (r: seq<Sector>)
    requires s + |buf| <= |sectors|
    ensures |r| == |sectors|
  {
    sectors[..s] + buf + sectors[s + |buf|..]
  }

  ghost function WrittenDisks(disks: Disks, d: nat, s: nat, buf: seq<Sector>): Disks
    requires d in disks && s + |buf| <= |disks[d]|
  {
    disks[d := Overwritten(disks[d], s, buf)]
  }

  lemma WrittenSectors(disks: Disks, d: nat, s: nat, buf: seq<Sector>)
    requires d in disks && s + |buf| <= |disks[d]|
    ensures var r := WrittenDisks(disks, d, s, buf);
      && r.Keys == disks.Keys && (forall d' :: d' in disks && d' != d ==> r[d'] == disks[d'])
      && |r[d]| == |disks[d]|
      && forall x: nat :: x < |r[d]| ==> r[d][x] == if s <= x < s + |buf| then buf[x - s] else disks[d][x]
  {
  }

  // The sectors from `s` on replaced by `buf`, except those in `lost`.
  ghost predicate Transferred(from: Disks, to: Disks, d: nat, s: nat, buf: seq<Sector>, lost: iset<nat>) {
    && SameShape(from, to) && d in from && s + |buf| <= |from[d]|
    && (forall d' :: d' in from && d' != d ==> to[d'] == from[d'])
    && forall x: nat :: x < |from[d]| ==>
         to[d][x] == if s <= x < s + |buf| && x !in lost then buf[x - s] else from[d][x]
  }

  // Such a transfer is the whole one if and only if the lost sectors contained
  // already what was transferred to them.
  lemma TransferredWhole(from: Disks, to: Disks, d: nat, s: nat, buf: seq<Sector>, lost: iset<nat>)
    requires Transferred(from, to, d, s, buf, lost)
    ensures to == WrittenDisks(from, d, s, buf) <==>
      forall x: nat :: x in lost && s <= x < s + |buf| ==> from[d][x] == buf[x - s]
  {
    var w := Overwritten(from[d], s, buf);
    forall x: nat | x < |from[d]| ensures w[x] == if s <= x < s + |buf| then buf[x - s] else from[d][x] {
    }
    if forall x: nat :: x in lost && s <= x < s + |buf| ==> from[d][x] == buf[x - s] {
      assert to[d] == w;
      assert to == WrittenDisks(from, d, s, buf);
    } else {
      var x: nat :| x in lost && s <= x < s + |buf| && from[d][x] != buf[x - s];
      assert to[d][x] != w[x];
    }
  }

  lemma TransferredSame(from: Disks, to: Disks, d: nat, s: nat, buf: seq<Sector>, lost: iset<nat>, lost': iset<nat>)
    requires Transferred(from, to, d, s, buf, lost)
    requires forall x: nat :: s <= x < s + |buf| ==> (x in lost <==> x in lost')
    ensures Transferred(from, to, d, s, buf, lost')
  {
  }

  lemma TransferredPut(from: Disks, to: Disks, d: nat, s: nat, buf: seq<Sector>, lost: iset<nat>, x: nat)
    requires Transferred(from, to, d, s, buf, lost) && s <= x < s + |buf|
    ensures InDisk(to, d, x)
    ensures Transferred(from, Put(to, d, x, buf[x - s]), d, s, buf, lost - iset{x})
  {
  }

  lemma WrittenShape(disks: Disks, d: nat, s: nat, buf: seq<Sector>)
    requires d in disks && s + |buf| <= |disks[d]|
    ensures SameShape(disks, WrittenDisks(disks, d, s, buf))
  {
  }

  lemma PutSame(disks: Disks, d: nat, s: nat)
    requires InDisk(disks, d, s)
    ensures Put(disks, d, s, disks[d][s]) == disks
  {
    assert disks[d][s := disks[d][s]] == disks[d];
  }

  // What a reader gets: the logical contents up to `to`, the device's after it.
  ghost predicate Mixed(buf: seq<Sector>, read: seq<Sector>, logical: seq<Sector>, s: nat, to: nat)
    requires to <= |read| && s + |read| <= |logical|
  {
    |buf| == |read| && forall j :: 0 <= j < |read| ==> buf[j] == if j < to then logical[s + j] else read[j]
  }

  lemma OverlayStart(read: seq<Sector>, logical: seq<Sector>, s: nat)
    requires s + |read| <= |logical|
    ensures Mixed(read, read, logical, s, 0)
  {
  }

  lemma UnreadSector(buf: seq<Sector>, read: seq<Sector>, logical: seq<Sector>, s: nat, i: nat, to: nat)
    requires i < |read| && to <= |read| && s + |read| <= |logical|
    requires Mixed(buf, read, logical, s, if i < to then i else to)
    ensures |buf| == |read| && buf[i] == read[i]
  {
  }

  lemma MixedStep(buf: seq<Sector>, read: seq<Sector>, logical: seq<Sector>, s: nat, i: nat, to: nat, v: Sector)
    requires i < |read| && to <= |read| && s + |read| <= |logical|
    requires Mixed(buf, read, logical, s, if i < to then i else to)
    requires v == if i < to then logical[s + i] else read[i]
    ensures Mixed(buf[i := v], read, logical, s, if i + 1 < to then i + 1 else to)
  {
  }

  // A lazy write after `i` sectors: those in `skipped` were stale, and the write took
  // the stale copy for what the sector contains.
  ghost predicate Lazily(from: Disks, to: Disks, stale0: set<(nat, nat)>, stale: set<(nat, nat)>,
                         d: nat, s: nat, buf: seq<Sector>, i: nat, skipped: iset<nat>) {
    && i <= |buf| && stale <= stale0
    && Transferred(from, to, d, s, buf[..i], skipped)
    && forall x :: x in skipped ==> s <= x < s + i && (d, x) in stale0
  }

  lemma LazyStep(from: Disks, to: Disks, to': Disks, stale0: set<(nat, nat)>, stale: set<(nat, nat)>,
                 stale': set<(nat, nat)>,
                 d: nat, s: nat, buf: seq<Sector>, i: nat, skipped: iset<nat>, skip: bool)
    requires Lazily(from, to, stale0, stale, d, s, buf, i, skipped) && i < |buf|
    requires stale' <= stale && InDisk(to, d, s + i)
    requires skip ==> to' == to && (d, s + i) in stale
    requires !skip ==> to' == Put(to, d, s + i, buf[i])
    ensures Lazily(from, to', stale0, stale', d, s, buf, i + 1, if skip then skipped + iset{s + i} else skipped)
  {
    var skipped' := if skip then skipped + iset{s + i} else skipped;
    forall x: nat | x < |from[d]|
      ensures to'[d][x] == if s <= x < s + i + 1 && x !in skipped' then buf[..i + 1][x - s] else from[d][x]
    {
      assert s <= x < s + i ==> buf[..i][x - s] == buf[x - s];
    }
  }

  ghost function LostFrom(dirty: iset<nat>, from: nat): iset<nat> {
    iset x | x in dirty && x >= from
  }

  // A write through after `i` sectors. `dirty0` had a dirty copy before it, `dirty`
  // has one now; sector `flushedAt` of the transfer made the drive be flushed.
  ghost predicate Through(from: Disks, to: Disks, disk: Disks, stale0: set<(nat, nat)>, stale: set<(nat, nat)>,
                          dirty0: iset<nat>, dirty: iset<nat>, d: nat, s: nat, buf: seq<Sector>, i: nat,
                              flushedAt: nat) {
    && i <= |buf| && flushedAt <= |buf| && (flushedAt < |buf| ==> flushedAt < i)
    && Transferred(from, to, d, s, buf, LostFrom(dirty0, s + if i < flushedAt then i else flushedAt))
    && dirty == (if flushedAt < |buf| then iset{} else iset x | x in dirty0 && !(s <= x < s + i))
    && d in disk && d in to && |disk[d]| == |to[d]|
    && (forall x :: x in dirty && s + i <= x < s + |buf| ==> disk[d][x] == buf[x - s])
    && s + |buf| <= |to[d]| && Behind(to[d], stale0, stale, d, s, buf, i)
  }

  lemma ThroughStart(from: Disks, to: Disks, disk: Disks, stale: set<(nat, nat)>, clean: set<(nat, nat)>,
                     dirty: iset<nat>,
                     d: nat, s: nat, buf: seq<Sector>)
    requires Transferred(from, to, d, s, buf, dirty) && SameShape(disk, to)
    requires forall x: nat :: s <= x < s + |buf| ==> disk[d][x] == buf[x - s]
    requires forall k :: k in clean ==> k.0 == d && s <= k.1 < s + |buf|
    ensures Through(from, to, disk, stale, stale + clean, dirty, dirty, d, s, buf, 0, |buf|)
  {
    TransferredSame(from, to, d, s, buf, dirty, LostFrom(dirty, s));
  }

  // A sector whose dirty copy was replaced is no longer lost.
  lemma LostStep(from: Disks, to: Disks, to': Disks, dirty0: iset<nat>, d: nat, s: nat, buf: seq<Sector>, i: nat,
                 at: nat, at': nat, isDirty: bool)
    requires i < |buf| && Transferred(from, to, d, s, buf, LostFrom(dirty0, s + if i < at then i else at))
    requires InDisk(to, d, s + i) && to' == if isDirty then Put(to, d, s + i, buf[i]) else to
    requires at' == at || (at == |buf| && at' == i && !isDirty)
    requires isDirty ==> at == |buf|
    requires !isDirty && at == |buf| ==> s + i !in dirty0
    requires at <= |buf| && (at < |buf| ==> at < i)
    ensures Transferred(from, to', d, s, buf, LostFrom(dirty0, s + if i + 1 < at' then i + 1 else at'))
  {
    hide Transferred, Put;
    var lost := LostFrom(dirty0, s + if i < at then i else at);
    var lost' := LostFrom(dirty0, s + if i + 1 < at' then i + 1 else at');
    if isDirty {
      TransferredPut(from, to, d, s, buf, lost, s + i);
      assert LostFrom(dirty0, s + i) - iset{s + i} == LostFrom(dirty0, s + i + 1);
    }
    TransferredSame(from, to', d, s, buf, if isDirty then LostFrom(dirty0, s + i + 1) else lost, lost');
  }

  // Clean copies that are out of date after `i` sectors of a write through.
  ghost predicate Behind(to: seq<Sector>, stale0: set<(nat, nat)>, stale: set<(nat, nat)>, d: nat, s: nat,
                         buf: seq<Sector>, i: nat)
    requires i <= |buf| && s + |buf| <= |to|
  {
    && (forall k :: k in stale && k !in stale0 ==>
          k.0 == d && s <= k.1 < s + |buf| && (k.1 < s + i ==> to[k.1] != buf[k.1 - s]))
    && (forall x: nat :: s <= x < s + i && to[x] != buf[x - s] ==> (d, x) in stale)
  }

  lemma BehindStep(to: seq<Sector>, to': seq<Sector>, stale0: set<(nat, nat)>, stale: set<(nat, nat)>,
                   stale': set<(nat, nat)>,
                   d: nat, s: nat, buf: seq<Sector>, i: nat)
    requires i < |buf| && s + |buf| <= |to| && Behind(to, stale0, stale, d, s, buf, i)
    requires to' == to || to' == to[s + i := buf[i]]
    requires stale' - {(d, s + i)} == stale - {(d, s + i)}
    requires (d, s + i) in stale' <==> buf[i] != to'[s + i]
    ensures Behind(to', stale0, stale', d, s, buf, i + 1)
  {
    forall k | k in stale' && k !in stale0
      ensures k.0 == d && s <= k.1 < s + |buf| && (k.1 < s + i + 1 ==> to'[k.1] != buf[k.1 - s])
    {
      assert k != (d, s + i) ==> k in stale' - {(d, s + i)};
    }
    forall x: nat | s <= x < s + i + 1 && to'[x] != buf[x - s] ensures (d, x) in stale' {
      assert x != s + i ==> (d, x) in stale - {(d, s + i)};
    }
  }

  lemma ThroughStep(from: Disks, to: Disks, to': Disks, disk: Disks, disk': Disks, stale0: set<(nat, nat)>,
                    stale: set<(nat, nat)>,
                    stale': set<(nat, nat)>, dirty0: iset<nat>, dirty: iset<nat>, dirty': iset<nat>,
                    d: nat, s: nat, buf: seq<Sector>, i: nat, flushedAt: nat, flushed: bool)
    requires Through(from, to, disk, stale0, stale, dirty0, dirty, d, s, buf, i, flushedAt) && i < |buf|
    requires InDisk(to, d, s + i) && SameShape(disk, disk')
    requires to' == if s + i in dirty then Put(to, d, s + i, buf[i]) else to
    requires flushed ==> s + i !in dirty
    requires dirty' == if flushed then iset{} else dirty - iset{s + i}
    requires !flushed ==> disk'[d] == disk[d]
    requires stale' - {(d, s + i)} == stale - {(d, s + i)}
    requires (d, s + i) in stale' <==> buf[i] != to'[d][s + i]
    ensures Through(from, to', disk', stale0, stale', dirty0, dirty', d, s, buf, i + 1,
      if flushed && flushedAt == |buf| then i else flushedAt)
  {
    hide Transferred, LostFrom, Behind;
    var at' := if flushed && flushedAt == |buf| then i else flushedAt;
    LostStep(from, to, to', dirty0, d, s, buf, i, flushedAt, at', s + i in dirty);
    BehindStep(to[d], to'[d], stale0, stale, stale', d, s, buf, i);
  }

  // What readers see after the device alone was written: a dirty copy still hides the
  // device, a clean one may now be out of date.
  ghost function BehindDevice(b: seq<Base>, dirty: seq<bool>, logical: Disks, d: nat, s: nat,
                              buf: seq<Sector>): (r: Disks)
    requires |b| == |dirty| && d in logical && s + |buf| <= |logical[d]|
    ensures Transferred(logical, r, d, s, buf, iset x: nat | DirtyAt(b, dirty, d, x))
  {
    logical[d := seq(|logical[d]|, x requires 0 <= x < |logical[d]| =>
      if s <= x < s + |buf| && !DirtyAt(b, dirty, d, x) then buf[x - s] else logical[d][x])]
  }

  ghost function CleanSectors(b: seq<Base>, dirty: seq<bool>, d: nat, s: nat, n: nat): (r: set<(nat, nat)>)
    requires |b| == |dirty|
    ensures forall k :: k in r <==> k.0 == d && s <= k.1 < s + n && !DirtyAt(b, dirty, d, k.1)
  {
    set x: nat | s <= x < s + n && !DirtyAt(b, dirty, d, x) :: (d, x)
  }

  lemma ContentBehind(b: seq<Base>, dirty: seq<bool>, data: seq<Sector>, used: nat, disk: Disks, logical: Disks,
                      stale: set<(nat, nat)>,
                      d: nat, s: nat, buf: seq<Sector>)
    requires ContentOk(b, dirty, data, used, disk, logical, stale) && d in disk && s + |buf| <= |disk[d]|
    ensures d in logical && |logical[d]| == |disk[d]|
    ensures ContentOk(b, dirty, data, used, WrittenDisks(disk, d, s, buf),
      BehindDevice(b, dirty, logical, d, s, buf), stale + CleanSectors(b, dirty, d, s, |buf|))
  {
    hide DirtyAt;
    var disk', logical', stale' :=
      WrittenDisks(disk, d, s, buf), BehindDevice(b, dirty, logical, d, s, buf), stale + CleanSectors(b, dirty, d, s,
        |buf|);
    forall x: nat | x < |b| ensures EntryOk(b, dirty, data, logical', stale', x) {
      assert EntryOk(b, dirty, data, logical, stale, x);
      if dirty[x] {
        DirtyHere(b, dirty, x);
      }
    }
    forall d': nat, s': nat | InDisk(disk', d', s') ensures SectorOk(b, dirty, disk', logical', d', s') {
      assert SectorOk(b, dirty, disk, logical, d', s');
    }
  }

  lemma DirtyHere(b: seq<Base>, dirty: seq<bool>, x: nat)
    requires x < |b| == |dirty| && dirty[x] && Live(b[x])
    ensures DirtyAt(b, dirty, b[x].drive, b[x].sector)
  {
    assert Holds(b, x, b[x].drive, b[x].sector);
  }

  lemma StillToWrite(from: Disks, to: Disks, disk: Disks, stale0: set<(nat, nat)>, stale: set<(nat, nat)>,
                     dirty0: iset<nat>, dirty: iset<nat>, d: nat, s: nat, buf: seq<Sector>, i: nat, flushedAt: nat)
    requires Through(from, to, disk, stale0, stale, dirty0, dirty, d, s, buf, i, flushedAt) && i < |buf|
    ensures InDisk(disk, d, s + i) && (s + i in dirty ==> disk[d][s + i] == buf[i])
    ensures flushedAt == |buf| ==> (s + i in dirty <==> s + i in dirty0)
  {
  }

  lemma FlushedBefore(from: Disks, to: Disks, disk: Disks, stale0: set<(nat, nat)>, stale: set<(nat, nat)>,
                      dirty0: iset<nat>, dirty: iset<nat>, d: nat, s: nat, buf: seq<Sector>, i: nat, flushedAt: nat)
    requires Through(from, to, disk, stale0, stale, dirty0, dirty, d, s, buf, i, flushedAt)
    ensures flushedAt <= |buf| && (flushedAt < |buf| ==> flushedAt < i)
  {
  }

  lemma ThroughEnd(from: Disks, to: Disks, disk: Disks, stale0: set<(nat, nat)>, stale: set<(nat, nat)>,
                   dirty0: iset<nat>, dirty: iset<nat>, d: nat, s: nat, buf: seq<Sector>, flushedAt: nat)
    requires Through(from, to, disk, stale0, stale, dirty0, dirty, d, s, buf, |buf|, flushedAt)
    ensures flushedAt <= |buf| && Transferred(from, to, d, s, buf, LostFrom(dirty0, s + flushedAt))
    ensures d in to && s + |buf| <= |to[d]| && forall x :: x in dirty ==> !(s <= x < s + |buf|)
    ensures forall k :: k in stale && k !in stale0 ==> k.0 == d && s <= k.1 < s + |buf| && to[d][k.1] != buf[k.1 - s]
    ensures forall x: nat :: s <= x < s + |buf| && to[d][x] != buf[x - s] ==> (d, x) in stale
  {
  }

  lemma LazyStart(from: Disks, stale: set<(nat, nat)>, d: nat, s: nat, buf: seq<Sector>)
    requires d in from && s + |buf| <= |from[d]|
    ensures Lazily(from, from, stale, stale, d, s, buf, 0, iset{})
  {
  }

  // The sectors still to come contain what they did.
  lemma LazyNow(from: Disks, to: Disks, stale0: set<(nat, nat)>, stale: set<(nat, nat)>, d: nat, s: nat,
                buf: seq<Sector>, i: nat, skipped: iset<nat>)
    requires Lazily(from, to, stale0, stale, d, s, buf, i, skipped) && i < |buf| && InDisk(to, d, s + i)
    ensures d in from && |from[d]| == |to[d]| && to[d][s + i] == from[d][s + i]
  {
  }

  lemma LazyEnd(from: Disks, to: Disks, stale0: set<(nat, nat)>, stale: set<(nat, nat)>, d: nat, s: nat,
                buf: seq<Sector>, skipped: iset<nat>)
    requires Lazily(from, to, stale0, stale, d, s, buf, |buf|, skipped)
    ensures stale <= stale0 && Transferred(from, to, d, s, buf, skipped)
    ensures forall x :: x in skipped ==> (d, x) in stale0
  {
    assert buf[..|buf|] == buf;
  }

  lemma WrittenAt(disks: Disks, d: nat, s: nat, buf: seq<Sector>, i: nat)
    requires d in disks && s + |buf| <= |disks[d]| && i < |buf|
    ensures InDisk(WrittenDisks(disks, d, s, buf), d, s + i) && WrittenDisks(disks, d, s, buf)[d][s + i] == buf[i]
  {
  }

  // A sector without a cached copy has no stale one.
  lemma ContentUncached(b: seq<Base>, dirty: seq<bool>, data: seq<Sector>, used: nat, disk: Disks, logical: Disks,
                        stale: set<(nat, nat)>,
                        gone: set<(nat, nat)>)
    requires ContentOk(b, dirty, data, used, disk, logical, stale)
    requires forall x: nat :: x < used && Live(b[x]) ==> (b[x].drive, b[x].sector) !in gone
    ensures ContentOk(b, dirty, data, used, disk, logical, stale - gone)
  {
    forall x: nat | x < |b| ensures EntryOk(b, dirty, data, logical, stale - gone, x) {
      assert EntryOk(b, dirty, data, logical, stale, x);
    }
  }

  lemma EmptySlots(b: seq<Base>, slot: seq<nat>, chains: seq<seq<nat>>)
    requires |b| <= MAX_SECTORS && |slot| == |chains| == MAX_SLOTS
    requires forall s :: 0 <= s < MAX_SLOTS ==> slot[s] == NIL && chains[s] == []
    ensures SlotsOk(b, slot, Members(0), chains)
  {
  }

  lemma EmptyContent(b: seq<Base>, dirty: seq<bool>, data: seq<Sector>, disk: Disks)
    requires |b| == |dirty| == |data| && NO_DRIVE !in disk
    requires forall e :: 0 <= e < |b| ==> b[e].drive == NO_DRIVE && !dirty[e]
    ensures ContentOk(b, dirty, data, 0, disk, disk, {})
  {
  }
}

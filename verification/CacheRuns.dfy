// Every run of reads, lazy and write-through writes and flushes: what a sector
// contains, and when a read returns it, wherever its bytes happen to be.
module CacheRuns {
  import opened Common
  import opened CacheModel
  import opened CacheOrder
  import opened CacheRow
  import opened SectorCache

  datatype Op =
    | Read(d: nat, s: nat, n: nat, ra: nat, startOfData: nat, noCache: bool)
    | Write(d: nat, s: nat, buf: seq<Sector>, lazy: bool, through: bool, noCache: bool, writeProtected: bool)
    | Flush(d: nat, discard: bool, all: bool, aged: set<nat>, busy: set<nat>)

  datatype Outcome = Refused(rc: nat) | Done(buf: seq<Sector>)

  // The state of the cache as far as it matters to its callers: the contents of the disks,
  // their devices, the copies that may be out of date, all copies, and the entries by age.
  datatype Snapshot = Snapshot(logical: Disks, device: Disks, stale: set<Key>, copies: imap<Key, Sector>,
                               row: Row, size: nat, threshold: nat)
  {
    ghost function Order(): seq<Key> { OrderOf(row) }
  }

  ghost function Snap(c: SectorCache): Snapshot
    requires c.Shape() && c.used <= c.size
    reads c, c.base, c.dirty, c.data
  {
    Snapshot(c.logical, c.disk, c.stale, c.Copies(), c.Row(), c.size, c.threshold)
  }

  // The cached sectors are those that have an entry.
  ghost predicate CachedInRow(p: Snapshot) {
    forall k :: k in p.copies <==> PlaceOf(p.row, k) < |p.row| && k.0 != NO_DRIVE
  }

  // A dirty sector contains what its copy says, a clean one what its device says, and a
  // copy that is not stale is right.
  ghost predicate Sound(p: Snapshot) {
    && SameShape(p.device, p.logical)
    && (forall k :: k in p.copies ==> InDisk(p.logical, k.0, k.1))
    && (forall k :: k in p.copies && k !in p.stale ==> p.copies[k] == p.logical[k.0][k.1])
    && CachedInRow(p)
    && (forall k :: k in p.Order() ==> k in p.copies && k !in p.stale)
    && (forall d: nat, x: nat :: InDisk(p.logical, d, x) && (d, x) !in p.Order() ==> p.device[d][x] == p.logical[d][x])
  }

  // The same for one drive, as a transfer meets it.
  ghost function On(p: Snapshot, d: nat): Before {
    var order := p.Order();
    Before(p.logical, p.device, p.stale, DirtyOn(order, d), p.copies, p.row,
           Pace(CachedOn(p.copies, d), p.size - |p.row|, |order| - p.threshold, order))
  }

  predicate Accepted(l: Disks, op: Op) {
    && op.d in l
    && match op
       case Read(d, s, n, _, _, _) => s + n > 0 && s + n <= |l[d]|
       case Write(d, s, buf, _, _, _, wp) => !wp && s + |buf| > 0 && s + |buf| <= |l[d]|
       case Flush(_, _, _, _, _) => true
  }

  predicate Lazy(op: Op)
    requires op.Write?
  {
    op.lazy && !op.through && !op.noCache
  }

  // A read that finds every sector in the cache.
  ghost predicate Hit(p: Snapshot, op: Op)
    requires op.Read?
  {
    forall x: nat :: op.s <= x < op.s + op.n ==> (op.d, x) in p.copies
  }

  // How many sectors the operation transfers, with those it reads ahead.
  ghost function Extent(p: Snapshot, op: Op): nat
    requires Accepted(p.logical, op)
  {
    match op
    case Read(d, s, n, ra, startOfData, noCache) =>
      if Hit(p, op) || s < startOfData || noCache || ra <= n then n
      else if s + ra > |p.logical[d]| then |p.logical[d]| - s else ra
    case Write(_, _, buf, _, _, _, _) => |buf|
    case Flush(_, _, _, _, _) => 0
  }

  // A read makes the sectors it finds first the newest.
  ghost function AfterHits(b: Pace, op: Op): Pace
    requires op.Read?
  {
    b.(order := AfterAll(b.order, op.d, op.s, Hits(b.cached, op.s, op.n), true))
  }

  // At which sector of the transfer an emergency flush of the drive overtakes it, if at any.
  ghost function FlushPoint(p: Snapshot, op: Op): nat
    requires Accepted(p.logical, op)
  {
    var b := On(p, op.d).pace;
    match op
    case Read(d, s, _, _, _, noCache) =>
      if noCache then Extent(p, op) else
        FlushAt(AfterHits(b, op), d, s, true, p.threshold, Extent(p, op))
    case Write(d, s, buf, _, _, noCache, _) =>
      if noCache || Lazy(op) then |buf| else FlushAt(b, d, s, false, p.threshold, |buf|)
    case Flush(_, _, _, _, _) => 0
  }

  // No emergency flush overtakes the operation.
  ghost predicate Calm(p: Snapshot, op: Op) {
    Accepted(p.logical, op) ==> FlushPoint(p, op) == Extent(p, op)
  }

  // That is so below the threshold, and while the unused entries last.
  lemma CalmWhen(p: Snapshot, op: Op)
    requires op.Flush? || op.noCache || |p.Order()| < p.threshold ||
             (op.Write? && (Lazy(op) || |op.buf| <= p.size - |p.row|)) ||
             (op.Read? && op.n <= p.size - |p.row| && op.ra <= p.size - |p.row|)
    ensures Calm(p, op)
  {
    if Accepted(p.logical, op) && !op.Flush? {
      var b, n := On(p, op.d).pace, Extent(p, op);
      if op.Read? {
        NeverCrowded(AfterHits(b, op), op.d, op.s, true, n);
      } else {
        NeverCrowded(b, op.d, op.s, false, n);
      }
    }
  }

  lemma {:induction false} NeverCrowded(p: Pace, d: nat, s: nat, reading: bool, n: nat)
    ensures n <= p.room || p.surplus < 0 ==> FirstCrowded(p, d, s, reading, n) == n
  {
    if n > 0 {
      NeverCrowded(p, d, s, reading, n - 1);
      MissingOrAll(p, d, s, reading, n - 1);
    }
  }

  lemma MissingOrAll(p: Pace, d: nat, s: nat, reading: bool, k: nat)
    ensures Crowds(p, d, s, reading, k) ==> k >= p.room && p.surplus >= 0
  {
  }

  // A finished read: it changes no contents, returns the copies, or the contents up to the
  // flush point and what the device held from there on, and leaves exactly those stale.
  ghost predicate ReadDone(p: Snapshot, op: Op, buf: seq<Sector>, q: Snapshot)
    requires op.Read? && Accepted(p.logical, op) && SameShape(p.device, p.logical)
  {
    var at, n := FlushPoint(p, op), Extent(p, op);
    && q.logical == p.logical && op.s + n <= |p.logical[op.d]|
    && Returned(On(p, op.d), op.d, op.s, op.n, Hit(p, op), at, buf)
    && (forall k :: k in q.stale && k !in p.stale ==>
          k.0 == op.d && op.s + at <= k.1 < op.s + n && p.device[op.d][k.1] != p.logical[op.d][k.1])
    && (forall x: nat :: op.s + at <= x < op.s + n && p.device[op.d][x] != p.logical[op.d][x] ==> (op.d, x) in q.stale)
  }

  // A finished write changes exactly its transfer, but for the sectors it loses. A write
  // through loses those from the flush point on that were dirty. A lazy write loses those
  // whose copy is still there when it comes to them and that it is mistaken about.
  ghost predicate WriteDone(p: Snapshot, op: Op, q: Snapshot)
    requires op.Write? && Accepted(p.logical, op)
  {
    && SameShape(p.logical, q.logical)
    && (forall d :: d in p.logical && d != op.d ==> q.logical[d] == p.logical[d])
    && (forall x: nat :: x < |p.logical[op.d]| && !(op.s <= x < op.s + |op.buf|) ==>
        q.logical[op.d][x] == p.logical[op.d][x])
    && if Lazy(op) then LazyDone(p, op, q) else ThroughDone(p, op, q)
  }

  ghost predicate ThroughDone(p: Snapshot, op: Op, q: Snapshot)
    requires op.Write? && Accepted(p.logical, op) && SameShape(p.logical, q.logical)
  {
    && (forall x: nat :: op.s <= x < op.s + |op.buf| ==>
          q.logical[op.d][x] == if x >= op.s + FlushPoint(p, op) && (op.d, x) in p.Order() then p.logical[op.d][x]
          else op.buf[x - op.s])
    && (forall k :: k in q.stale && k !in p.stale ==>
          k.0 == op.d && op.s <= k.1 < op.s + |op.buf| && q.logical[op.d][k.1] != op.buf[k.1 - op.s])
    && (forall x: nat :: op.s <= x < op.s + |op.buf| && q.logical[op.d][x] != op.buf[x - op.s] ==> (op.d, x) in q.stale)
  }

  ghost predicate LazyDone(p: Snapshot, op: Op, q: Snapshot)
    requires op.Write? && Accepted(p.logical, op) && SameShape(p.logical, q.logical)
  {
    && q.stale <= p.stale
    && (forall x: nat :: op.s <= x < op.s + |op.buf| ==>
          q.logical[op.d][x] == if Loses(p, op, x) then p.logical[op.d][x] else op.buf[x - op.s])
    && (forall x: nat :: op.s <= x < op.s + |op.buf| && Loses(p, op, x) ==> (op.d, x) in p.stale)
  }

  // A lazy write drops sector `x` of its transfer.
  ghost predicate Loses(p: Snapshot, op: Op, x: nat)
    requires op.Write? && op.d in p.logical
  {
    && Mistaken(p.copies, p.logical[op.d], op.d, op.s, op.buf, x)
    && StillThere(p.row, p.size, p.threshold, p.copies, op.d, op.s, op.buf, x)
  }

  ghost predicate Step(p: Snapshot, op: Op, o: Outcome, q: Snapshot) {
    && Sound(p) && Sound(q) && (o.Done? <==> Accepted(p.logical, op))
    && (if o.Refused? || op.Flush? then q.logical == p.logical && q.stale <= p.stale
        else if op.Read? then ReadDone(p, op, o.buf, q)
        else WriteDone(p, op, q))
  }

  // A write of one sector lands if and only if it is not a lazy one that finds an
  // identical copy of a sector that contains something else.
  lemma OneSector(p: Snapshot, op: Op, o: Outcome, q: Snapshot)
    requires Step(p, op, o, q) && o.Done? && op.Write? && |op.buf| == 1
    ensures InDisk(q.logical, op.d, op.s)
    ensures q.logical[op.d][op.s] == op.buf[0] <==>
      !(Lazy(op) && (op.d, op.s) in p.copies && p.copies[(op.d, op.s)] == op.buf[0] != p.logical[op.d][op.s])
  {
    hide FlushPoint, Loses, Sound;
    if Lazy(op) {
      LosesFirst(p, op);
    } else {
      DirtyInTime(p, op);
    }
  }

  // The first sector's copy is still there.
  lemma LosesFirst(p: Snapshot, op: Op)
    requires Sound(p) && Accepted(p.logical, op) && op.Write? && op.buf != []
    ensures Loses(p, op, op.s) <==>
      (op.d, op.s) in p.copies && p.copies[(op.d, op.s)] == op.buf[0] != p.logical[op.d][op.s]
  {
    hide PlaceOf;
    assert LazyRow(p.row, p.size, p.threshold, p.copies, op.d, op.s, op.buf, op.s - op.s) == p.row;
  }

  // A dirty sector is cached, so a write through of it alone flushes nothing.
  lemma DirtyInTime(p: Snapshot, op: Op)
    requires Sound(p) && Accepted(p.logical, op) && op.Write? && |op.buf| == 1 && !Lazy(op)
    ensures (op.d, op.s) in p.Order() ==> FlushPoint(p, op) == 1
  {
    hide FlushAt, CachedInRow;
    if (op.d, op.s) in p.Order() {
      assert op.s in CachedOn(p.copies, op.d);
      NoneFlushed(On(p, op.d).pace, op.d, op.s, false, p.threshold, 1);
    }
  }

  // A read returns the contents of a sector if and only if its copy is up to date, or the
  // read meets it before the flush, or the device is.
  lemma ReadExactly(p: Snapshot, op: Op, o: Outcome, q: Snapshot, x: nat)
    requires Step(p, op, o, q) && o.Done? && op.Read? && op.s <= x < op.s + op.n
    ensures |o.buf| == op.n && x < |p.logical[op.d]| == |p.device[op.d]|
    ensures Hit(p, op) ==> (op.d, x) in p.copies
    ensures o.buf[x - op.s] == p.logical[op.d][x] <==>
      if Hit(p, op) then p.copies[(op.d, x)] == p.logical[op.d][x]
      else x < op.s + FlushPoint(p, op) || p.device[op.d][x] == p.logical[op.d][x]
  {
    hide FlushPoint, Returned, Sound, Hit, Extent;
    ReturnedAt(On(p, op.d), op.d, op.s, op.n, Hit(p, op), FlushPoint(p, op), o.buf, x);
  }

  lemma CalmReadExactly(p: Snapshot, op: Op, o: Outcome, q: Snapshot, x: nat)
    requires Step(p, op, o, q) && o.Done? && op.Read? && op.s <= x < op.s + op.n && Calm(p, op)
    requires (op.d, x) !in p.stale
    ensures InDisk(p.logical, op.d, x) && |o.buf| == op.n && o.buf[x - op.s] == p.logical[op.d][x]
  {
    hide FlushPoint, ReadDone, CachedInRow;
    ReadExactly(p, op, o, q, x);
  }

  ghost predicate IsTrace(trace: seq<Snapshot>, ops: seq<Op>, os: seq<Outcome>, n: nat) {
    n <= |ops| && n <= |os| && n < |trace| && forall j :: 0 <= j < n ==> Step(trace[j], ops[j], os[j], trace[j + 1])
  }

  lemma StepShape(p: Snapshot, op: Op, o: Outcome, q: Snapshot)
    requires Step(p, op, o, q)
    ensures SameShape(p.logical, q.logical)
  {
  }

  // A calm operation makes no sector stale.
  lemma CalmStep(p: Snapshot, op: Op, o: Outcome, q: Snapshot)
    requires Step(p, op, o, q) && Calm(p, op)
    ensures q.stale <= p.stale
  {
    hide FlushPoint, Loses, Returned, Sound;
    if Accepted(p.logical, op) && !op.Flush? {
      forall k | k in q.stale ensures k in p.stale {
      }
    }
  }

  // Operation `op` completed and wrote sector (d, x).
  predicate Writes(op: Op, o: Outcome, d: nat, x: nat) {
    o.Done? && op.Write? && op.d == d && op.s <= x < op.s + |op.buf|
  }

  lemma OneWrite(p: Snapshot, op: Op, q: Snapshot, d: nat, x: nat)
    requires op.Write? && Accepted(p.logical, op) && WriteDone(p, op, q)
    requires InDisk(p.logical, d, x) && (d, x) !in p.stale && (d, x) !in q.stale
    ensures InDisk(q.logical, d, x)
    ensures q.logical[d][x] == if op.d == d && op.s <= x < op.s + |op.buf| then op.buf[x - op.s] else p.logical[d][x]
  {
    hide FlushPoint, Loses;
  }

  // One operation changes a sector that is not stale only if it completes and writes it.
  lemma OneStep(p: Snapshot, op: Op, o: Outcome, q: Snapshot, d: nat, x: nat)
    requires Step(p, op, o, q) && InDisk(p.logical, d, x) && (d, x) !in p.stale && (d, x) !in q.stale
    ensures InDisk(q.logical, d, x)
    ensures q.logical[d][x] == if Writes(op, o, d, x) then op.buf[x - op.s] else p.logical[d][x]
  {
    hide FlushPoint, Returned, WriteDone, Sound;
    StepShape(p, op, o, q);
    if o.Done? && op.Write? {
      OneWrite(p, op, q, d, x);
    }
  }

  // The last completed write to a sector decides what it contains; a sector that no
  // operation wrote contains what it did at the start.
  lemma {:induction false} LastWriteWins(trace: seq<Snapshot>, ops: seq<Op>, os: seq<Outcome>, n: nat, d: nat, x: nat,
                                         i: nat)
    requires IsTrace(trace, ops, os, n) && InDisk(trace[0].logical, d, x)
    requires forall j :: 0 <= j <= n ==> (d, x) !in trace[j].stale
    requires forall j :: i < j < n ==> !Writes(ops[j], os[j], d, x)
    ensures InDisk(trace[n].logical, d, x)
    ensures i < n && Writes(ops[i], os[i], d, x) ==> trace[n].logical[d][x] == ops[i].buf[x - ops[i].s]
    ensures (forall j :: 0 <= j < n ==> !Writes(ops[j], os[j], d, x)) ==>
      trace[n].logical[d][x] == trace[0].logical[d][x]
  {
    hide Step, Writes, InDisk;
    if n > 0 {
      LastWriteWins(trace, ops, os, n - 1, d, x, i);
      assert Step(trace[n - 1], ops[n - 1], os[n - 1], trace[n]) && (d, x) !in trace[n - 1].stale;
      OneStep(trace[n - 1], ops[n - 1], os[n - 1], trace[n], d, x);
    }
  }

  // Operation `op` puts its contents into sector (d, x): it writes it and does not lose it.
  ghost predicate Lands(p: Snapshot, op: Op, o: Outcome, d: nat, x: nat) {
    Writes(op, o, d, x) && Accepted(p.logical, op) &&
    if Lazy(op) then !Loses(p, op, x) else x < op.s + FlushPoint(p, op) || (d, x) !in p.Order()
  }

  lemma OneLanding(p: Snapshot, op: Op, o: Outcome, q: Snapshot, d: nat, x: nat)
    requires Step(p, op, o, q) && InDisk(p.logical, d, x)
    ensures InDisk(q.logical, d, x)
    ensures q.logical[d][x] == if Lands(p, op, o, d, x) then op.buf[x - op.s] else p.logical[d][x]
  {
    hide FlushPoint, Loses, Returned, Sound;
    StepShape(p, op, o, q);
  }

  // In every run, stale sectors or not, the last write that landed decides what a sector
  // contains; a sector on which none landed contains what it did at the start.
  lemma {:induction false} LastLandedWrite(trace: seq<Snapshot>, ops: seq<Op>, os: seq<Outcome>, n: nat, d: nat,
                                           x: nat, i: nat)
    requires IsTrace(trace, ops, os, n) && InDisk(trace[0].logical, d, x)
    requires forall j :: i < j < n ==> !Lands(trace[j], ops[j], os[j], d, x)
    ensures InDisk(trace[n].logical, d, x)
    ensures i < n && Lands(trace[i], ops[i], os[i], d, x) ==> trace[n].logical[d][x] == ops[i].buf[x - ops[i].s]
    ensures (forall j :: 0 <= j < n ==> !Lands(trace[j], ops[j], os[j], d, x)) ==>
      trace[n].logical[d][x] == trace[0].logical[d][x]
  {
    hide Step, Lands, InDisk;
    if n > 0 {
      LastLandedWrite(trace, ops, os, n - 1, d, x, i);
      assert Step(trace[n - 1], ops[n - 1], os[n - 1], trace[n]);
      OneLanding(trace[n - 1], ops[n - 1], os[n - 1], trace[n], d, x);
    }
  }

  // While every operation is calm no sector becomes stale.
  lemma {:induction false} CalmRun(trace: seq<Snapshot>, ops: seq<Op>, os: seq<Outcome>, n: nat)
    requires IsTrace(trace, ops, os, n) && forall j :: 0 <= j < n ==> Calm(trace[j], ops[j])
    ensures forall j :: 0 <= j <= n ==> trace[j].stale <= trace[0].stale
  {
    hide Calm, Step;
    if n > 0 {
      CalmRun(trace, ops, os, n - 1);
      assert Step(trace[n - 1], ops[n - 1], os[n - 1], trace[n]) && Calm(trace[n - 1], ops[n - 1]);
      CalmStep(trace[n - 1], ops[n - 1], os[n - 1], trace[n]);
    }
  }

  // A calm read returns for each sector that was never stale what was written to it
  // last, and what it contained at the start if nothing was.
  lemma ReadsLastWrite(trace: seq<Snapshot>, ops: seq<Op>, os: seq<Outcome>, n: nat, x: nat, i: nat)
    requires IsTrace(trace, ops, os, n + 1) && ops[n].Read? && os[n].Done? && Calm(trace[n], ops[n])
    requires ops[n].s <= x < ops[n].s + ops[n].n && InDisk(trace[0].logical, ops[n].d, x)
    requires forall j :: 0 <= j <= n ==> (ops[n].d, x) !in trace[j].stale
    requires forall j :: i < j < n ==> !Writes(ops[j], os[j], ops[n].d, x)
    ensures |os[n].buf| == ops[n].n
    ensures i < n && Writes(ops[i], os[i], ops[n].d, x) ==> os[n].buf[x - ops[n].s] == ops[i].buf[x - ops[i].s]
    ensures (forall j :: 0 <= j < n ==> !Writes(ops[j], os[j], ops[n].d, x)) ==>
      os[n].buf[x - ops[n].s] == trace[0].logical[ops[n].d][x]
  {
    hide Writes, InDisk, Step, Calm;
    LastWriteWins(trace, ops, os, n, ops[n].d, x, i);
    assert Step(trace[n], ops[n], os[n], trace[n + 1]);
    CalmReadExactly(trace[n], ops[n], os[n], trace[n + 1], x);
  }

  // The driver executes any list of operations; the snapshots in between are a trace.
  method Run(c: SectorCache, ops: seq<Op>) returns (os: seq<Outcome>, ghost trace: seq<Snapshot>)
    requires c.Valid() && forall i :: 0 <= i < |ops| ==> ops[i].d in c.disk
    modifies c, c.base, c.base2, c.slot, c.dirty, c.data
    ensures c.Valid() && |os| == |ops| && |trace| == |ops| + 1
    ensures trace[0] == old(Snap(c)) && trace[|ops|] == Snap(c)
    ensures IsTrace(trace, ops, os, |ops|)
  {
    hide SectorCache.Valid, Step;
    os := [];
    c.SameDisks();
    trace := [Snap(c)];
    ghost var keys := c.disk.Keys;
    while |os| < |ops|
      invariant c.Valid() && c.Shape() && c.used <= c.size && c.disk.Keys == keys
      invariant |os| <= |ops| && |trace| == |os| + 1 && trace[0] == old(Snap(c)) && trace[|os|] == Snap(c)
      invariant IsTrace(trace, ops, os, |os|)
    {
      c.SameDisks();
      ghost var p := Snap(c);
      var o := Perform(c, ops[|os|]);
      c.SameDisks();
      StepShape(p, ops[|os|], o, Snap(c));
      os, trace := os + [o], trace + [Snap(c)];
    }
  }

  lemma InRowOrDead(c: SectorCache, k: Key)
    requires c.Valid()
    ensures c.Shape() && c.used <= c.size
    ensures k in c.Copies() <==> PlaceOf(c.Row(), k) < |c.Row()| && k.0 != NO_DRIVE
  {
    hide SectorCache.Valid, PlaceOf, RowOf, CopiesOf;
    c.SameDisks();
    if k.0 == NO_DRIVE {
      if k in c.Copies() {
        c.CopyRight(k);
        assert false;
      }
    } else {
      c.InRow(k.0, k.1);
    }
  }

  lemma SnapSound(c: SectorCache)
    requires c.Valid()
    ensures c.Shape() && c.used <= c.size && Sound(Snap(c)) && SameShape(c.disk, c.logical)
    ensures forall d: nat :: c.Now(d) == On(Snap(c), d)
    ensures |c.Order()| == c.dirtyCount
  {
    hide SectorCache.Valid, PlaceOf, RowOf, OrderOf, CopiesOf, DirtyOrder;
    c.SameDisks();
    c.OrderIs();
    c.RowIs();
    var p := Snap(c);
    forall k: Key ensures k in p.copies <==> PlaceOf(p.row, k) < |p.row| && k.0 != NO_DRIVE {
      InRowOrDead(c, k);
    }
    forall k | k in p.copies
      ensures InDisk(p.logical, k.0, k.1) && (k !in p.stale ==> p.copies[k] == p.logical[k.0][k.1])
    {
      c.CopyRight(k);
    }
    forall k | k in p.Order() ensures k in p.copies && k !in p.stale {
      c.DirtyCached(k);
    }
    forall d: nat, x: nat | InDisk(p.logical, d, x) && (d, x) !in p.Order() ensures p.device[d][x] == p.logical[d][x] {
      c.CleanCopy(d, x);
    }
    forall d: nat ensures c.Now(d) == On(p, d) {
      c.CachedSectorsAre(d);
      assert c.DirtySectors(d) == DirtyOn(p.Order(), d);
    }
  }

  method PerformWrite(c: SectorCache, op: Op) returns (o: Outcome)
    requires c.Valid() && op.Write? && op.d in c.disk
    modifies c, c.base, c.base2, c.slot, c.dirty, c.data
    ensures c.Valid() && Step(old(Snap(c)), op, o, Snap(c))
  {
    hide SectorCache.Valid, Transferred, SectorCache.WentThrough, SectorCache.WentLazily, Sound;
    hide SectorCache.Copies, SectorCache.Order, SectorCache.DirtySectors, SectorCache.CachedSectors;
    SnapSound(c);
    ghost var p, b := Snap(c), c.Now(op.d);
    ghost var calm := op.noCache || c.dirtyCount < c.threshold || c.used + |op.buf| <= c.size;
    var rc, at, lost := c.WriteSector(op.d, op.s, op.buf, op.lazy, op.through, op.noCache, op.writeProtected);
    SnapSound(c);
    o := if rc == NO_ERROR then Done([]) else Refused(rc);
    if rc == NO_ERROR {
      if Lazy(op) {
        WroteLazily(c, p, op, lost);
      } else {
        WroteThrough(c, p, op, calm, at, lost);
      }
    }
  }

  // A write through, in the words of `WriteDone`.
  lemma WroteThrough(c: SectorCache, p: Snapshot, op: Op, calm: bool, at: nat, lost: iset<nat>)
    requires c.Shape() && c.used <= c.size && op.Write? && Accepted(p.logical, op) && !Lazy(op)
    requires Transferred(p.logical, c.logical, op.d, op.s, op.buf, lost) && p.threshold == c.threshold
    requires c.WentThrough(On(p, op.d), op.d, op.s, op.buf, op.noCache, calm, at, lost)
    ensures WriteDone(p, op, Snap(c))
  {
  }

  // A lazy write.
  lemma WroteLazily(c: SectorCache, p: Snapshot, op: Op, lost: iset<nat>)
    requires c.Shape() && c.used <= c.size && op.Write? && Accepted(p.logical, op) && Lazy(op)
    requires Transferred(p.logical, c.logical, op.d, op.s, op.buf, lost)
    requires c.WentLazily(On(p, op.d), op.d, op.s, op.buf, lost) && p.size == c.size && p.threshold == c.threshold
    ensures WriteDone(p, op, Snap(c))
  {
    hide Mistaken, StillThere;
  }

  lemma HitIs(c: SectorCache, op: Op)
    requires c.Shape() && c.used <= c.size && op.Read?
    ensures c.AllCached(op.d, op.s, op.n) <==> Hit(Snap(c), op)
  {
    hide SectorCache.Cached, CopiesOf;
    c.CachedSectorsAre(op.d);
    if Hit(Snap(c), op) {
      forall x: nat | op.s <= x < op.s + op.n ensures x in c.CachedSectors(op.d) {
        assert (op.d, x) in c.Copies();
      }
    }
    if c.AllCached(op.d, op.s, op.n) {
      forall x: nat | op.s <= x < op.s + op.n ensures (op.d, x) in c.Copies() {
        assert x in c.CachedSectors(op.d);
      }
    }
  }

  method PerformRead(c: SectorCache, op: Op) returns (o: Outcome)
    requires c.Valid() && op.Read? && op.d in c.disk
    modifies c, c.base, c.base2, c.slot, c.dirty, c.data
    ensures c.Valid() && Step(old(Snap(c)), op, o, Snap(c))
  {
    hide SectorCache.Valid, SectorCache.Cached, Sound, Returned, SectorCache.LeftStale, FlushAt, AfterAll, Hits;
    hide SectorCache.Copies, SectorCache.Order, SectorCache.DirtySectors, SectorCache.CachedSectors;
    SnapSound(c);
    ghost var p, b := Snap(c), c.Now(op.d);
    HitIs(c, op);
    assert c.PaceAfterHits(op.d, op.s, op.n) == AfterHits(b.pace, op);
    var rc, buf, at, m := c.ReadSector(op.d, op.s, op.n, op.ra, op.startOfData, op.noCache);
    SnapSound(c);
    o := if rc == NO_ERROR then Done(buf) else Refused(rc);
    if rc == NO_ERROR {
      WasRead(c, p, op, buf, at, m);
    }
  }

  // A read, in the words of `ReadDone`.
  lemma WasRead(c: SectorCache, p: Snapshot, op: Op, buf: seq<Sector>, at: nat, m: nat)
    requires c.Shape() && c.used <= c.size && op.Read? && Accepted(p.logical, op) && SameShape(p.device, p.logical)
    requires c.logical == p.logical && m == Extent(p, op) && at == FlushPoint(p, op)
    requires Returned(On(p, op.d), op.d, op.s, op.n, Hit(p, op), at, buf)
    requires c.LeftStale(On(p, op.d), op.d, op.s, m, at)
    ensures ReadDone(p, op, buf, Snap(c))
  {
    hide Returned, Hit, Extent, FlushPoint;
  }

  method Perform(c: SectorCache, op: Op) returns (o: Outcome)
    requires c.Valid() && op.d in c.disk
    modifies c, c.base, c.base2, c.slot, c.dirty, c.data
    ensures c.Valid() && Step(old(Snap(c)), op, o, Snap(c))
  {
    hide SectorCache.Valid, Step, Sound;
    SnapSound(c);
    match op
    case Read(_, _, _, _, _, _) =>
      o := PerformRead(c, op);
    case Write(_, _, _, _, _, _, _) =>
      o := PerformWrite(c, op);
    case Flush(d, discard, all, aged, busy) =>
      ghost var p := Snap(c);
      ghost var n := c.FlushVolume(d, discard, all, aged, busy);
      SnapSound(c);
      o := Done([]);
      FlushDone(p, op, o, Snap(c));
  }

  lemma FlushDone(p: Snapshot, op: Op, o: Outcome, q: Snapshot)
    requires op.Flush? && o.Done? && op.d in p.logical && q.logical == p.logical && q.stale <= p.stale
    requires Sound(p) && Sound(q)
    ensures Step(p, op, o, q)
  {
  }
}

// The extended attributes of one file: reading, editing and writing back the packed
// list. The four bytes of cbList are kept as a field beside the buffer.
module EaFile {
  import opened Common
  import opened FatCodec
  import opened EaList

  const LIST: nat := 4    // offset of the first entry, sizeof(ULONG)

  // The entry size as the driver computes it, in a USHORT.
  function Size16(e: Entry): nat
    requires |e| >= FEA
  {
    Size(e) % 0x1_0000
  }

  // FindEA on any bytes: the offset of the entry, or 0.
  ghost function Walk(b: seq<Byte>, off: nat, cb: nat, name: seq<Byte>): nat
    requires cb <= |b|
    decreases cb - off
  {
    if off + FEA >= cb || off + Size(b[off..]) > cb then 0
    else if SameName(Name(b[off..off + Size(b[off..])]), name) then off
    else Walk(b, off + Size(b[off..]), cb, name)
  }

  // On a packed list it finds the first entry of that name.
  lemma {:induction false} WalkFind(b: seq<Byte>, off: nat, cb: nat, es: seq<Entry>, name: seq<Byte>)
    requires off <= cb <= |b| && b[off..cb] == Pack(es) && Entries(es) && off > 0
    ensures var i := Find(es, name); Walk(b, off, cb, name) == if i < |es| then off + |Pack(es[..i])| else 0
    decreases |es|
  {
    hide Walk, Find, Pack, IsEntry, Size;
    WalkStep(b, off, cb, es, name);
    if es != [] && !SameName(Name(es[0]), name) {
      FirstEntry(b, off, cb, es);
      WalkFind(b, off + |es[0]|, cb, es[1..], name);
      PackTail(es, Find(es, name));
      assert es[1..][..Find(es[1..], name)] == es[1..][..Find(es, name) - 1];
    }
  }

  // Names that differ in case only lead to the same entry.
  lemma WalkCase(b: seq<Byte>, cb: nat, name: seq<Byte>, other: seq<Byte>)
    requires cb <= |b|
    requires |name| == |other| && forall k :: 0 <= k < |name| ==>
        || name[k] == other[k] || (0x41 <= name[k] <= 0x5A && other[k] == name[k] + 0x20)
        || (0x41 <= other[k] <= 0x5A && name[k] == other[k] + 0x20)
    ensures Walk(b, LIST, cb, name) == Walk(b, LIST, cb, other)
  {
    SameNameIs(name, other);
    WalkAlike(b, LIST, cb, name, other);
  }

  lemma {:induction false} WalkAlike(b: seq<Byte>, off: nat, cb: nat, name: seq<Byte>, other: seq<Byte>)
    requires cb <= |b| && SameName(name, other)
    ensures Walk(b, off, cb, name) == Walk(b, off, cb, other)
    decreases cb - off
  {
    hide SameName;
    if off + FEA < cb && off + Size(b[off..]) <= cb {
      SourceEntry(b, off);
      SameNameWay(name, other, Name(b[off..off + Size(b[off..])]));
      WalkAlike(b, off + Size(b[off..]), cb, name, other);
    }
  }

  lemma WalkStep(b: seq<Byte>, off: nat, cb: nat, es: seq<Entry>, name: seq<Byte>)
    requires off <= cb <= |b| && b[off..cb] == Pack(es) && Entries(es) && off > 0
    ensures es == [] ==> Walk(b, off, cb, name) == 0 && Find(es, name) == 0
    ensures es != [] && SameName(Name(es[0]), name) ==>
      Walk(b, off, cb, name) == off && Find(es, name) == 0 && |Pack(es[..0])| == 0
    ensures es != [] && !SameName(Name(es[0]), name) ==>
      && off + |es[0]| <= cb && Walk(b, off, cb, name) == Walk(b, off + |es[0]|, cb, name)
      && Find(es, name) == 1 + Find(es[1..], name)
  {
    if es != [] {
      FirstEntry(b, off, cb, es);
      assert es[..0] == [];
    }
  }

  lemma FirstEntry(b: seq<Byte>, off: nat, cb: nat, es: seq<Entry>)
    requires off <= cb <= |b| && b[off..cb] == Pack(es) && Entries(es) && es != []
    ensures off + FEA < cb && Size(b[off..]) == |es[0]| && off + |es[0]| <= cb && b[off..off + |es[0]|] == es[0]
    ensures b[off + |es[0]|..cb] == Pack(es[1..])
  {
    hide Pack;
    PackAt(es, 0);
    assert es[..0] == [] && Pack([]) == [] by { NoEntries(); }
    var p, q := b[off..cb], Pack(es[1..]);
    assert p == es[0] + q;
    Slices(b, off, cb, es[0], q);
  }

  lemma NoEntries()
    ensures Pack([]) == []
  {
  }

  lemma Slices(b: seq<Byte>, off: nat, cb: nat, e: seq<Byte>, q: seq<Byte>)
    requires off <= cb <= |b| && b[off..cb] == e + q && IsEntry(e)
    ensures off + |e| <= cb && b[off..off + |e|] == e && b[off + |e|..cb] == q && Size(b[off..]) == Size(e)
  {
    assert b[off..off + |e|] == b[off..cb][..|e|];
    assert b[off + |e|..cb] == b[off..cb][|e|..];
    assert forall k :: 0 <= k < FEA ==> b[off..][k] == e[k];
  }

  lemma PackTail(es: seq<Entry>, i: nat)
    requires 0 < i <= |es|
    ensures Pack(es[..i]) == es[0] + Pack(es[1..][..i - 1])
  {
    PackConcat([es[0]], es[1..][..i - 1]);
    PackOne(es[0]);
    assert es[..i] == [es[0]] + es[1..][..i - 1];
  }

  // What usModifyEAS is to make of the source list from offset `off` on, the stored
  // entries being `es` by then. `check` is FSH_CHECKEANAME.
  datatype Outcome = Updated(es: seq<Entry>) | Rejected(rc: nat, at: nat)

  ghost function Process(check: seq<Byte> -> nat, src: seq<Byte>, off: nat, max: nat, es: seq<Entry>): (r: Outcome)
    requires max <= |src| && Entries(es)
    ensures r.Updated? ==> Entries(r.es)
    ensures r.Rejected? ==> r.rc != 0
    decreases max - off
  {
    if off + FEA >= max then Updated(es)
    else
      var size := Size(src[off..]);
      if off + size > max then Rejected(ERROR_EA_LIST_INCONSISTENT, off)
      else
        var e := src[off..off + size];
        if check(Name(e)) != 0 && ValueLen(e) != 0 then Rejected(check(Name(e)), off)
        else if LIST + |Pack(Apply(es, e))| > MAX_EA_SIZE then Rejected(ERROR_EAS_DIDNT_FIT, 0)
        else Process(check, src, off + size, max, Apply(es, e))
  }

  // The entries of the source list, as far as the walk gets.
  ghost function SourceEntries(src: seq<Byte>, off: nat, max: nat): (r: seq<Entry>)
    requires max <= |src|
    ensures Entries(r)
    decreases max - off
  {
    if off + FEA >= max || off + Size(src[off..]) > max then []
    else [src[off..off + Size(src[off..])]] + SourceEntries(src, off + Size(src[off..]), max)
  }

  // A successful update is the left fold of the source entries, in order.
  lemma {:induction false} ProcessFolds(check: seq<Byte> -> nat, src: seq<Byte>, off: nat, max: nat, es: seq<Entry>)
    requires max <= |src| && Proper(es) && LIST + |Pack(es)| <= MAX_EA_SIZE
    requires Process(check, src, off, max, es).Updated?
    ensures var r := Process(check, src, off, max, es).es;
      r == ApplyAll(es, SourceEntries(src, off, max)) && Proper(r) && LIST + |Pack(r)| <= MAX_EA_SIZE
    decreases max - off
  {
    hide Pack, Proper, Apply, Size;
    ProperEntries(es);
    if off + FEA < max {
      var size := Size(src[off..]);
      var e := src[off..off + size];
      SourceEntry(src, off);
      ApplyProper(es, e);
      ProcessFolds(check, src, off + size, max, Apply(es, e));
      FoldFront(es, e, SourceEntries(src, off + size, max));
    }
  }

  lemma ProperEntries(es: seq<Entry>)
    requires Proper(es)
    ensures Entries(es)
  {
  }

  lemma SourceEntry(src: seq<Byte>, off: nat)
    requires off + FEA <= |src| && off + Size(src[off..]) <= |src|
    ensures IsEntry(src[off..off + Size(src[off..])])
  {
    var h, e := src[off..], src[off..off + Size(src[off..])];
    assert e[1] == h[1] && e[2] == h[2] && e[3] == h[3];
  }

  lemma {:induction false} FoldFront(es: seq<Entry>, e: Entry, us: seq<Entry>)
    requires Entries(es) && IsEntry(e) && Entries(us)
    ensures Entries([e] + us) && ApplyAll(es, [e] + us) == ApplyAll(Apply(es, e), us)
    decreases |us|
  {
    hide Apply, IsEntry;
    if us == [] {
      assert [e] + us == [e] && [e][..0] == [];
    } else {
      var m := |us| - 1;
      assert ([e] + us)[..|us|] == [e] + us[..m];
      FoldFront(es, e, us[..m]);
    }
  }

  // ---------------------------------------------------------------- the loop of usModifyEAS

  // Between two rounds: the offset in the source list, and the target list with its
  // four bytes of cbList in front.
  datatype Loop = Loop(off: nat, list: seq<Byte>)

  datatype Round = Again(next: Loop) | Complete(list: seq<Byte>) | Stopped(rc: nat, at: nat)

  // Up to 255 bytes of memory behind the source list can be looked at, when the length
  // of a name says so.
  predicate Memory(src: seq<Byte>, max: nat) { max <= MAX_EA_SIZE && max + 255 <= |src| }

  function NameAt(src: seq<Byte>, off: nat): seq<Byte>
    requires off + FEA + 255 <= |src|
  {
    src[off + FEA..off + FEA + NameLen(src[off..])]
  }

  // Insert, replace or delete in the packed bytes; None when they would not fit.
  ghost function Edit(list: seq<Byte>, name: seq<Byte>, data: seq<Byte>): (r: Maybe)
    requires LIST <= |list| <= MAX_EA_SIZE
    ensures r.Some? ==> LIST <= |r.entry| <= MAX_EA_SIZE
    ensures data == [] ==> r.Some?
  {
    var off := Walk(list, LIST, |list|, name);
    if off == 0 then (if |list| + |data| > MAX_EA_SIZE then None else Some(list + data))
    else
      WalkInside(list, LIST, |list|, name);
      var was := Size(list[off..]);
      if |list| - was + |data| > MAX_EA_SIZE then None else Some(list[..off] + data + list[off + was..])
  }

  lemma WalkNext(b: seq<Byte>, off: nat, cb: nat, name: seq<Byte>)
    requires cb <= |b| && off > 0
    ensures off + FEA >= cb ==> Walk(b, off, cb, name) == 0
    ensures off + FEA < cb ==>
      var size := Size(b[off..]);
      && size > FEA
      && if off + size > cb then Walk(b, off, cb, name) == 0
         else
           && IsEntry(b[off..off + size])
           && Walk(b, off, cb, name) == if SameName(Name(b[off..off + size]), name) then off
               else Walk(b, off + size, cb, name)
  {
    hide SameName, Name;
    if off + FEA < cb && off + Size(b[off..]) <= cb {
      SourceEntry(b, off);
    }
  }

  // An entry that is found lies inside the list.
  lemma {:induction false} WalkInside(b: seq<Byte>, off: nat, cb: nat, name: seq<Byte>)
    requires cb <= |b|
    ensures var r := Walk(b, off, cb, name);
      r != 0 ==> off <= r && r + FEA < cb && r + Size(b[r..]) <= cb
    decreases cb - off
  {
    hide SameName, Name;
    if off + FEA < cb && off + Size(b[off..]) <= cb && !SameName(Name(b[off..off + Size(b[off..])]), name) {
      WalkInside(b, off + Size(b[off..]), cb, name);
    }
  }

  ghost function OneRound(check: seq<Byte> -> nat, src: seq<Byte>, max: nat, s: Loop): (r: Round)
    requires Memory(src, max) && LIST <= |s.list| <= MAX_EA_SIZE
    ensures r.Again? ==> LIST <= |r.next.list| <= MAX_EA_SIZE && s.off + FEA < max && s.off <= r.next.off
  {
    if s.off + FEA >= max then Complete(s.list)
    else
      var header, name := src[s.off..], NameAt(src, s.off);
      var size := Size16(header);
      if s.off + size > max then Stopped(ERROR_EA_LIST_INCONSISTENT, s.off)
      else if check(name) != 0 && ValueLen(header) != 0 then Stopped(check(name), s.off)
      else
        var data := if ValueLen(header) == 0 || NameLen(header) == 0 then [] else src[s.off..s.off + size];
        var r := Edit(s.list, name, data);
        if r.None? then Stopped(ERROR_EAS_DIDNT_FIT, 0) else Again(Loop(s.off + size, r.entry))
  }

  // The loop as a whole. A round that does not advance is repeated for ever.
  datatype Result = Done(list: seq<Byte>) | Failed(rc: nat, at: nat) | Endless

  ghost function Execute(check: seq<Byte> -> nat, src: seq<Byte>, max: nat, s: Loop): (r: Result)
    requires Memory(src, max) && LIST <= |s.list| <= MAX_EA_SIZE
    ensures r.Done? ==> LIST <= |r.list| <= MAX_EA_SIZE
    decreases max - s.off
  {
    match OneRound(check, src, max, s)
    case Complete(list) => Done(list)
    case Stopped(rc, at) => Failed(rc, at)
    case Again(next) => if next.off == s.off then Endless else Execute(check, src, max, next)
  }

  // After `k` rounds, unless the loop was left before.
  ghost function Rounds(check: seq<Byte> -> nat, src: seq<Byte>, max: nat, s: Loop, k: nat): (r: Round)
    requires Memory(src, max) && LIST <= |s.list| <= MAX_EA_SIZE
    ensures r.Again? ==> LIST <= |r.next.list| <= MAX_EA_SIZE
    decreases k
  {
    if k == 0 then Again(s)
    else
      var r := OneRound(check, src, max, s);
      if r.Again? then Rounds(check, src, max, r.next, k - 1) else r
  }

  // A round that does not advance: its entry has a size of 0 modulo 65536 and a name
  // that is accepted.
  ghost predicate Stuck(check: seq<Byte> -> nat, src: seq<Byte>, max: nat, off: nat)
    requires Memory(src, max)
  {
    off + FEA < max && Size16(src[off..]) == 0 && check(NameAt(src, off)) == 0
  }

  lemma StuckRound(check: seq<Byte> -> nat, src: seq<Byte>, max: nat, s: Loop)
    requires Memory(src, max) && LIST <= |s.list| <= MAX_EA_SIZE
    ensures Stuck(check, src, max, s.off) <==>
      var r := OneRound(check, src, max, s); r.Again? && r.next.off == s.off
  {
    if s.off + FEA < max && Size16(src[s.off..]) == 0 {
      assert ValueLen(src[s.off..]) != 0;
      assert src[s.off..s.off + 0] == [];
    }
  }

  lemma {:induction false} StuckForEver(check: seq<Byte> -> nat, src: seq<Byte>, max: nat, s: Loop, k: nat)
    requires Memory(src, max) && LIST <= |s.list| <= MAX_EA_SIZE && Stuck(check, src, max, s.off)
    ensures Rounds(check, src, max, s, k).Again?
    decreases k
  {
    hide OneRound, Stuck;
    StuckRound(check, src, max, s);
    if k > 0 {
      StuckForEver(check, src, max, OneRound(check, src, max, s).next, k - 1);
    }
  }

  ghost function Ended(r: Round): Result
    requires !r.Again?
  {
    if r.Complete? then Done(r.list) else Failed(r.rc, r.at)
  }

  ghost predicate GoesOn(check: seq<Byte> -> nat, src: seq<Byte>, max: nat, s: Loop)
    requires Memory(src, max) && LIST <= |s.list| <= MAX_EA_SIZE
  {
    forall k: nat :: Rounds(check, src, max, s, k).Again?
  }

  ghost predicate StuckAfter(check: seq<Byte> -> nat, src: seq<Byte>, max: nat, s: Loop, k: nat)
    requires Memory(src, max) && LIST <= |s.list| <= MAX_EA_SIZE
  {
    var r := Rounds(check, src, max, s, k);
    r.Again? && Stuck(check, src, max, r.next.off)
  }

  ghost predicate GetsStuck(check: seq<Byte> -> nat, src: seq<Byte>, max: nat, s: Loop)
    requires Memory(src, max) && LIST <= |s.list| <= MAX_EA_SIZE
  {
    exists k: nat :: StuckAfter(check, src, max, s, k)
  }

  // The loop goes on for ever if and only if some round is stuck; otherwise it ends,
  // with the result of `Execute`.
  lemma {:induction false} Terminates(check: seq<Byte> -> nat, src: seq<Byte>, max: nat, s: Loop)
    requires Memory(src, max) && LIST <= |s.list| <= MAX_EA_SIZE
    ensures Execute(check, src, max, s).Endless? <==> GoesOn(check, src, max, s)
    ensures Execute(check, src, max, s).Endless? <==> GetsStuck(check, src, max, s)
    ensures forall k: nat :: !Rounds(check, src, max, s, k).Again? ==>
      Execute(check, src, max, s) == Ended(Rounds(check, src, max, s, k))
    decreases max - s.off
  {
    hide OneRound, Stuck, GoesOn, GetsStuck, StuckAfter, Rounds;
    StuckRound(check, src, max, s);
    var r := OneRound(check, src, max, s);
    if !r.Again? {
      LeftAtOnce(check, src, max, s);
    } else if r.next.off == s.off {
      StuckAtOnce(check, src, max, s);
    } else {
      Terminates(check, src, max, r.next);
      GoesOnShift(check, src, max, s);
      GetsStuckShift(check, src, max, s);
      forall k: nat | !Rounds(check, src, max, s, k).Again?
        ensures Execute(check, src, max, s) == Ended(Rounds(check, src, max, s, k))
      {
        FirstRound(check, src, max, s, k);
      }
    }
  }

  lemma FirstRound(check: seq<Byte> -> nat, src: seq<Byte>, max: nat, s: Loop, k: nat)
    requires Memory(src, max) && LIST <= |s.list| <= MAX_EA_SIZE
    ensures Rounds(check, src, max, s, 0) == Again(s)
    ensures var r := OneRound(check, src, max, s);
      k > 0 ==> Rounds(check, src, max, s, k) == if r.Again? then Rounds(check, src, max, r.next, k - 1) else r
  {
  }

  lemma LeftAtOnce(check: seq<Byte> -> nat, src: seq<Byte>, max: nat, s: Loop)
    requires Memory(src, max) && LIST <= |s.list| <= MAX_EA_SIZE && !OneRound(check, src, max, s).Again?
    ensures !GoesOn(check, src, max, s) && !GetsStuck(check, src, max, s)
    ensures forall k: nat :: !Rounds(check, src, max, s, k).Again? ==>
      Rounds(check, src, max, s, k) == OneRound(check, src, max, s)
  {
    hide OneRound, Stuck, Rounds;
    StuckRound(check, src, max, s);
    forall k: nat ensures Rounds(check, src, max, s, k) == if k == 0 then Again(s) else OneRound(check, src, max, s) {
      FirstRound(check, src, max, s, k);
    }
    assert !Rounds(check, src, max, s, 1).Again?;
  }

  lemma StuckAtOnce(check: seq<Byte> -> nat, src: seq<Byte>, max: nat, s: Loop)
    requires Memory(src, max) && LIST <= |s.list| <= MAX_EA_SIZE && Stuck(check, src, max, s.off)
    ensures GoesOn(check, src, max, s) && GetsStuck(check, src, max, s)
    ensures forall k: nat :: Rounds(check, src, max, s, k).Again?
  {
    hide OneRound, Stuck, Rounds;
    FirstRound(check, src, max, s, 0);
    assert StuckAfter(check, src, max, s, 0);
    forall k: nat ensures Rounds(check, src, max, s, k).Again? {
      StuckForEver(check, src, max, s, k);
    }
  }

  // What holds of all rounds from the second on holds of all rounds from where the first ended.
  lemma GoesOnShift(check: seq<Byte> -> nat, src: seq<Byte>, max: nat, s: Loop)
    requires Memory(src, max) && LIST <= |s.list| <= MAX_EA_SIZE && OneRound(check, src, max, s).Again?
    ensures GoesOn(check, src, max, s) <==> GoesOn(check, src, max, OneRound(check, src, max, s).next)
  {
    hide OneRound, Rounds;
    var t := OneRound(check, src, max, s).next;
    if GoesOn(check, src, max, s) {
      forall k: nat ensures Rounds(check, src, max, t, k).Again? {
        FirstRound(check, src, max, s, k + 1);
        assert Rounds(check, src, max, s, k + 1).Again?;
      }
    }
    if GoesOn(check, src, max, t) {
      forall k: nat ensures Rounds(check, src, max, s, k).Again? {
        FirstRound(check, src, max, s, k);
      }
    }
  }

  lemma GetsStuckShift(check: seq<Byte> -> nat, src: seq<Byte>, max: nat, s: Loop)
    requires Memory(src, max) && LIST <= |s.list| <= MAX_EA_SIZE
    requires OneRound(check, src, max, s).Again? && OneRound(check, src, max, s).next.off != s.off
    ensures GetsStuck(check, src, max, s) <==> GetsStuck(check, src, max, OneRound(check, src, max, s).next)
  {
    hide OneRound, Rounds, Stuck;
    var t := OneRound(check, src, max, s).next;
    StuckRound(check, src, max, s);
    if GetsStuck(check, src, max, s) {
      var k: nat :| StuckAfter(check, src, max, s, k);
      FirstRound(check, src, max, s, k);
      assert StuckAfter(check, src, max, t, k - 1);
    }
    if GetsStuck(check, src, max, t) {
      var k: nat :| StuckAfter(check, src, max, t, k);
      FirstRound(check, src, max, s, k + 1);
      assert StuckAfter(check, src, max, s, k + 1);
    }
  }

  // Every entry that the walk meets either fits a USHORT, or its wrapped size still
  // reaches past the end of the list (or its name is refused with the same error).
  ghost predicate Caught(check: seq<Byte> -> nat, src: seq<Byte>, off: nat, max: nat, es: seq<Entry>)
    requires Memory(src, max) && Entries(es)
    decreases max - off
  {
    off + FEA >= max ||
    var size := Size(src[off..]);
    if size >= 0x1_0000 then off + Size16(src[off..]) > max || check(NameAt(src, off)) == ERROR_EA_LIST_INCONSISTENT
    else if off + size > max then true
    else
      var e := src[off..off + size];
      SourceEntry(src, off);
      (check(Name(e)) != 0 && ValueLen(e) != 0) || LIST + |Pack(Apply(es, e))| > MAX_EA_SIZE || Caught(check, src,
          off + size, max, Apply(es, e))
  }

  ghost function Intended(head: seq<Byte>, o: Outcome): Result {
    match o
    case Updated(es) => Done(head + Pack(es))
    case Rejected(rc, at) => Failed(rc, at)
  }

  // The loop does what is intended if and only if no wrapped size goes unnoticed.
  lemma {:induction false} AsIntended(check: seq<Byte> -> nat, src: seq<Byte>, off: nat, max: nat, head: seq<Byte>,
    es: seq<Entry>)
    requires Memory(src, max) && LIST <= off && Entries(es) && |head| == LIST && LIST + |Pack(es)| <= MAX_EA_SIZE
    ensures Execute(check, src, max, Loop(off, head + Pack(es))) == Intended(head, Process(check, src, off, max, es))
      <==> Caught(check, src, off, max, es)
    decreases max - off
  {
    hide Pack, Apply, Edit, IsEntry, Name, Deletes, OneRound;
    var s := Loop(off, head + Pack(es));
    if off + FEA >= max {
      EndOfList(check, src, max, s);
    } else {
      var size := Size(src[off..]);
      if size >= 0x1_0000 {
        Unnoticed(check, src, off, max, s.list);
      } else if off + size > max {
        CutOff(check, src, max, s);
      } else {
        var e := src[off..off + size];
        SourceEntry(src, off);
        RoundApplies(check, src, off, max, head, es);
        if !(check(Name(e)) != 0 && ValueLen(e) != 0) && LIST + |Pack(Apply(es, e))| <= MAX_EA_SIZE {
          AsIntended(check, src, off + size, max, head, Apply(es, e));
        }
      }
    }
  }

  // The next source entry, byte by byte: one that goes beyond the list and one with a value
  // whose name is refused end the update at its offset; else only the size of the stored
  // list can.
  lemma NextEntry(check: seq<Byte> -> nat, src: seq<Byte>, max: nat, s: Loop)
    requires Memory(src, max) && 4 <= |s.list| <= 65536 && s.off + 4 < max
    ensures var n, v := src[s.off + 1] as int, src[s.off + 2] as int + 256 * (src[s.off + 3] as int);
      var size := (5 + n + v) % 65536;
      && s.off + 4 + n <= |src|
      && var name := src[s.off + 4..s.off + 4 + n];
      && (s.off + size > max ==> Execute(check, src, max, s) == Failed(255, s.off))
      && (s.off + size <= max && v != 0 && check(name) != 0 ==>
            Execute(check, src, max, s) == Failed(check(name), s.off))
      && (s.off + size <= max && (v == 0 || check(name) == 0) ==>
            var r := OneRound(check, src, max, s);
            (r.Stopped? ==> r.rc == 275 && r.at == 0) && (r.Again? ==> r.next.off == s.off + size) && !r.Complete?)
  {
    hide Edit, Execute, Size16, ValueLen, NameAt;
    EntryBytes(src, s.off);
    Stops(check, src, max, s);
  }

  lemma EntryBytes(src: seq<Byte>, off: nat)
    requires off + FEA + 255 <= |src|
    ensures var n, v := src[off + 1] as int, src[off + 2] as int + 256 * (src[off + 3] as int);
      && Size16(src[off..]) == (5 + n + v) % 65536 && ValueLen(src[off..]) == v
      && off + 4 + n <= |src| && NameAt(src, off) == src[off + 4..off + 4 + n]
  {
  }

  lemma Stops(check: seq<Byte> -> nat, src: seq<Byte>, max: nat, s: Loop)
    requires Memory(src, max) && LIST <= |s.list| <= MAX_EA_SIZE
    ensures var r := OneRound(check, src, max, s);
      r.Stopped? ==> Execute(check, src, max, s) == Failed(r.rc, r.at)
  {
    hide OneRound;
  }

  lemma EndOfList(check: seq<Byte> -> nat, src: seq<Byte>, max: nat, s: Loop)
    requires Memory(src, max) && LIST <= |s.list| <= MAX_EA_SIZE && s.off + FEA >= max
    ensures OneRound(check, src, max, s) == Complete(s.list)
  {
  }

  lemma CutOff(check: seq<Byte> -> nat, src: seq<Byte>, max: nat, s: Loop)
    requires Memory(src, max) && LIST <= |s.list| <= MAX_EA_SIZE && s.off + FEA < max
    requires Size(src[s.off..]) < 0x1_0000 && s.off + Size(src[s.off..]) > max
    ensures OneRound(check, src, max, s) == Stopped(255, s.off)
  {
  }

  // A round on an entry that is whole.
  lemma RoundApplies(check: seq<Byte> -> nat, src: seq<Byte>, off: nat, max: nat, head: seq<Byte>, es: seq<Entry>)
    requires Memory(src, max) && Entries(es) && |head| == LIST && LIST + |Pack(es)| <= MAX_EA_SIZE
    requires off + FEA < max && Size(src[off..]) < 0x1_0000 && off + Size(src[off..]) <= max
    ensures var size := Size(src[off..]);
      var e := src[off..off + size];
      && IsEntry(e)
      && OneRound(check, src, max, Loop(off, head + Pack(es))) ==
           if check(Name(e)) != 0 && ValueLen(e) != 0 then Stopped(check(Name(e)), off)
           else if LIST + |Pack(Apply(es, e))| > MAX_EA_SIZE then Stopped(ERROR_EAS_DIDNT_FIT, 0)
           else Again(Loop(off + size, head + Pack(Apply(es, e))))
  {
    hide Pack, Apply, Edit, IsEntry, Name, NameAt, Size, Entries;
    WholeEntry(src, off);
    var size, e := Size(src[off..]), src[off..off + Size(src[off..])];
    EditApplies(head, es, e);
    assert Size16(src[off..]) == size;
    assert (if ValueLen(src[off..]) == 0 || NameLen(src[off..]) == 0 then [] else e) == if Deletes(e) then [] else e;
  }

  lemma WholeEntry(src: seq<Byte>, off: nat)
    requires off + FEA + 255 <= |src| && off + Size(src[off..]) <= |src|
    ensures var e := src[off..off + Size(src[off..])];
      IsEntry(e) && NameAt(src, off) == Name(e) && ValueLen(src[off..]) == ValueLen(e) &&
          NameLen(src[off..]) == NameLen(e)
  {
    SourceEntry(src, off);
    var h, e := src[off..], src[off..off + Size(src[off..])];
    assert e[1] == h[1] && e[2] == h[2] && e[3] == h[3];
    var n := NameLen(h);
    assert e[FEA..FEA + n] == src[off + FEA..off + FEA + n];
  }

  // An entry whose wrapped size is within the list: the loop goes on behind it, or not
  // at all, and does not report it.
  lemma Unnoticed(check: seq<Byte> -> nat, src: seq<Byte>, off: nat, max: nat, list: seq<Byte>)
    requires Memory(src, max) && off + FEA < max && Size(src[off..]) >= 0x1_0000 && LIST <= |list| <= MAX_EA_SIZE
    ensures Execute(check, src, max, Loop(off, list)) == Failed(ERROR_EA_LIST_INCONSISTENT, off) <==>
      off + Size16(src[off..]) > max || check(NameAt(src, off)) == ERROR_EA_LIST_INCONSISTENT
  {
    hide Execute, OneRound, Size, NameAt;
    var s := Loop(off, list);
    var r := OneRound(check, src, max, s);
    WrappedRound(check, src, off, max, list);
    OneMore(check, src, max, s);
    if r.Again? && r.next.off > off {
      ReportsLater(check, src, max, r.next);
    }
  }

  lemma OneMore(check: seq<Byte> -> nat, src: seq<Byte>, max: nat, s: Loop)
    requires Memory(src, max) && LIST <= |s.list| <= MAX_EA_SIZE
    ensures var r := OneRound(check, src, max, s);
      Execute(check, src, max, s) ==
        if !r.Again? then Ended(r) else if r.next.off == s.off then Endless else Execute(check, src, max, r.next)
  {
  }

  lemma WrappedRound(check: seq<Byte> -> nat, src: seq<Byte>, off: nat, max: nat, list: seq<Byte>)
    requires Memory(src, max) && off + FEA < max && Size(src[off..]) >= 0x1_0000 && LIST <= |list| <= MAX_EA_SIZE
    ensures var r := OneRound(check, src, max, Loop(off, list));
      if off + Size16(src[off..]) > max then r == Stopped(ERROR_EA_LIST_INCONSISTENT, off)
      else if check(NameAt(src, off)) != 0 then r == Stopped(check(NameAt(src, off)), off)
      else r == Stopped(ERROR_EAS_DIDNT_FIT, 0) || (r.Again? && r.next.off == off + Size16(src[off..]))
  {
    hide Edit;
    assert ValueLen(src[off..]) != 0;
  }

  lemma {:induction false} ReportsLater(check: seq<Byte> -> nat, src: seq<Byte>, max: nat, s: Loop)
    requires Memory(src, max) && LIST <= |s.list| <= MAX_EA_SIZE
    ensures var r := Execute(check, src, max, s);
      r.Failed? ==> r.at >= s.off || r.rc != ERROR_EA_LIST_INCONSISTENT
    decreases max - s.off
  {
    hide Edit;
    var r := OneRound(check, src, max, s);
    if r.Again? && r.next.off > s.off {
      ReportsLater(check, src, max, r.next);
    }
  }

  // In particular what a successful update then stores is the left fold of the source
  // entries: a list with unique names, no longer than the limit.
  lemma StoresFold(check: seq<Byte> -> nat, src: seq<Byte>, max: nat, head: seq<Byte>, es: seq<Entry>)
    requires Memory(src, max) && Proper(es) && |head| == LIST && LIST + |Pack(es)| <= MAX_EA_SIZE
    requires Entries(es) && Caught(check, src, LIST, max, es)
    ensures var r := Execute(check, src, max, Loop(LIST, head + Pack(es)));
      && !r.Endless?
      && (r.Done? ==> var es' := ApplyAll(es, SourceEntries(src, LIST, max));
           Proper(es') && r.list == head + Pack(es'))
  {
    hide Pack, Proper, Execute, Caught, Process, SourceEntries;
    AsIntended(check, src, LIST, max, head, es);
    if Process(check, src, LIST, max, es).Updated? {
      ProcessFolds(check, src, LIST, max, es);
    }
  }

  // On a packed list an edit is an update of the list.
  lemma EditApplies(head: seq<Byte>, es: seq<Entry>, e: Entry)
    requires |head| == LIST && Entries(es) && IsEntry(e) && LIST + |Pack(es)| <= MAX_EA_SIZE
    ensures Edit(head + Pack(es), Name(e), if Deletes(e) then [] else e) ==
      if LIST + |Pack(Apply(es, e))| <= MAX_EA_SIZE then Some(head + Pack(Apply(es, e))) else None
  {
    hide Pack, Apply, Size, IsEntry, Walk, Find, Edit, Deletes;
    AppliedPack(es, e);
    var i, data := Find(es, Name(e)), if Deletes(e) then [] else e;
    if i == |es| {
      AppendsNew(head, es, Name(e), data);
    } else {
      ReplacesFound(head, es, Name(e), data);
    }
  }

  lemma AppendsNew(head: seq<Byte>, es: seq<Entry>, name: seq<Byte>, data: seq<Byte>)
    requires |head| == LIST && Entries(es) && LIST + |Pack(es)| <= MAX_EA_SIZE && Find(es, name) == |es|
    ensures var applied := Pack(es) + data;
      Edit(head + Pack(es), name, data) == if LIST + |applied| <= MAX_EA_SIZE then Some(head + applied) else None
  {
    hide Pack, Walk, Find, Edit;
    var list := head + Pack(es);
    assert list[LIST..|list|] == Pack(es);
    WalkFind(list, LIST, |list|, es, name);
    EditNew(list, name, data);
    assert list + data == head + (Pack(es) + data);
  }

  lemma ReplacesFound(head: seq<Byte>, es: seq<Entry>, name: seq<Byte>, data: seq<Byte>)
    requires |head| == LIST && Entries(es) && LIST + |Pack(es)| <= MAX_EA_SIZE && Find(es, name) < |es|
    ensures var i := Find(es, name);
      var applied := Pack(es[..i]) + data + Pack(es[i + 1..]);
      Edit(head + Pack(es), name, data) == if LIST + |applied| <= MAX_EA_SIZE then Some(head + applied) else None
  {
    hide Pack, Walk, Find, Edit, Size, Entries;
    var list, i := head + Pack(es), Find(es, name);
    assert list[LIST..|list|] == Pack(es);
    WalkFind(list, LIST, |list|, es, name);
    At(list, |list|, es, i);
    var off := LIST + |Pack(es[..i])|;
    EditFound(list, name, data, off, |es[i]|);
    Between(head, list, off, |es[i]|, Pack(es[..i]), Pack(es[i + 1..]), data);
  }

  lemma EditNew(list: seq<Byte>, name: seq<Byte>, data: seq<Byte>)
    requires LIST <= |list| <= MAX_EA_SIZE && Walk(list, LIST, |list|, name) == 0
    ensures Edit(list, name, data) == if |list| + |data| > MAX_EA_SIZE then None else Some(list + data)
  {
  }

  lemma EditFound(list: seq<Byte>, name: seq<Byte>, data: seq<Byte>, off: nat, was: nat)
    requires LIST <= |list| <= MAX_EA_SIZE && Walk(list, LIST, |list|, name) == off >= LIST
    requires off + was <= |list| && FEA <= was && Size(list[off..]) == was
    ensures Edit(list, name, data) ==
      if |list| - was + |data| > MAX_EA_SIZE then None else Some(list[..off] + data + list[off + was..])
  {
    hide Walk, Size;
  }

  lemma Between(head: seq<Byte>, list: seq<Byte>, off: nat, n: nat, x: seq<Byte>, z: seq<Byte>, data: seq<Byte>)
    requires |head| <= off && off + n <= |list|
    requires list[..|head|] == head && list[|head|..off] == x && list[off + n..|list|] == z
    ensures list[..off] + data + list[off + n..] == head + (x + data + z)
  {
    assert list[..off] == list[..|head|] + list[|head|..off];
    assert list[off + n..] == list[off + n..|list|];
  }

  // FEALIST
  class FeaList {
    const buf: array<Byte>
    var cbList: nat

    ghost predicate Valid()
      reads this
    {
      buf.Length == MAX_EA_SIZE && LIST <= cbList <= MAX_EA_SIZE
    }

    // The list with its four bytes of cbList, which are kept in the field instead.
    ghost function List(): (r: seq<Byte>)
      requires Valid()
      reads this, buf
      ensures |r| == cbList
    {
      buf[..cbList]
    }

    // usReadEAS: a copy of what is stored.
    constructor (stored: seq<Byte>)
      requires LIST + |stored| <= MAX_EA_SIZE
      ensures Valid() && fresh(buf) && List() == [0, 0, 0, 0] + stored
    {
      buf := new Byte[MAX_EA_SIZE](i => if LIST <= i < LIST + |stored| then stored[i - LIST] else 0);
      cbList := LIST + |stored|;
      new;
      assert buf[..cbList] == [0, 0, 0, 0] + stored;
    }

    lemma Part(off: nat, n: nat)
      requires Valid() && off + n <= cbList
      ensures buf[off..off + n] == List()[off..off + n]
    {
    }

    // FindEA
    method FindEA(name: seq<Byte>) returns (off: nat)
      requires Valid()
      ensures off == Walk(List(), LIST, cbList, name)
    {
      hide Walk, Size, SameName, IsEntry;
      ghost var list := List();
      off := LIST;
      while off + FEA < cbList
        invariant LIST <= off && Walk(list, off, cbList, name) == Walk(list, LIST, cbList, name)
        decreases cbList - off
      {
        WalkNext(list, off, cbList, name);
        var size := SizeAt(off);
        if off + size > cbList {
          return 0;
        }
        Part(off, size);
        var e := buf[off..off + size];
        if SameName(Name(e), name) {
          return;
        }
        off := off + size;
      }
      WalkNext(list, off, cbList, name);
      off := 0;
    }

    // memmove of what is behind an entry, memcpy of the new one, and cbList.
    method Splice(off: nat, oldSize: nat, data: seq<Byte>)
      requires Valid() && LIST <= off && off + oldSize <= cbList && cbList - oldSize + |data| <= MAX_EA_SIZE
      modifies this`cbList, buf
      ensures Valid() && List() == old(List()[..off]) + data + old(List()[off + oldSize..])
    {
      ghost var b, cb := buf[..], cbList;
      assert List() == b[..cb];
      var moveSize := cbList - off - oldSize;
      forall k | 0 <= k < moveSize {
        buf[off + |data| + k] := buf[off + oldSize + k];
      }
      forall k | 0 <= k < |data| {
        buf[off + k] := data[k];
      }
      cbList := cbList - oldSize + |data|;
      Joined(b, buf[..], off, oldSize, data, cb);
      assert List() == buf[..][..cbList];
    }

    // One update of usModifyEAS: insert, replace or delete.
    method Store(name: seq<Byte>, data: seq<Byte>) returns (rc: nat)
      requires Valid()
      modifies this, buf
      ensures Valid()
      ensures match Edit(old(List()), name, data)
        case Some(list) => rc == NO_ERROR && List() == list
        case None => rc == ERROR_EAS_DIDNT_FIT && List() == old(List())
      // On the bytes: the entry found gives way to the new one, which else goes to the end.
      ensures var off := Walk(old(List()), LIST, |old(List())|, name); off == 0 || LIST <= off < |old(List())| - 4
      ensures var off, list := Walk(old(List()), LIST, |old(List())|, name), old(List());
        var was :=
          if off == 0 then 0 else 5 + list[off + 1] as int + list[off + 2] as int + 0x100 * list[off + 3] as int;
        var at := if off == 0 then |list| else off;
        && at + was <= |list|
        && rc == (if |list| - was + |data| > 65536 then 275 else 0)
        && (rc == NO_ERROR ==> List() == list[..at] + data + list[at + was..])
    {
      hide Walk, Size, SameName;
      ghost var list := List();
      WalkInside(list, LIST, cbList, name);
      var off := FindEA(name);
      if off == 0 {
        if MAX_EA_SIZE - cbList < |data| {
          return ERROR_EAS_DIDNT_FIT;
        }
        Splice(cbList, 0, data);
        AtEnd(list, data);
      } else {
        var oldSize := SizeAt(off);
        if oldSize < |data| {
          if MAX_EA_SIZE - cbList < |data| - oldSize {
            return ERROR_EAS_DIDNT_FIT;
          }
        }
        Splice(off, oldSize, data);
      }
      rc := NO_ERROR;
    }

    function SizeAt(off: nat): (n: nat)
      requires Valid() && off + FEA <= cbList
      reads this, buf
      ensures n == Size(List()[off..])
    {
      var cbName: int, lo: int, hi: int := buf[off + 1], buf[off + 2], buf[off + 3];
      FEA + cbName + 1 + (lo + 256 * hi)
    }
  }

  lemma AtEnd(list: seq<Byte>, data: seq<Byte>)
    ensures list[..|list|] + data + list[|list| + 0..] == list + data
  {
  }

  lemma Joined(b: seq<Byte>, r: seq<Byte>, off: nat, oldSize: nat, data: seq<Byte>, cb: nat)
    requires off + oldSize <= cb <= |b| == |r| && cb - oldSize + |data| <= |b|
    requires forall k :: 0 <= k < off ==> r[k] == b[k]
    requires forall k :: off <= k < off + |data| ==> r[k] == data[k - off]
    requires forall k :: off + |data| <= k < cb - oldSize + |data| ==> r[k] == b[k + oldSize - |data|]
    ensures r[..cb - oldSize + |data|] == b[..cb][..off] + data + b[..cb][off + oldSize..]
  {
    assert b[..cb][..off] == b[..off];
    assert b[..cb][off + oldSize..] == b[off + oldSize..cb];
  }

  // The bytes of the list after an update.
  lemma AppliedPack(es: seq<Entry>, e: Entry)
    requires Entries(es) && IsEntry(e)
    ensures var i := Find(es, Name(e));
      var data := if Deletes(e) then [] else e;
      if i == |es| then Pack(Apply(es, e)) == Pack(es) + data
      else
        && Pack(Apply(es, e)) == Pack(es[..i]) + data + Pack(es[i + 1..])
        && Pack(es) == Pack(es[..i]) + es[i] + Pack(es[i + 1..])
  {
    hide Pack;
    var i := Find(es, Name(e));
    if i == |es| {
      PackOne(e);
      PackConcat(es, [e]);
      assert Pack(es) + [] == Pack(es);
    } else {
      PackAt(es, i);
      if Deletes(e) {
        PackConcat(es[..i], es[i + 1..]);
        assert Pack(es[..i]) + [] == Pack(es[..i]);
      } else {
        var r := es[i := e];
        PackAt(r, i);
        assert r[..i] == es[..i] && r[i + 1..] == es[i + 1..];
      }
    }
  }

  // Entry `i` and what surrounds it in the buffer.
  lemma At(b: seq<Byte>, cb: nat, es: seq<Entry>, i: nat)
    requires LIST <= cb <= |b| && b[LIST..cb] == Pack(es) && Entries(es) && i < |es|
    ensures var off := LIST + |Pack(es[..i])|;
      && off + |es[i]| <= cb && FEA <= |es[i]| && Size(b[off..]) == |es[i]| && b[off..off + |es[i]|] == es[i]
      && b[LIST..off] == Pack(es[..i]) && b[off + |es[i]|..cb] == Pack(es[i + 1..])
  {
    hide Pack;
    PackAt(es, i);
    var x, e, z := Pack(es[..i]), es[i], Pack(es[i + 1..]);
    var off := LIST + |x|;
    Split3(b, LIST, cb, x, e, z);
    Slices(b, off, cb, e, z) by { assert b[off..cb] == e + z; }
  }

  lemma Split3(b: seq<Byte>, from: nat, cb: nat, x: seq<Byte>, e: seq<Byte>, z: seq<Byte>)
    requires from <= cb <= |b| && b[from..cb] == x + e + z
    ensures from + |x| + |e| + |z| == cb
    ensures b[from..from + |x|] == x && b[from + |x|..from + |x| + |e|] == e && b[from + |x| + |e|..cb] == z
  {
    var p := b[from..cb];
    assert |p| == |x| + |e| + |z|;
    assert p[..|x|] == x && p[|x| + |e|..] == z;
    forall k | 0 <= k < |e| ensures b[from + |x|..from + |x| + |e|][k] == e[k] {
      assert p[|x| + k] == e[k];
    }
  }

  // ---------------------------------------------------------------- reading

  // What a request for one name is answered with: the stored entry, or an empty one.
  function Empty(name: seq<Byte>): (e: Entry)
    requires |name| < 256
    ensures IsEntry(e) && Name(e) == name && ValueLen(e) == 0
  {
    var n: Byte := |name|;
    [0, n, 0, 0] + name + [0]
  }

  ghost function Answer(es: seq<Entry>, name: seq<Byte>): (e: Entry)
    requires Entries(es) && |name| < 256
    ensures IsEntry(e) && SameName(Name(e), name)
  {
    var i := Find(es, name);
    if i < |es| then es[i] else Empty(name)
  }

  // An entry that is found is one, and of that name.
  lemma {:induction false} WalkHit(b: seq<Byte>, off: nat, cb: nat, name: seq<Byte>)
    requires cb <= |b| && Walk(b, off, cb, name) != 0
    ensures var r := Walk(b, off, cb, name);
      && r + FEA < cb && r + Size(b[r..]) <= cb
      && IsEntry(b[r..r + Size(b[r..])]) && SameName(Name(b[r..r + Size(b[r..])]), name)
    decreases cb - off
  {
    hide SameName, Name, IsEntry;
    SourceEntry(b, off);
    if !SameName(Name(b[off..off + Size(b[off..])]), name) {
      WalkHit(b, off + Size(b[off..]), cb, name);
    }
  }

  // The same on any stored bytes, as FindEA finds the entry.
  ghost function AnswerIn(list: seq<Byte>, name: seq<Byte>): (e: Entry)
    requires LIST <= |list| && |name| < 256
    ensures IsEntry(e) && SameName(Name(e), name)
  {
    var off := Walk(list, LIST, |list|, name);
    if off == 0 then Empty(name)
    else
      WalkHit(list, LIST, |list|, name);
      list[off..off + Size(list[off..])]
  }

  // On a packed list it is the answer of the list.
  lemma AnswerPacked(list: seq<Byte>, es: seq<Entry>, name: seq<Byte>)
    requires LIST <= |list| && list[LIST..] == Pack(es) && Entries(es) && |name| < 256
    ensures AnswerIn(list, name) == Answer(es, name)
  {
    hide Pack, Find, Size, SameName, IsEntry;
    assert list[LIST..|list|] == list[LIST..];
    WalkFind(list, LIST, |list|, es, name);
    if Find(es, name) < |es| {
      At(list, |list|, es, Find(es, name));
    }
  }

  const GEA: nat := 2     // sizeof(GEA)

  datatype Listing = Listed(out: seq<Entry>) | Refused(rc: nat)

  // The requests of a GEALIST from offset `off` on, with `room` bytes left.
  ghost function Gather(list: seq<Byte>, gea: seq<Byte>, off: nat, max: nat, room: nat): (r: Listing)
    requires max <= |gea| && LIST <= |list|
    ensures r.Listed? ==> Entries(r.out)
    decreases max - off
  {
    if off + GEA >= max then Listed([])
    else
      var n: nat := gea[off];
      if off + 1 + n > max then Refused(ERROR_EA_LIST_INCONSISTENT)
      else
        var a := AnswerIn(list, gea[off + 1..off + 1 + n]);
        if |a| > room then Refused(ERROR_BUFFER_OVERFLOW)
        else Behind([a], Gather(list, gea, off + GEA + n, max, room - |a|))
  }

  lemma {:induction false} GatherCodes(list: seq<Byte>, gea: seq<Byte>, off: nat, max: nat, room: nat)
    requires max <= |gea| && LIST <= |list|
    ensures var r := Gather(list, gea, off, max, room); r.Refused? ==> r.rc == 111 || r.rc == 255
    decreases max - off
  {
    hide AnswerIn, Entries;
    if off + GEA < max && off + 1 + gea[off] as int <= max {
      var n: nat := gea[off];
      var a := AnswerIn(list, gea[off + 1..off + 1 + n]);
      if |a| <= room {
        GatherCodes(list, gea, off + GEA + n, max, room - |a|);
      }
    }
  }

  ghost function Behind(front: seq<Entry>, r: Listing): Listing {
    if r.Listed? then Listed(front + r.out) else r
  }

  lemma BehindBehind(a: seq<Entry>, b: seq<Entry>, r: Listing)
    ensures Behind(a, Behind(b, r)) == Behind(a + b, r)
  {
    if r.Listed? {
      assert a + (b + r.out) == (a + b) + r.out;
    }
  }

  // The names a GEALIST asks for, in order.
  ghost function Requests(gea: seq<Byte>, off: nat, max: nat): (r: seq<seq<Byte>>)
    requires max <= |gea|
    ensures forall i :: 0 <= i < |r| ==> |r[i]| < 256
    decreases max - off
  {
    if off + GEA >= max || off + 1 + gea[off] as int > max then []
    else [gea[off + 1..off + 1 + gea[off] as int]] + Requests(gea, off + GEA + gea[off] as int, max)
  }

  // A list that was handed out answers every request, in the order of the requests.
  lemma {:induction false} AnswersInOrder(list: seq<Byte>, gea: seq<Byte>, off: nat, max: nat, room: nat)
    requires max <= |gea| && LIST <= |list| && Gather(list, gea, off, max, room).Listed?
    ensures var out, names := Gather(list, gea, off, max, room).out, Requests(gea, off, max);
      |out| == |names| && forall i :: 0 <= i < |names| ==> out[i] == AnswerIn(list, names[i])
    decreases max - off
  {
    hide AnswerIn, Entries, Gather, Requests;
    if off + GEA >= max {
      NoRequest(list, gea, off, max, room);
    } else {
      var n, a := FirstRequest(list, gea, off, max, room);
      var name := gea[off + 1..off + 1 + n];
      AnswersInOrder(list, gea, off + GEA + n, max, room - |a|);
      var out, names := Gather(list, gea, off + GEA + n, max, room - |a|).out, Requests(gea, off + GEA + n, max);
      AnswersFront(list, name, names, out);
    }
  }

  lemma FirstRequest(list: seq<Byte>, gea: seq<Byte>, off: nat, max: nat, room: nat) returns (n: nat, a: Entry)
    requires max <= |gea| && LIST <= |list| && Gather(list, gea, off, max, room).Listed? && off + GEA < max
    ensures n == gea[off] && n < 256 && off + 1 + n <= max
    ensures a == AnswerIn(list, gea[off + 1..off + 1 + n]) && |a| <= room
    ensures Gather(list, gea, off + GEA + n, max, room - |a|).Listed?
    ensures Gather(list, gea, off, max, room).out == [a] + Gather(list, gea, off + GEA + n, max, room - |a|).out
    ensures Requests(gea, off, max) == [gea[off + 1..off + 1 + n]] + Requests(gea, off + GEA + n, max)
  {
    hide AnswerIn, Entries;
    n := gea[off];
    a := AnswerIn(list, gea[off + 1..off + 1 + n]);
  }

  lemma NoRequest(list: seq<Byte>, gea: seq<Byte>, off: nat, max: nat, room: nat)
    requires max <= |gea| && LIST <= |list| && off + GEA >= max
    ensures Requests(gea, off, max) == [] && Gather(list, gea, off, max, room) == Listed([])
  {
  }

  lemma AnswersFront(list: seq<Byte>, name: seq<Byte>, names: seq<seq<Byte>>, out: seq<Entry>)
    requires LIST <= |list| && |name| < 256 && |names| == |out| && forall i :: 0 <= i < |names| ==> |names[i]| < 256
    requires forall i :: 0 <= i < |names| ==> out[i] == AnswerIn(list, names[i])
    ensures forall i :: 0 <= i <= |names| ==>
      |([name] + names)[i]| < 256 && ([AnswerIn(list, name)] + out)[i] == AnswerIn(list, ([name] + names)[i])
  {
    hide AnswerIn;
    forall i | 0 <= i <= |names|
      ensures |([name] + names)[i]| < 256 && ([AnswerIn(list, name)] + out)[i] == AnswerIn(list, ([name] + names)[i])
    {
      if i > 0 {
        assert ([name] + names)[i] == names[i - 1] && ([AnswerIn(list, name)] + out)[i] == out[i - 1];
      }
    }
  }

  // Reading a name after a list of updates gives the last update to it.
  lemma UpdatedAnswer(es: seq<Entry>, us: seq<Entry>, name: seq<Byte>)
    requires Proper(es) && Entries(es) && Entries(us) && 0 < |name| < 256
    ensures Entries(ApplyAll(es, us))
    ensures var k := LastUpdate(us, name);
      Answer(ApplyAll(es, us), name) ==
        if k == |us| then Answer(es, name) else if Deletes(us[k]) then Empty(name) else us[k]
  {
    hide Proper, Apply, ApplyAll, IsEntry, Deletes, LastUpdate, Find;
    LookupApplyAll(es, us, name);
  }

  // After one update its name, in any case, is answered with its entry, or an empty one if
  // it has no value; every other name is answered as before.
  lemma AnswerByName(es: seq<Entry>, e: Entry, name: seq<Byte>)
    requires Proper(es) && Entries(es) && IsEntry(e) && 0 < |name| < 256
    ensures var n := e[4..4 + e[1] as int];
      Answer(Apply(es, e), name) ==
        if |n| == |name| && forall k :: 0 <= k < |n| ==>
             || n[k] == name[k] || (0x41 <= n[k] <= 0x5A && name[k] == n[k] + 0x20)
             || (0x41 <= name[k] <= 0x5A && n[k] == name[k] + 0x20)
        then (if e[1] == 0 || (e[2] == 0 && e[3] == 0) then Empty(name) else e) else Answer(es, name)
  {
    hide Proper, Apply, SameName, Find;
    UpdateByName(es, e, name);
  }

  // The entry of a name that is not stored: no flags, the length of the name, no value, and
  // the name with a zero byte behind it.
  lemma EmptyBytes(name: seq<Byte>)
    requires |name| < 256
    ensures var e := Empty(name);
      && |e| == |name| + 5 && e[0] == 0 && e[1] as int == |name| && e[2] == 0 && e[3] == 0
      && e[4..4 + |name|] == name && e[|name| + 4] == 0
  {
  }

  // A list of requests: for every name its length, the name and a zero byte.
  ghost function Asked(names: seq<seq<Byte>>): seq<Byte>
    requires forall i :: 0 <= i < |names| ==> |names[i]| < 256
  {
    if names == [] then [] else [|names[0]|] + names[0] + [0] + Asked(names[1..])
  }

  // Names that are not empty are read back in order.
  lemma {:induction false} RequestsBack(head: seq<Byte>, names: seq<seq<Byte>>)
    requires forall i :: 0 <= i < |names| ==> 0 < |names[i]| < 256
    ensures Requests(head + Asked(names), |head|, |head + Asked(names)|) == names
    decreases |names|
  {
    hide Requests;
    if names != [] {
      var n := names[0];
      var first: seq<Byte> := [|n|] + n + [0];
      RequestsBack(head + first, names[1..]);
      assert head + Asked(names) == (head + first) + Asked(names[1..]);
      OneAsked(head, n, Asked(names[1..]));
    } else {
      assert head + Asked(names) == head;
      NothingAsked(head);
    }
  }

  lemma NothingAsked(gea: seq<Byte>)
    ensures Requests(gea, |gea|, |gea|) == []
  {
  }

  lemma OneAsked(head: seq<Byte>, name: seq<Byte>, rest: seq<Byte>)
    requires 0 < |name| < 256
    ensures var first: seq<Byte> := [|name|] + name + [0];
      var gea := (head + first) + rest;
      |head + first| == |head| + 2 + |name| &&
      Requests(gea, |head|, |gea|) == [name] + Requests(gea, |head + first|, |gea|)
  {
    var first: seq<Byte> := [|name|] + name + [0];
    var gea := (head + first) + rest;
    assert gea[|head|] == |name| && gea[|head| + 1..|head| + 1 + |name|] == name;
  }

  // Every name of a GEALIST ends with the zero byte that strcpy looks for.
  ghost predicate Terminated(gea: seq<Byte>, off: nat, max: nat)
    requires max <= |gea|
    decreases max - off
  {
    off + GEA >= max || off + 1 + gea[off] as int > max ||
    (off + 1 + gea[off] as int < |gea| && gea[off + 1 + gea[off] as int] == 0
     && (forall k :: off + 1 <= k < off + 1 + gea[off] as int ==> gea[k] != 0)
     && Terminated(gea, off + GEA + gea[off] as int, max))
  }

  // The extended attributes stored for a file; no attributes, no list.
  class Attributes {
    var stored: seq<Byte>

    ghost predicate Valid()
      reads this
    {
      LIST + |stored| <= MAX_EA_SIZE
    }

    // What is stored is the packed list of `es`.
    ghost predicate Holds(es: seq<Entry>)
      reads this
    {
      Valid() && Proper(es) && stored == Pack(es)
    }

    constructor ()
      ensures Holds([])
    {
      stored := [];
    }

    // usModifyEAS. The list is edited in a copy, so that a failure leaves what is stored.
    // `endless` stands for a call that does not return.
    method ModifyEas(fileName: string, src: seq<Byte>, cbList: nat, check: seq<Byte> -> nat)
      returns (rc: nat, oError: nat, endless: bool)
      requires Valid() && (cbList <= MAX_EA_SIZE ==> Memory(src, cbList))
      modifies this
      ensures Valid()
      ensures fileName == "" ==> rc == 284 && stored == old(stored) && !endless
      ensures fileName != "" && cbList > 65536 ==> rc == 256 && stored == old(stored) && !endless
      ensures fileName != "" && cbList <= 4 ==> rc == 0 && stored == old(stored) && !endless
      ensures fileName != "" && LIST < cbList <= MAX_EA_SIZE ==>
        match Execute(check, src, cbList, Loop(LIST, [0, 0, 0, 0] + old(stored)))
        case Done(list) => !endless && rc == NO_ERROR && stored == list[LIST..]
        case Failed(rc', at) => !endless && rc == rc' && oError == at && stored == old(stored)
        case Endless => endless && stored == old(stored)
    {
      rc, oError, endless := NO_ERROR, 0, false;
      if |fileName| == 0 {
        return ERROR_NO_EAS_ON_ROOT, 0, false;
      }
      if cbList > MAX_EA_SIZE {
        return ERROR_EA_LIST_TOO_LONG, 0, false;
      }
      if cbList <= LIST {
        return;
      }
      var tar := new FeaList(stored);
      rc, oError, endless := Update(tar, src, cbList, check);
      if rc != NO_ERROR || endless {
        return;
      }
      stored := if tar.cbList > LIST then tar.buf[LIST..tar.cbList] else [];
      assert stored == tar.List()[LIST..];
    }

    // The loop of usModifyEAS.
    static method Update(tar: FeaList, src: seq<Byte>, cbList: nat, check: seq<Byte> -> nat)
      returns (rc: nat, oError: nat, endless: bool)
      requires tar.Valid() && Memory(src, cbList)
      modifies tar, tar.buf
      ensures tar.Valid()
      ensures match Execute(check, src, cbList, Loop(LIST, old(tar.List())))
        case Done(list) => !endless && rc == NO_ERROR && tar.List() == list
        case Failed(rc', at) => !endless && rc == rc' != NO_ERROR && oError == at
        case Endless => endless
    {
      hide OneRound, FeaList.List;
      rc, oError, endless := NO_ERROR, 0, false;
      ghost var goal := Execute(check, src, cbList, Loop(LIST, tar.List()));
      var off := LIST;
      while off + FEA < cbList
        invariant tar.Valid() && LIST <= |tar.List()| <= MAX_EA_SIZE
        invariant Execute(check, src, cbList, Loop(off, tar.List())) == goal
        decreases cbList - off
      {
        var newSize;
        rc, oError, newSize := UpdateOne(tar, src, cbList, off, check);
        if rc != NO_ERROR {
          return;
        }
        if newSize == 0 {
          return NO_ERROR, 0, true;
        }
        off := off + newSize;
      }
      EndOfList(check, src, cbList, Loop(off, tar.List()));
      rc := NO_ERROR;
    }

    // One round of that loop.
    static method UpdateOne(tar: FeaList, src: seq<Byte>, cbList: nat, off: nat, check: seq<Byte> -> nat)
      returns (rc: nat, oError: nat, newSize: nat)
      requires tar.Valid() && Memory(src, cbList) && off + FEA < cbList
      modifies tar, tar.buf
      ensures tar.Valid()
      ensures match OneRound(check, src, cbList, Loop(off, old(tar.List())))
        case Again(next) => rc == NO_ERROR && next.off == off + newSize && tar.List() == next.list
        case Complete(_) => false
        case Stopped(rc', at) => rc == rc' != NO_ERROR && oError == at
    {
      hide Edit, FeaList.List, Size;
      var header, name := src[off..], NameAt(src, off);
      newSize := Size16(header);
      if off + newSize > cbList {
        return ERROR_EA_LIST_INCONSISTENT, off, newSize;
      }
      rc := check(name);
      if rc != 0 && ValueLen(header) != 0 {
        return rc, off, newSize;
      }
      var data := if ValueLen(header) == 0 || NameLen(header) == 0 then [] else src[off..off + newSize];
      rc := tar.Store(name, data);
      oError := 0;
    }

    // usGetEAS for a list of names. `buf` is the caller's FEALIST of `cbMax` bytes; the
    // result's cbList is `cbList`. The 16-bit size of a buffer of 65536 bytes or more is 0.
    method GetEas(buf: array<Byte>, cbMax: nat, gea: seq<Byte>, cbGea: nat)
      returns (rc: nat, cbList: nat, ghost out: seq<Entry>)
      requires Valid() && cbMax <= buf.Length && cbGea <= |gea|
      requires LIST <= cbGea ==> Terminated(gea, LIST, cbGea)
      modifies buf
      ensures var room := (if cbMax > MAX_EA_SIZE then MAX_EA_SIZE else cbMax) % 0x1_0000;
        if room < 4 then rc == 111
        else if cbGea > 65536 then rc == 256
        else match Gather([0, 0, 0, 0] + stored, gea, LIST, cbGea, room - LIST)
          case Listed(answers) =>
            rc == NO_ERROR && out == answers && LIST <= cbList <= room && buf[LIST..cbList] == Pack(out)
          case Refused(rc') =>
            rc == rc' && (rc == ERROR_BUFFER_OVERFLOW ==> cbList == LIST + |stored|)
      ensures rc == 0 || rc == 111 || rc == 255 || rc == 256
    {
      hide Pack, Gather, Entries, IsEntry, Terminated;
      out, cbList := [], cbMax;
      var room := (if cbMax > MAX_EA_SIZE then MAX_EA_SIZE else cbMax) % 0x1_0000;
      if room < LIST {
        return ERROR_BUFFER_OVERFLOW, cbList, out;
      }
      if cbGea > MAX_EA_SIZE {
        return ERROR_EA_LIST_TOO_LONG, cbList, out;
      }
      forall k | 0 <= k < room {
        buf[k] := 0;
      }
      var src := new FeaList(stored);
      GatherCodes([0, 0, 0, 0] + stored, gea, LIST, cbGea, room - LIST);
      rc, cbList, out := Answers(src, buf, room, gea, cbGea);
    }

    // The loop of usGetEAS over the names asked for.
    static method Answers(src: FeaList, buf: array<Byte>, size: nat, gea: seq<Byte>, cbGea: nat)
      returns (rc: nat, cbList: nat, ghost out: seq<Entry>)
      requires src.Valid() && LIST <= size <= buf.Length && size < 0x1_0000 && cbGea <= |gea| && buf != src.buf
      requires LIST <= cbGea ==> Terminated(gea, LIST, cbGea)
      modifies buf
      ensures match Gather(old(src.List()), gea, LIST, cbGea, size - LIST)
        case Listed(answers) =>
          rc == NO_ERROR && out == answers && LIST <= cbList <= size && buf[LIST..cbList] == Pack(out)
        case Refused(rc') =>
          rc == rc' && (rc == ERROR_BUFFER_OVERFLOW ==> cbList == src.cbList)
    {
      hide Pack, IsEntry, Size, AnswerIn, SameName, FeaList.List;
      cbList, out := LIST, [];
      NoEntries();
      ghost var list := src.List();
      ghost var goal := Gather(list, gea, LIST, cbGea, size - LIST);
      var off, room: nat := LIST, size - LIST;
      while off + GEA < cbGea
        invariant src.Valid() && src.List() == list && LIST <= cbList && cbList + room == size
        invariant (LIST <= cbGea ==> Terminated(gea, off, cbGea))
        invariant Entries(out) && buf[LIST..cbList] == Pack(out)
        invariant goal == Behind(out, Gather(list, gea, off, cbGea, room))
        decreases cbGea - off
      {
        var n: int := gea[off];
        if off + 1 + n > cbGea {
          return ERROR_EA_LIST_INCONSISTENT, cbList, out;
        }
        var name := gea[off + 1..off + 1 + n];
        var e := AnswerOne(src, name);
        if |e| > room {
          return ERROR_BUFFER_OVERFLOW, src.cbList, out;
        }
        Put(buf, cbList, e, out);
        BehindBehind(out, [e], Gather(list, gea, off + GEA + n, cbGea, room - |e|));
        out := out + [e];
        cbList := cbList + |e|;
        room := room - |e|;
        off := off + GEA + n;
      }
      rc := NO_ERROR;
    }

    static method Put(buf: array<Byte>, at: nat, e: Entry, ghost out: seq<Entry>)
      requires LIST <= at && at + |e| <= buf.Length && buf[LIST..at] == Pack(out)
      modifies buf
      ensures buf[LIST..at + |e|] == Pack(out + [e])
    {
      hide Pack;
      forall k | 0 <= k < |e| {
        buf[at + k] := e[k];
      }
      assert buf[at..at + |e|] == e;
      assert buf[LIST..at] == old(buf[LIST..at]);
      assert buf[LIST..at + |e|] == buf[LIST..at] + buf[at..at + |e|];
      PackConcat(out, [e]);
      PackOne(e);
    }

    // One name: a copy of the stored entry, or an entry without a value.
    static method AnswerOne(src: FeaList, name: seq<Byte>) returns (e: Entry)
      requires src.Valid() && |name| < 256
      ensures e == AnswerIn(src.List(), name)
    {
      hide IsEntry, Size, Walk;
      var off := src.FindEA(name);
      if off != 0 {
        WalkHit(src.List(), LIST, src.cbList, name);
        var size := src.SizeAt(off);
        src.Part(off, size);
        e := src.buf[off..off + size];
      } else {
        e := Empty(name);
      }
    }
  }

  function AcceptAll(name: seq<Byte>): nat { 0 }

  // An entry with a name of one byte and a value of 65530: its size is 65536, which is
  // 0 in 16 bits, and usModifyEAS stays on it for ever.
  method EndlessUpdate(behind: seq<Byte>) returns (a: Attributes, rc: nat, oError: nat, endless: bool)
    requires |behind| == 255
    ensures endless && a.stored == []
  {
    hide Walk, Pack;
    a := new Attributes();
    NoEntries();
    var src: seq<Byte> := [0, 0, 0, 0, 0, 1, 0xFA, 0xFF, 0x41, 0] + behind;
    ghost var s := Loop(LIST, [0, 0, 0, 0] + a.stored);
    assert src[4..][..4] == [0, 1, 0xFA, 0xFF];
    assert Size(src[4..]) == 0x1_0000;
    StuckRound(AcceptAll, src, 10, s);
    rc, oError, endless := a.ModifyEas("f", src, 10, AcceptAll);
  }

  // With a value of 65535 the size is 5 in 16 bits: five bytes are stored, the update
  // succeeds, and what is stored is no list of entries.
  method TornUpdate(behind: seq<Byte>) returns (a: Attributes, rc: nat, oError: nat, endless: bool)
    requires |behind| == 255
    ensures rc == NO_ERROR && !endless && a.stored == [0, 1, 0xFF, 0xFF, 0x41]
    ensures forall es :: Entries(es) ==> a.stored != Pack(es)
  {
    hide Pack, Execute, Entries;
    a := new Attributes();
    NoEntries();
    var src: seq<Byte> := [0, 0, 0, 0, 0, 1, 0xFF, 0xFF, 0x41] + behind;
    assert [0, 0, 0, 0] + a.stored == [0, 0, 0, 0];
    TornRound(src);
    rc, oError, endless := a.ModifyEas("f", src, 9, AcceptAll);
    assert Size(a.stored) == 0x1_0005;
    forall es | Entries(es) ensures a.stored != Pack(es) {
      FirstFits(es);
    }
  }

  lemma TornRound(src: seq<Byte>)
    requires |src| >= 9 + 255 && src[..9] == [0, 0, 0, 0, 0, 1, 0xFF, 0xFF, 0x41]
    ensures var r := Execute(AcceptAll, src, 9, Loop(LIST, [0, 0, 0, 0]));
      r.Done? && r.list[LIST..] == [0, 1, 0xFF, 0xFF, 0x41]
  {
    hide Edit;
    var torn: seq<Byte> := [0, 1, 0xFF, 0xFF, 0x41];
    assert forall k :: 0 <= k < 9 ==> src[..9][k] == src[k];
    assert src[4..9] == torn && Size(src[4..]) == 0x1_0005;
    EmptyEdit([0, 0, 0, 0], NameAt(src, 4), torn);
    var next := Loop(9, [0, 0, 0, 0] + torn);
    assert OneRound(AcceptAll, src, 9, Loop(LIST, [0, 0, 0, 0])) == Again(next);
    EndOfList(AcceptAll, src, 9, next);
  }

  lemma EmptyEdit(list: seq<Byte>, name: seq<Byte>, data: seq<Byte>)
    requires |list| == LIST && |data| <= 100
    ensures Edit(list, name, data) == Some(list + data)
  {
  }

  // A list that is not empty begins with an entry that ends inside it.
  lemma FirstFits(es: seq<Entry>)
    requires Entries(es)
    ensures es == [] || (|Pack(es)| > FEA && Size(Pack(es)) <= |Pack(es)|)
    ensures es == [] ==> Pack(es) == []
  {
    if es != [] {
      var p := Pack(es);
      assert p[0..|p|] == p && p[0..] == p;
      FirstEntry(p, 0, |p|, es);
    }
  }
}

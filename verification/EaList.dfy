// Packed extended attribute lists as values: entries, lookup, and updates.
module EaList {
  import opened FatCodec

  const MAX_EA_SIZE: nat := 65536

  // One FEA: fEA, cbName, cbValue, the name, a zero byte, the value.
  type Entry = seq<Byte>

  const FEA: nat := 4     // sizeof(FEA)

  function NameLen(e: Entry): nat
    requires |e| >= FEA
  {
    e[1]
  }

  function ValueLen(e: Entry): nat
    requires |e| >= FEA
  {
    var lo: int, hi: int := e[2], e[3];
    lo + 256 * hi
  }

  // The bytes the header says the entry has, counted without a 16-bit wrap.
  function Size(e: Entry): nat
    requires |e| >= FEA
  {
    FEA + NameLen(e) + 1 + ValueLen(e)
  }

  predicate IsEntry(e: Entry) { |e| >= FEA && |e| == Size(e) }

  function Name(e: Entry): seq<Byte>
    requires IsEntry(e)
  {
    e[FEA..FEA + NameLen(e)]
  }

  // memicmp: letters A to Z count as small.
  function Fold(b: Byte): Byte { if 0x41 <= b <= 0x5A then b + 0x20 else b }

  predicate SameName(a: seq<Byte>, b: seq<Byte>) {
    |a| == |b| && forall k :: 0 <= k < |a| ==> Fold(a[k]) == Fold(b[k])
  }

  // Two names are the same if at every place the bytes are equal, or one is a letter from
  // A to Z and the other the small one, 0x20 above.
  lemma SameNameIs(a: seq<Byte>, b: seq<Byte>)
    ensures SameName(a, b) <==>
      |a| == |b| && forall k :: 0 <= k < |a| ==>
        || a[k] == b[k] || (0x41 <= a[k] <= 0x5A && b[k] == a[k] + 0x20)
        || (0x41 <= b[k] <= 0x5A && a[k] == b[k] + 0x20)
  {
    hide SameName, Fold;
    assert SameName(a, b) <==> |a| == |b| && forall k :: 0 <= k < |a| ==> Fold(a[k]) == Fold(b[k]) by {
      Unfolded(a, b);
    }
    forall x: Byte, y: Byte
      ensures Fold(x) == Fold(y) <==>
        x == y || (0x41 <= x <= 0x5A && y == x + 0x20) || (0x41 <= y <= 0x5A && x == y + 0x20)
    {
      FoldIs(x, y);
    }
  }

  lemma Unfolded(a: seq<Byte>, b: seq<Byte>)
    ensures SameName(a, b) <==> |a| == |b| && forall k :: 0 <= k < |a| ==> Fold(a[k]) == Fold(b[k])
  {
  }

  lemma FoldIs(x: Byte, y: Byte)
    ensures Fold(x) == Fold(y) <==>
      x == y || (0x41 <= x <= 0x5A && y == x + 0x20) || (0x41 <= y <= 0x5A && x == y + 0x20)
  {
  }

  lemma SameNameWay(a: seq<Byte>, b: seq<Byte>, c: seq<Byte>)
    requires SameName(a, b)
    ensures SameName(c, a) <==> SameName(c, b)
  {
    if SameName(c, a) {
      forall k | 0 <= k < |c| ensures Fold(c[k]) == Fold(b[k]) {
        assert Fold(a[k]) == Fold(b[k]);
      }
    }
    if SameName(c, b) {
      forall k | 0 <= k < |c| ensures Fold(c[k]) == Fold(a[k]) {
        assert Fold(a[k]) == Fold(b[k]);
      }
    }
  }

  ghost predicate Entries(es: seq<Entry>) { forall i :: 0 <= i < |es| ==> IsEntry(es[i]) }

  ghost function Pack(es: seq<Entry>): (r: seq<Byte>)
  {
    if es == [] then [] else Pack(es[..|es| - 1]) + es[|es| - 1]
  }

  lemma {:induction false} PackConcat(a: seq<Entry>, b: seq<Entry>)
    ensures Pack(a + b) == Pack(a) + Pack(b)
    decreases |b|
  {
    if b == [] {
      assert a + b == a;
    } else {
      var m := |b| - 1;
      PackConcat(a, b[..m]);
      assert (a + b)[..|a + b| - 1] == a + b[..m];
    }
  }

  lemma PackOne(e: Entry)
    ensures Pack([e]) == e
  {
    assert [e][..0] == [];
  }

  lemma PackAt(es: seq<Entry>, i: nat)
    requires i < |es|
    ensures Pack(es) == Pack(es[..i]) + es[i] + Pack(es[i + 1..])
    ensures Pack(es[..i + 1]) == Pack(es[..i]) + es[i]
  {
    hide Pack;
    Cut(es, i);
    PackOne(es[i]);
    PackConcat(es[..i], [es[i]]);
    PackConcat(es[..i + 1], es[i + 1..]);
  }

  lemma Cut<T>(s: seq<T>, i: nat)
    requires i < |s|
    ensures s[..i + 1] == s[..i] + [s[i]] && s[..i + 1] + s[i + 1..] == s
  {
  }

  // ---------------------------------------------------------------- lookup

  // The first entry with the name, or the length of the list.
  ghost function Find(es: seq<Entry>, name: seq<Byte>): (i: nat)
    requires Entries(es)
    ensures i <= |es| && (i < |es| ==> SameName(Name(es[i]), name))
    ensures forall k :: 0 <= k < i ==> !SameName(Name(es[k]), name)
  {
    if es == [] then 0 else if SameName(Name(es[0]), name) then 0 else 1 + Find(es[1..], name)
  }

  datatype Maybe = None | Some(entry: Entry)

  ghost function Lookup(es: seq<Entry>, name: seq<Byte>): Maybe
    requires Entries(es)
  {
    var i := Find(es, name);
    if i < |es| then Some(es[i]) else None
  }

  // What is kept on disk: names and values are not empty, no name occurs twice.
  ghost predicate Proper(es: seq<Entry>) {
    && Entries(es)
    && (forall i :: 0 <= i < |es| ==> NameLen(es[i]) > 0 && ValueLen(es[i]) > 0)
    && (forall i, j :: 0 <= i < j < |es| ==> !SameName(Name(es[i]), Name(es[j])))
  }

  lemma NotFound(es: seq<Entry>, name: seq<Byte>)
    requires Entries(es) && forall k :: 0 <= k < |es| ==> !SameName(Name(es[k]), name)
    ensures Find(es, name) == |es|
  {
  }

  // ---------------------------------------------------------------- updating

  // An entry with an empty value (or no name) asks for its name to be deleted.
  predicate Deletes(e: Entry)
    requires IsEntry(e)
  {
    ValueLen(e) == 0 || NameLen(e) == 0
  }

  ghost function Apply(es: seq<Entry>, e: Entry): (r: seq<Entry>)
    requires Entries(es) && IsEntry(e)
    ensures Entries(r)
  {
    var i := Find(es, Name(e));
    if i == |es| then (if Deletes(e) then es else es + [e])
    else if Deletes(e) then es[..i] + es[i + 1..]
    else es[i := e]
  }

  ghost function ApplyAll(es: seq<Entry>, us: seq<Entry>): (r: seq<Entry>)
    requires Entries(es) && Entries(us)
    ensures Entries(r)
  {
    if us == [] then es else Apply(ApplyAll(es, us[..|us| - 1]), us[|us| - 1])
  }

  lemma ApplyProper(es: seq<Entry>, e: Entry)
    requires Proper(es) && IsEntry(e)
    ensures Proper(Apply(es, e))
  {
    var i, r := Find(es, Name(e)), Apply(es, e);
    if i < |es| && !Deletes(e) {
      forall k | 0 <= k < |es| && k != i ensures !SameName(Name(es[k]), Name(e)) {
        if k < i { assert !SameName(Name(es[k]), Name(es[i])); } else { assert !SameName(Name(es[i]), Name(es[k])); }
      }
    }
  }

  // After an update, its name has its value, and every other name what it had.
  lemma LookupApply(es: seq<Entry>, e: Entry, name: seq<Byte>)
    requires Proper(es) && IsEntry(e) && name != []
    ensures Lookup(Apply(es, e), name) == if SameName(Name(e), name) then (if Deletes(e) then None else Some(e))
      else Lookup(es, name)
  {
    ApplyProper(es, e);
    if !SameName(Name(e), name) {
      LookupOther(es, e, name);
    } else if Deletes(e) {
      LookupDeleted(es, e, name);
    } else {
      OnlyOne(Apply(es, e), name, Find(es, Name(e)));
    }
  }

  // On the bytes: what is looked up is an entry with that name, in any case, if there is one.
  lemma LookupByName(es: seq<Entry>, name: seq<Byte>)
    requires Entries(es)
    ensures Lookup(es, name).Some? ==>
      var e := Lookup(es, name).entry;
      && e in es && IsEntry(e)
      && var n := e[4..4 + e[1] as int];
         |n| == |name| && forall k :: 0 <= k < |n| ==>
           || n[k] == name[k] || (0x41 <= n[k] <= 0x5A && name[k] == n[k] + 0x20)
           || (0x41 <= name[k] <= 0x5A && n[k] == name[k] + 0x20)
    ensures Lookup(es, name).None? ==>
      forall i :: 0 <= i < |es| ==>
        && IsEntry(es[i])
        && var n := es[i][4..4 + es[i][1] as int];
           !(|n| == |name| && forall k :: 0 <= k < |n| ==>
             || n[k] == name[k] || (0x41 <= n[k] <= 0x5A && name[k] == n[k] + 0x20)
             || (0x41 <= name[k] <= 0x5A && n[k] == name[k] + 0x20))
  {
    hide SameName;
    var i := Find(es, name);
    if i < |es| {
      SameNameIs(Name(es[i]), name);
    } else {
      forall k | 0 <= k < |es| ensures !SameName(Name(es[k]), name) {
      }
      forall k | 0 <= k < |es| ensures
        var n := es[k][4..4 + es[k][1] as int];
        !(|n| == |name| && forall j :: 0 <= j < |n| ==>
          || n[j] == name[j] || (0x41 <= n[j] <= 0x5A && name[j] == n[j] + 0x20)
          || (0x41 <= name[j] <= 0x5A && n[j] == name[j] + 0x20))
      {
        SameNameIs(Name(es[k]), name);
      }
    }
  }

  // An update changes what is looked up under its name, in any case, and under no other.
  lemma UpdateByName(es: seq<Entry>, e: Entry, name: seq<Byte>)
    requires Proper(es) && IsEntry(e) && name != []
    ensures var n := e[4..4 + e[1] as int];
      Lookup(Apply(es, e), name) ==
        if |n| == |name| && forall k :: 0 <= k < |n| ==>
             || n[k] == name[k] || (0x41 <= n[k] <= 0x5A && name[k] == n[k] + 0x20)
             || (0x41 <= name[k] <= 0x5A && n[k] == name[k] + 0x20)
        then (if e[1] == 0 || (e[2] == 0 && e[3] == 0) then None else Some(e)) else Lookup(es, name)
  {
    hide SameName, Lookup, Apply;
    LookupApply(es, e, name);
    SameNameIs(Name(e), name);
  }

  lemma LookupOther(es: seq<Entry>, e: Entry, name: seq<Byte>)
    requires Proper(es) && IsEntry(e) && !SameName(Name(e), name)
    ensures Lookup(Apply(es, e), name) == Lookup(es, name)
  {
    var i, k, r := Find(es, Name(e)), Find(es, name), Apply(es, e);
    ApplyProper(es, e);
    if k == |es| {
      forall j | 0 <= j < |r| ensures !SameName(Name(r[j]), name) {
        assert r[j] == e || r[j] in es;
      }
      NotFound(r, name);
    } else {
      OnlyOne(r, name, if i < |es| && Deletes(e) && i < k then k - 1 else k);
    }
  }

  lemma LookupDeleted(es: seq<Entry>, e: Entry, name: seq<Byte>)
    requires Proper(es) && IsEntry(e) && SameName(Name(e), name) && Deletes(e)
    ensures Lookup(Apply(es, e), name) == None
  {
    var i, r := Find(es, Name(e)), Apply(es, e);
    forall j | 0 <= j < |r| ensures !SameName(Name(r[j]), name) {
      if i <= j { Unlike(es, i, j + 1); }
    }
    NotFound(r, name);
  }

  lemma Unlike(es: seq<Entry>, i: nat, j: nat)
    requires Proper(es) && i < j
    ensures j < |es| ==> !SameName(Name(es[i]), Name(es[j]))
  {
  }

  lemma OnlyOne(es: seq<Entry>, name: seq<Byte>, k: nat)
    requires Proper(es) && k < |es| && SameName(Name(es[k]), name)
    ensures Lookup(es, name) == Some(es[k])
  {
    AllUnlike(es, k);
  }

  lemma AllUnlike(es: seq<Entry>, k: nat)
    requires Proper(es) && k < |es|
    ensures forall j :: 0 <= j < |es| && j != k ==> !SameName(Name(es[j]), Name(es[k]))
  {
    forall j | 0 <= j < |es| && j != k ensures !SameName(Name(es[j]), Name(es[k])) {
      assert !SameName(Name(es[if j < k then j else k]), Name(es[if j < k then k else j]));
    }
  }

  // The last update that names `name`, or the length of the updates.
  ghost function LastUpdate(us: seq<Entry>, name: seq<Byte>): (k: nat)
    requires Entries(us)
    ensures k <= |us| && (k < |us| ==> IsEntry(us[k]) && SameName(Name(us[k]), name))
    ensures forall j :: (if k < |us| then k + 1 else 0) <= j < |us| ==> !SameName(Name(us[j]), name)
  {
    if us == [] then 0
    else if SameName(Name(us[|us| - 1]), name) then |us| - 1
    else
      var k := LastUpdate(us[..|us| - 1], name);
      if k == |us| - 1 then |us| else k
  }

  // After a whole list of updates every name has the value of the last update to it.
  lemma {:induction false} LookupApplyAll(es: seq<Entry>, us: seq<Entry>, name: seq<Byte>)
    requires Proper(es) && Entries(es) && Entries(us) && name != []
    ensures Proper(ApplyAll(es, us))
    ensures var k := LastUpdate(us, name);
      Lookup(ApplyAll(es, us), name) == if k < |us| then (if Deletes(us[k]) then None else Some(us[k]))
          else Lookup(es, name)
    decreases |us|
  {
    hide Proper, Lookup, Apply;
    if us != [] {
      var m := |us| - 1;
      LookupApplyAll(es, us[..m], name);
      LookupApply(ApplyAll(es, us[..m]), us[m], name);
      ApplyProper(ApplyAll(es, us[..m]), us[m]);
    }
  }
}

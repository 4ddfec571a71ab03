// What is cached, the dirty sectors by age, and at which sector of a transfer an
// emergency flush happens.
module CacheOrder {
  import opened Common
  import opened CacheModel

  // A sector of a drive.
  type Key = (nat, nat)

  function KeyOf(b: Base): Key { (b.drive, b.sector) }

  // ---------------------------------------------------------------- copies

  ghost predicate HasCopy(b: seq<Base>, used: nat, k: Key)
    requires used <= |b|
  {
    exists e: nat :: e < used && Holds(b, e, k.0, k.1)
  }

  // The cached copies, by sector.
  ghost function CopiesOf(b: seq<Base>, data: seq<Sector>, used: nat): imap<Key, Sector>
    requires used <= |b| == |data|
  {
    imap k: Key | HasCopy(b, used, k) :: var e: nat :| e < used && Holds(b, e, k.0, k.1); data[e]
  }

  lemma CopyIs(b: seq<Base>, data: seq<Sector>, used: nat, e: nat)
    requires used <= |b| == |data| && UniqueLive(b, used) && e < used && Live(b[e])
    ensures KeyOf(b[e]) in CopiesOf(b, data, used) && CopiesOf(b, data, used)[KeyOf(b[e])] == data[e]
  {
    var k := KeyOf(b[e]);
    assert Holds(b, e, k.0, k.1);
    forall x: nat | x < used && Holds(b, x, k.0, k.1) ensures x == e {
      assert x < e ==> !UniqueLive(b, used);
    }
  }

  // A map that has exactly the live entries' contents is the map of the copies.
  lemma CopiesAre(b: seq<Base>, data: seq<Sector>, used: nat, m: imap<Key, Sector>)
    requires used <= |b| == |data| && UniqueLive(b, used)
    requires forall e: nat :: e < used && Live(b[e]) ==> KeyOf(b[e]) in m && m[KeyOf(b[e])] == data[e]
    requires forall k :: k in m ==> HasCopy(b, used, k)
    ensures CopiesOf(b, data, used) == m
  {
    var c := CopiesOf(b, data, used);
    forall k: Key | k in c ensures k in m && c[k] == m[k] {
      var e: nat :| e < used && Holds(b, e, k.0, k.1);
      CopyIs(b, data, used, e);
    }
  }

  ghost function Minus(m: imap<Key, Sector>, gone: iset<Key>): imap<Key, Sector> {
    imap k | k in m && k !in gone :: m[k]
  }

  // The copies after the first `i` sectors of a transfer of `buf` that has found room: `over`
  // says whether copies that were there are replaced, `all` whether new ones are made.
  ghost function Laid(c: imap<Key, Sector>, d: nat, s: nat, buf: seq<Sector>, i: nat, over: bool, all: bool):
    imap<Key, Sector>
    requires i <= |buf|
  {
    imap k: Key | k in c || (all && k.0 == d && s <= k.1 < s + i) ::
      if k.0 == d && s <= k.1 < s + i && (over || k !in c) then buf[k.1 - s] else c[k]
  }

  lemma LaidStart(c: imap<Key, Sector>, d: nat, s: nat, buf: seq<Sector>, over: bool, all: bool)
    ensures Laid(c, d, s, buf, 0, over, all) == c
  {
  }

  lemma LaidStep(c: imap<Key, Sector>, c1: imap<Key, Sector>, c2: imap<Key, Sector>, d: nat, s: nat, buf: seq<Sector>,
                 i: nat, over: bool, all: bool)
    requires i < |buf| && c1 == Laid(c, d, s, buf, i, over, all)
    requires c2 == if if (d, s + i) in c1 then over else all then c1[(d, s + i) := buf[i]] else c1
    ensures c2 == Laid(c, d, s, buf, i + 1, over, all)
  {
  }

  // The sectors that the first `i` sectors of a lazy write of `buf` make dirty.
  ghost function Dirtied(c: imap<Key, Sector>, d: nat, s: nat, buf: seq<Sector>, i: nat): iset<nat>
    requires i <= |buf|
  {
    iset x: nat | s <= x < s + i && !((d, x) in c && c[(d, x)] == buf[x - s])
  }

  lemma DirtiedStep(c: imap<Key, Sector>, c1: imap<Key, Sector>, d: nat, s: nat, buf: seq<Sector>, i: nat, all: bool)
    requires i < |buf| && c1 == Laid(c, d, s, buf, i, true, all)
    ensures Dirtied(c, d, s, buf, 0) == iset{}
    ensures Dirtied(c, d, s, buf, i + 1) == Dirtied(c, d, s, buf, i) +
      if (d, s + i) in c1 && c1[(d, s + i)] == buf[i] then iset{} else iset{s + i}
  {
  }

  lemma DirtiedIs(c: imap<Key, Sector>, d: nat, s: nat, buf: seq<Sector>)
    ensures forall x: nat :: x in Dirtied(c, d, s, buf, |buf|) <==>
      (s <= x < s + |buf| && !((d, x) in c && c[(d, x)] == buf[x - s]))
  {
  }

  // The same copy by copy.
  lemma LaidIs(c: imap<Key, Sector>, d: nat, s: nat, buf: seq<Sector>, over: bool, all: bool)
    ensures var r := Laid(c, d, s, buf, |buf|, over, all);
      && (forall k: Key :: k in r <==> k in c || (all && k.0 == d && s <= k.1 < s + |buf|))
      && (forall k: Key :: k in c && !(over && k.0 == d && s <= k.1 < s + |buf|) ==> r[k] == c[k])
      && (forall x: nat :: s <= x < s + |buf| && (if (d, x) in c then over else all) ==> r[(d, x)] == buf[x - s])
  {
  }

  // The sector whose copy is in entry `e`.
  ghost function Held(b: seq<Base>, used: nat, e: nat): iset<Key>
    requires used <= |b|
  {
    if e < used && Live(b[e]) then iset{KeyOf(b[e])} else iset{}
  }

  // Entry `e`, new or not, takes `k`; what it held before is gone.
  ghost function Placed(b: seq<Base>, w: seq<Sector>, used: nat, e: nat, k: Key, v: Sector): imap<Key, Sector>
    requires used <= |b| == |w|
  {
    Minus(CopiesOf(b, w, used), Held(b, used, e))[k := v]
  }

  lemma CopiesPlaced(b: seq<Base>, w: seq<Sector>, used: nat, b': seq<Base>, w': seq<Sector>, used': nat, e: nat,
                     d: nat, s: nat, v: Sector)
    requires used <= used' <= used + 1 && e < used' && (used < used' ==> e == used)
    requires used' <= |b| == |b'| == |w| == |w'| && UniqueLive(b, used) && UniqueLive(b', used')
    requires Holds(b', e, d, s) && w'[e] == v
    requires forall x: nat :: x < used && x != e ==> KeyOf(b'[x]) == KeyOf(b[x]) && w'[x] == w[x]
    requires forall x: nat :: x < used && x != e ==> !Holds(b, x, d, s)
    ensures CopiesOf(b', w', used') == Placed(b, w, used, e, (d, s), v)
  {
    var m := Placed(b, w, used, e, (d, s), v);
    forall x: nat | x < used' && Live(b'[x]) ensures KeyOf(b'[x]) in m && m[KeyOf(b'[x])] == w'[x] {
      if x != e {
        CopyIs(b, w, used, x);
        assert KeyOf(b[x]) != (d, s) by { assert !Holds(b, x, d, s); }
        if e < used && Live(b[e]) {
          assert KeyOf(b[x]) != KeyOf(b[e]) by { Different(b, used, x, e); }
        }
      }
    }
    forall k | k in m ensures HasCopy(b', used', k) {
      if k == (d, s) {
        assert Holds(b', e, k.0, k.1);
      } else {
        var x: nat :| x < used && Holds(b, x, k.0, k.1);
        assert KeyOf(b[x]) == k;
        assert x != e;
        assert Holds(b', x, k.0, k.1);
      }
    }
    CopiesAre(b', w', used', m);
  }

  lemma CopiesFrame(b: seq<Base>, b': seq<Base>, w: seq<Sector>, used: nat)
    requires used <= |b| == |b'| == |w| && UniqueLive(b, used)
    requires forall x :: 0 <= x < |b| ==> KeyOf(b'[x]) == KeyOf(b[x])
    ensures CopiesOf(b', w, used) == CopiesOf(b, w, used) && UniqueLive(b', used)
  {
    var m := CopiesOf(b, w, used);
    forall x: nat | x < used && Live(b'[x]) ensures KeyOf(b'[x]) in m && m[KeyOf(b'[x])] == w[x] {
      CopyIs(b, w, used, x);
    }
    forall k | k in m ensures HasCopy(b', used, k) {
      var x: nat :| x < used && Holds(b, x, k.0, k.1);
      assert Holds(b', x, k.0, k.1);
    }
    CopiesAre(b', w, used, m);
  }

  lemma CopiesReplaced(b: seq<Base>, w: seq<Sector>, used: nat, e: nat, d: nat, s: nat, v: Sector)
    requires e < used <= |b| == |w| && UniqueLive(b, used) && Holds(b, e, d, s)
    ensures CopiesOf(b, w[e := v], used) == CopiesOf(b, w, used)[(d, s) := v]
  {
    var m := CopiesOf(b, w, used)[(d, s) := v];
    forall x: nat | x < used && Live(b[x]) ensures KeyOf(b[x]) in m && m[KeyOf(b[x])] == w[e := v][x] {
      CopyIs(b, w, used, x);
      if x != e {
        Different(b, used, x, e);
      }
    }
    forall k | k in m ensures HasCopy(b, used, k) {
      if k == (d, s) {
        assert Holds(b, e, k.0, k.1);
      }
    }
    CopiesAre(b, w[e := v], used, m);
  }

  lemma Different(b: seq<Base>, used: nat, x: nat, y: nat)
    requires UniqueLive(b, used) && x < used <= |b| && y < used && x != y && Live(b[x]) && Live(b[y])
    ensures KeyOf(b[x]) != KeyOf(b[y])
  {
    assert x < y || y < x;
  }

  // The tables after emergency flushes of the drives: their dirty entries are given up.
  ghost function GivenUp(b: seq<Base>, f: seq<bool>, drives: set<nat>): (r: seq<Base>)
    requires |b| == |f|
    ensures |r| == |b|
  {
    seq(|b|, x requires 0 <= x < |b| => if f[x] && b[x].drive in drives then b[x].(drive := NO_DRIVE) else b[x])
  }

  ghost function StillDirty(b: seq<Base>, f: seq<bool>, drives: set<nat>): (r: seq<bool>)
    requires |b| == |f|
    ensures |r| == |f|
  {
    seq(|f|, x requires 0 <= x < |f| => f[x] && b[x].drive !in drives)
  }

  ghost predicate GivenUpAt(b: seq<Base>, f: seq<bool>, b': seq<Base>, f': seq<bool>, d: nat, x: nat)
    requires |b| == |f| == |b'| == |f'|
  {
    x < |b| && b'[x] == GivenUp(b, f, {d})[x] && f'[x] == StillDirty(b, f, {d})[x]
  }

  ghost predicate SameAt(b: seq<Base>, f: seq<bool>, b': seq<Base>, f': seq<bool>, x: nat)
    requires |b| == |f| == |b'| == |f'|
  {
    x < |b| && b'[x] == b[x] && f'[x] == f[x]
  }

  // A flush of drive `d` that has walked over the first `i` entries of the list.
  ghost predicate Given(b: seq<Base>, f: seq<bool>, b': seq<Base>, f': seq<bool>, lru: seq<nat>, d: nat, i: nat) {
    && |b| == |f| == |b'| == |f'| && i <= |lru| && Distinct(lru)
    && (forall j :: 0 <= j < i ==> GivenUpAt(b, f, b', f', d, lru[j]))
    && (forall j :: i <= j < |lru| ==> SameAt(b, f, b', f', lru[j]))
    && (forall x: nat :: x < |b| && x !in lru ==> SameAt(b, f, b', f', x) && !f[x])
  }

  lemma GivenStart(b: seq<Base>, f: seq<bool>, lru: seq<nat>, d: nat, k: nat)
    requires |b| == |f| && k <= |lru| && Distinct(lru) && forall j :: 0 <= j < |lru| ==> lru[j] < |b|
    requires forall j :: 0 <= j < k ==> !f[lru[j]]
    requires forall x: nat :: x < |b| && f[x] ==> x in lru
    ensures Given(b, f, b, f, lru, d, k)
  {
  }

  lemma GivenStep(b: seq<Base>, f: seq<bool>, b': seq<Base>, f': seq<bool>, lru: seq<nat>, d: nat, i: nat)
    requires Given(b, f, b', f', lru, d, i) && i < |lru|
    ensures lru[i] < |b'| == |f'|
    ensures var e := lru[i];
      if f'[e] && b'[e].drive == d then
        Given(b, f, b'[e := b'[e].(drive := NO_DRIVE)], f'[e := false], lru, d, i + 1)
      else Given(b, f, b', f', lru, d, i + 1)
  {
    assert SameAt(b, f, b', f', lru[i]);
  }

  lemma GivenEnd(b: seq<Base>, f: seq<bool>, b': seq<Base>, f': seq<bool>, lru: seq<nat>, d: nat)
    requires Given(b, f, b', f', lru, d, |lru|)
    ensures b' == GivenUp(b, f, {d}) && f' == StillDirty(b, f, {d})
  {
    forall x: nat | x < |b| ensures b'[x] == GivenUp(b, f, {d})[x] && f'[x] == StillDirty(b, f, {d})[x] {
      if x in lru {
        var j :| 0 <= j < |lru| && lru[j] == x;
        assert GivenUpAt(b, f, b', f', d, lru[j]);
      } else {
        assert SameAt(b, f, b', f', x);
      }
    }
  }

  // The other drives' dirty sectors stay.
  lemma StillDirtyAt(b: seq<Base>, f: seq<bool>, drives: set<nat>)
    requires |b| == |f|
    ensures forall d: nat, s: nat ::
      DirtyAt(GivenUp(b, f, drives), StillDirty(b, f, drives), d, s) <==> DirtyAt(b, f, d, s) && d !in drives
  {
    var b', f' := GivenUp(b, f, drives), StillDirty(b, f, drives);
    forall d: nat, s: nat ensures DirtyAt(b', f', d, s) <==> DirtyAt(b, f, d, s) && d !in drives {
      if x: nat :| x < |b| && f[x] && Holds(b, x, d, s) && d !in drives {
        assert f'[x] && Holds(b', x, d, s);
      }
      if x: nat :| x < |b| && f'[x] && Holds(b', x, d, s) {
        assert f[x] && Holds(b, x, d, s);
      }
    }
  }

  lemma NoneGivenUp(b: seq<Base>, f: seq<bool>)
    requires |b| == |f|
    ensures GivenUp(b, f, {}) == b && StillDirty(b, f, {}) == f
  {
  }

  lemma GivenUpTwice(b: seq<Base>, f: seq<bool>, drives: set<nat>, more: set<nat>)
    requires |b| == |f|
    ensures GivenUp(GivenUp(b, f, drives), StillDirty(b, f, drives), more) == GivenUp(b, f, drives + more)
    ensures StillDirty(GivenUp(b, f, drives), StillDirty(b, f, drives), more) == StillDirty(b, f, drives + more)
  {
  }

  lemma CopiesGivenUp(b: seq<Base>, f: seq<bool>, w: seq<Sector>, used: nat, drives: set<nat>, gone: iset<Key>)
    requires used <= |b| == |f| == |w| && UniqueLive(b, used) && NO_DRIVE !in drives
    requires forall x: nat :: x < |b| && f[x] ==> x < used && Live(b[x])
    requires forall k: Key :: k in gone <==> k.0 in drives && DirtyAt(b, f, k.0, k.1)
    ensures CopiesOf(GivenUp(b, f, drives), w, used) == Minus(CopiesOf(b, w, used), gone)
  {
    hide UniqueLive, CopiesOf;
    var b' := GivenUp(b, f, drives);
    var c := CopiesOf(b, w, used);
    var m := Minus(c, gone);
    forall x: nat | x < used && Live(b'[x]) ensures KeyOf(b'[x]) in m && m[KeyOf(b'[x])] == w[x] {
      CopyIs(b, w, used, x);
      StaysCached(b, f, used, drives, x);
    }
    forall k | k in m ensures HasCopy(b', used, k) {
      InCopies(b, w, used, k);
      var x: nat :| x < used && Holds(b, x, k.0, k.1);
      assert Holds(b', x, k.0, k.1);
    }
    assert UniqueLive(b', used) by { UniqueGivenUp(b, f, used, drives); }
    CopiesAre(b', w, used, m);
  }

  lemma InCopies(b: seq<Base>, w: seq<Sector>, used: nat, k: Key)
    requires used <= |b| == |w|
    ensures k in CopiesOf(b, w, used) <==> HasCopy(b, used, k)
  {
  }

  lemma UniqueGivenUp(b: seq<Base>, f: seq<bool>, used: nat, drives: set<nat>)
    requires used <= |b| == |f| && UniqueLive(b, used)
    ensures UniqueLive(GivenUp(b, f, drives), used)
  {
  }

  // No other entry holds the sector of one that is not given up, nor is it dirty there.
  lemma StaysCached(b: seq<Base>, f: seq<bool>, used: nat, drives: set<nat>, x: nat)
    requires used <= |b| == |f| && UniqueLive(b, used) && x < used && Live(GivenUp(b, f, drives)[x])
    requires forall y: nat :: y < |b| && f[y] ==> y < used && Live(b[y])
    ensures Live(b[x]) && !(b[x].drive in drives && DirtyAt(b, f, b[x].drive, b[x].sector))
  {
    forall y: nat | y < used && y != x && Live(b[y]) ensures KeyOf(b[y]) != KeyOf(b[x]) {
      Different(b, used, x, y);
    }
  }

  // Between two moments at most the copy of `k` is new, and every other is as it was.
  ghost predicate KeptBut(c: imap<Key, Sector>, c': imap<Key, Sector>, k: Key) {
    forall x :: x in c' && x != k ==> x in c && c'[x] == c[x]
  }

  lemma KeptSame(c: imap<Key, Sector>, k: Key)
    ensures KeptBut(c, c, k)
  {
  }

  // The oldest entry that is clean, or clean once the drives have been flushed.
  ghost function FirstClean(lru: seq<nat>, b: seq<Base>, f: seq<bool>, drives: set<nat>): (r: nat)
    requires |b| == |f|
    ensures r <= |lru|
    ensures forall j :: 0 <= j < r ==> lru[j] < |b| ==> f[lru[j]] && b[lru[j]].drive !in drives
    ensures r < |lru| ==> lru[r] < |b| && !(f[lru[r]] && b[lru[r]].drive !in drives)
  {
    if lru == [] then 0
    else if lru[0] < |b| && !(f[lru[0]] && b[lru[0]].drive !in drives) then 0
    else 1 + FirstClean(lru[1..], b, f, drives)
  }

  // The sector whose copy is given up for a new one: that of this entry, unless a flush
  // gave the entry up.
  ghost function Leaves(lru: seq<nat>, b: seq<Base>, f: seq<bool>, drives: set<nat>): iset<Key>
    requires |b| == |f|
  {
    var i := FirstClean(lru, b, f, drives);
    if i < |lru| && !f[lru[i]] && Live(b[lru[i]]) then iset{KeyOf(b[lru[i]])} else iset{}
  }

  lemma LeavesIs(lru: seq<nat>, b: seq<Base>, f: seq<bool>, drives: set<nat>, i: nat)
    requires |b| == |f| && i < |lru| && lru[i] < |b| && forall j :: 0 <= j < i ==> lru[j] < |b|
    requires !StillDirty(b, f, drives)[lru[i]]
    requires forall j :: 0 <= j < i ==> StillDirty(b, f, drives)[lru[j]]
    ensures Leaves(lru, b, f, drives) ==
      if Live(GivenUp(b, f, drives)[lru[i]]) then iset{KeyOf(GivenUp(b, f, drives)[lru[i]])} else iset{}
  {
    var k := FirstClean(lru, b, f, drives);
    assert k == i;
  }

  lemma LeavesAfter(lru: seq<nat>, b: seq<Base>, f: seq<bool>, drives: set<nat>)
    requires |b| == |f|
    ensures Leaves(lru, GivenUp(b, f, drives), StillDirty(b, f, drives), {}) == Leaves(lru, b, f, drives)
  {
    FirstCleanAfter(lru, b, f, drives);
  }

  lemma {:induction false} FirstCleanAfter(lru: seq<nat>, b: seq<Base>, f: seq<bool>, drives: set<nat>)
    requires |b| == |f|
    ensures FirstClean(lru, GivenUp(b, f, drives), StillDirty(b, f, drives), {}) == FirstClean(lru, b, f, drives)
  {
    if lru != [] {
      FirstCleanAfter(lru[1..], b, f, drives);
    }
  }

  // ---------------------------------------------------------------- dirty sectors by age

  // The dirty sectors, the one whose entry is the oldest first.
  ghost function DirtyOrder(lru: seq<nat>, b: seq<Base>, f: seq<bool>): seq<Key>
    requires |b| == |f|
  {
    if lru == [] then [] else
      var e := lru[|lru| - 1];
      DirtyOrder(lru[..|lru| - 1], b, f) + if e < |b| && f[e] then [KeyOf(b[e])] else []
  }

  lemma {:induction false} OrderConcat(a: seq<nat>, c: seq<nat>, b: seq<Base>, f: seq<bool>)
    requires |b| == |f|
    ensures DirtyOrder(a + c, b, f) == DirtyOrder(a, b, f) + DirtyOrder(c, b, f)
    decreases |c|
  {
    if c == [] {
      assert a + c == a;
    } else {
      var m := |c| - 1;
      OrderConcat(a, c[..m], b, f);
      assert (a + c)[..|a + c| - 1] == a + c[..m];
    }
  }

  lemma OrderOne(e: nat, b: seq<Base>, f: seq<bool>)
    requires e < |b| == |f|
    ensures DirtyOrder([e], b, f) == if f[e] then [KeyOf(b[e])] else []
  {
    assert [e][..0] == [];
  }

  lemma {:induction false} OrderFrame(lru: seq<nat>, b: seq<Base>, f: seq<bool>, b': seq<Base>, f': seq<bool>)
    requires |b| == |f| == |b'| == |f'|
    requires forall e :: e in lru && e < |b| ==> f'[e] == f[e] && (f[e] ==> KeyOf(b'[e]) == KeyOf(b[e]))
    ensures DirtyOrder(lru, b', f') == DirtyOrder(lru, b, f)
  {
    if lru != [] {
      var m := |lru| - 1;
      assert lru[m] in lru;
      OrderFrame(lru[..m], b, f, b', f');
    }
  }

  lemma {:induction false} NoneInOrder(lru: seq<nat>, b: seq<Base>, f: seq<bool>)
    requires |b| == |f| && forall e :: e in lru && e < |b| ==> !f[e]
    ensures DirtyOrder(lru, b, f) == []
  {
    if lru != [] {
      var m := |lru| - 1;
      assert lru[m] in lru;
      NoneInOrder(lru[..m], b, f);
    }
  }

  // Its members are the keys of the listed dirty entries.
  lemma {:induction false} InOrder(lru: seq<nat>, b: seq<Base>, f: seq<bool>, k: Key)
    requires |b| == |f|
    ensures k in DirtyOrder(lru, b, f) <==> exists e :: e in lru && e < |b| && f[e] && KeyOf(b[e]) == k
  {
    if lru != [] {
      var m, e := |lru| - 1, lru[|lru| - 1];
      InOrder(lru[..m], b, f, k);
      assert lru == lru[..m] + [e];
      if e < |b| && f[e] && KeyOf(b[e]) == k {
        assert e in lru;
      }
    }
  }

  // The order without one sector.
  ghost function Dropping(order: seq<Key>, k: Key): (r: seq<Key>)
    ensures forall x :: x in r <==> x in order && x != k
    ensures |r| <= |order|
  {
    if order == [] then []
    else Dropping(order[..|order| - 1], k) + if order[|order| - 1] == k then [] else [order[|order| - 1]]
  }

  lemma {:induction false} DroppingNone(order: seq<Key>, k: Key)
    requires k !in order
    ensures Dropping(order, k) == order
  {
    if order != [] {
      DroppingNone(order[..|order| - 1], k);
    }
  }

  lemma {:induction false} DroppingConcat(a: seq<Key>, c: seq<Key>, k: Key)
    ensures Dropping(a + c, k) == Dropping(a, k) + Dropping(c, k)
    decreases |c|
  {
    if c == [] {
      assert a + c == a;
    } else {
      var m := |c| - 1;
      DroppingConcat(a, c[..m], k);
      assert (a + c)[..|a + c| - 1] == a + c[..m];
    }
  }

  // The order without one of the entries.
  lemma OrderWithout(lru: seq<nat>, b: seq<Base>, f: seq<bool>, used: nat, e: nat)
    requires |b| == |f| && Distinct(lru) && used <= |b|
    requires forall x :: x in lru ==> x < used && (f[x] ==> Live(b[x]))
    requires e < used && f[e] ==> UniqueLive(b, used)
    ensures DirtyOrder(Without(lru, e), b, f) ==
      if e in lru && f[e] then Dropping(DirtyOrder(lru, b, f), KeyOf(b[e])) else DirtyOrder(lru, b, f)
  {
    hide DirtyOrder, Dropping, UniqueLive, Distinct, Without;
    if e in lru {
      var k :| 0 <= k < |lru| && lru[k] == e;
      var p, q := lru[..k], lru[k + 1..];
      SplitAt(lru, k);
      OrderParts(p, e, q, b, f);
      if f[e] {
        NotAgain(lru, lru[..k], b, f, used, e);
        NotAgain(lru, lru[k + 1..], b, f, used, e);
        DroppedBetween(DirtyOrder(p, b, f), KeyOf(b[e]), DirtyOrder(q, b, f));
      } else {
        assert DirtyOrder(p, b, f) + [] == DirtyOrder(p, b, f);
      }
    } else {
      WithoutSame(lru, e);
    }
  }

  lemma OrderParts(p: seq<nat>, e: nat, q: seq<nat>, b: seq<Base>, f: seq<bool>)
    requires e < |b| == |f|
    ensures DirtyOrder(p + q, b, f) == DirtyOrder(p, b, f) + DirtyOrder(q, b, f)
    ensures DirtyOrder(p + [e] + q, b, f) ==
      DirtyOrder(p, b, f) + (if f[e] then [KeyOf(b[e])] else []) + DirtyOrder(q, b, f)
  {
    hide DirtyOrder;
    OrderConcat(p, q, b, f);
    OrderConcat(p, [e], b, f);
    OrderConcat(p + [e], q, b, f);
    OrderOne(e, b, f);
  }

  lemma SplitAt(lru: seq<nat>, k: nat)
    requires Distinct(lru) && k < |lru|
    ensures lru == lru[..k] + [lru[k]] + lru[k + 1..] && Without(lru, lru[k]) == lru[..k] + lru[k + 1..]
    ensures forall x :: x in lru[..k] ==> x in lru && x != lru[k]
    ensures forall x :: x in lru[k + 1..] ==> x in lru && x != lru[k]
    ensures lru[k] !in lru[..k] && lru[k] !in lru[k + 1..]
  {
    hide Distinct, Without;
    assert lru == lru[..k] + [lru[k]] + lru[k + 1..];
    WithoutAt(lru, k);
    Apart(lru, k);
  }

  lemma Apart(lru: seq<nat>, k: nat)
    requires Distinct(lru) && k < |lru|
    ensures forall x :: x in lru[..k] ==> x in lru && x != lru[k]
    ensures forall x :: x in lru[k + 1..] ==> x in lru && x != lru[k]
    ensures lru[k] !in lru[..k] && lru[k] !in lru[k + 1..]
  {
    forall x | x in lru[..k] ensures x in lru && x != lru[k] {
      var i :| 0 <= i < k && lru[..k][i] == x;
      assert lru[i] == x;
    }
    forall x | x in lru[k + 1..] ensures x in lru && x != lru[k] {
      var i :| 0 <= i < |lru| - k - 1 && lru[k + 1..][i] == x;
      assert lru[k + 1 + i] == x;
    }
  }

  lemma DroppedBetween(p: seq<Key>, k: Key, q: seq<Key>)
    requires k !in p && k !in q
    ensures Dropping(p + [k] + q, k) == p + q
  {
    hide Dropping;
    DroppingConcat(p, [k], k);
    DroppingConcat(p + [k], q, k);
    DroppingNone(p, k);
    DroppingNone(q, k);
    DropOne(k);
  }

  // Entry `e` becomes the newest, perhaps with another sector and dirty flag.
  lemma OrderMoved(lru: seq<nat>, b: seq<Base>, f: seq<bool>, b': seq<Base>, f': seq<bool>, e: nat)
    requires |b| == |f| == |b'| == |f'| && e < |b|
    requires forall x: nat :: x < |b| && x != e ==> f'[x] == f[x] && KeyOf(b'[x]) == KeyOf(b[x])
    ensures DirtyOrder(Without(lru, e) + [e], b', f') ==
      DirtyOrder(Without(lru, e), b, f) + if f'[e] then [KeyOf(b'[e])] else []
  {
    var rest := Without(lru, e);
    OrderConcat(rest, [e], b', f');
    OrderOne(e, b', f');
    OrderFrame(rest, b, f, b', f');
  }

  // A clean entry takes a sector and becomes the newest.
  lemma OrderPlaced(lru: seq<nat>, b: seq<Base>, f: seq<bool>, b': seq<Base>, f': seq<bool>, e: nat)
    requires |b| == |f| == |b'| == |f'| && e < |b| && !f[e] && Distinct(lru)
    requires forall x :: x in lru ==> x < |b| && (f[x] ==> Live(b[x]))
    requires forall x: nat :: x < |b| && x != e ==> f'[x] == f[x] && KeyOf(b'[x]) == KeyOf(b[x])
    ensures DirtyOrder(Without(lru, e) + [e], b', f') ==
      DirtyOrder(lru, b, f) + if f'[e] then [KeyOf(b'[e])] else []
  {
    OrderWithout(lru, b, f, |b|, e);
    OrderMoved(lru, b, f, b', f', e);
  }

  lemma DropOne(k: Key)
    ensures Dropping([k], k) == []
  {
    assert [k][..0] == [];
  }

  lemma NotAgain(lru: seq<nat>, part: seq<nat>, b: seq<Base>, f: seq<bool>, used: nat, e: nat)
    requires |b| == |f| && e < used <= |b| && UniqueLive(b, used) && Live(b[e])
    requires forall x :: x in lru ==> x < used && (f[x] ==> Live(b[x]))
    requires forall x :: x in part ==> x in lru && x != e
    ensures KeyOf(b[e]) !in DirtyOrder(part, b, f)
  {
    InOrder(part, b, f, KeyOf(b[e]));
    if x :| x in part && x < |b| && f[x] && KeyOf(b[x]) == KeyOf(b[e]) {
      Different(b, used, x, e);
    }
  }

  ghost function DirtyListed(lru: seq<nat>, f: seq<bool>): set<nat> { set e | e in lru && e < |f| && f[e] }

  // As many as there are dirty entries.
  lemma {:induction false} OrderSize(lru: seq<nat>, b: seq<Base>, f: seq<bool>)
    requires |b| == |f| && Distinct(lru)
    ensures |DirtyOrder(lru, b, f)| == |DirtyListed(lru, f)|
  {
    if lru == [] {
      assert DirtyListed(lru, f) == {};
    } else {
      var m, e := |lru| - 1, lru[|lru| - 1];
      var rest := lru[..m];
      OrderSize(rest, b, f);
      assert lru == rest + [e];
      assert e !in rest;
      assert DirtyListed(lru, f) == DirtyListed(rest, f) + if e < |f| && f[e] then {e} else {};
    }
  }

  lemma OrderCount(lru: seq<nat>, b: seq<Base>, f: seq<bool>)
    requires |b| == |f| && Distinct(lru) && forall e: nat :: e < |f| && f[e] ==> e in lru
    ensures |DirtyOrder(lru, b, f)| == |DirtySet(f)|
  {
    OrderSize(lru, b, f);
    assert DirtyListed(lru, f) == DirtySet(f);
  }

  // ---------------------------------------------------------------- emergency flushes

  // The order without the sectors of some drives.
  ghost function NotOn(order: seq<Key>, drives: set<nat>): (r: seq<Key>)
    ensures |r| <= |order| && forall k :: k in r <==> k in order && k.0 !in drives
  {
    if order == [] then []
    else NotOn(order[..|order| - 1], drives) + if order[|order| - 1].0 in drives then [] else [order[|order| - 1]]
  }

  lemma {:induction false} NotOnNone(order: seq<Key>)
    ensures NotOn(order, {}) == order
  {
    if order != [] {
      assert order == order[..|order| - 1] + [order[|order| - 1]];
      NotOnNone(order[..|order| - 1]);
    }
  }

  ghost function KeysOn(order: seq<Key>, drives: set<nat>): iset<Key> { iset k | k in order && k.0 in drives }

  lemma {:induction false} NotOnLess(order: seq<Key>, drives: set<nat>, k: Key)
    requires k in order && k.0 in drives
    ensures |NotOn(order, drives)| < |order|
  {
    if order[|order| - 1].0 !in drives {
      assert order == order[..|order| - 1] + [order[|order| - 1]];
      NotOnLess(order[..|order| - 1], drives, k);
    }
  }

  // The drives that are flushed until fewer than `threshold` sectors are dirty: each time
  // the drive of the oldest dirty sector.
  ghost function FlushedDrives(order: seq<Key>, threshold: nat): set<nat>
    decreases |order|
  {
    if |order| < threshold || order == [] then {} else
      NotOnLess(order, {order[0].0}, order[0]);
      {order[0].0} + FlushedDrives(NotOn(order, {order[0].0}), threshold)
  }

  lemma FlushedNext(order: seq<Key>, threshold: nat)
    requires |order| >= threshold > 0
    ensures FlushedDrives(order, threshold) ==
      {order[0].0} + FlushedDrives(NotOn(order, {order[0].0}), threshold)
  {
  }

  lemma FlushedNone(order: seq<Key>, threshold: nat)
    requires |order| < threshold
    ensures FlushedDrives(order, threshold) == {}
  {
  }

  lemma {:induction false} OrderGivenUp(lru: seq<nat>, b: seq<Base>, f: seq<bool>, drives: set<nat>)
    requires |b| == |f|
    ensures DirtyOrder(lru, GivenUp(b, f, drives), StillDirty(b, f, drives)) == NotOn(DirtyOrder(lru, b, f), drives)
  {
    if lru != [] {
      var m, e := |lru| - 1, lru[|lru| - 1];
      OrderGivenUp(lru[..m], b, f, drives);
      var o := DirtyOrder(lru[..m], b, f);
      if e < |b| && f[e] {
        assert (o + [KeyOf(b[e])])[..|o|] == o;
      } else {
        assert o + [] == o;
      }
    }
  }

  // One emergency flush more in the threshold loop.
  lemma FlushOne(lru: seq<nat>, b: seq<Base>, f: seq<bool>, i: nat, drive: nat, threshold: nat, b0: seq<Base>,
                 f0: seq<bool>, flushed: set<nat>)
    requires |b| == |f| == |b0| == |f0| && i < |lru| && lru[i] < |b| && f[lru[i]] && b[lru[i]].drive == drive
    requires forall j :: 0 <= j < i ==> lru[j] < |b| && !f[lru[j]]
    requires |DirtyOrder(lru, b, f)| >= threshold > 0
    requires b == GivenUp(b0, f0, flushed) && f == StillDirty(b0, f0, flushed)
    ensures GivenUp(b, f, {drive}) == GivenUp(b0, f0, flushed + {drive})
    ensures StillDirty(b, f, {drive}) == StillDirty(b0, f0, flushed + {drive})
    ensures {drive} + FlushedDrives(DirtyOrder(lru, GivenUp(b, f, {drive}), StillDirty(b, f, {drive})), threshold) ==
      FlushedDrives(DirtyOrder(lru, b, f), threshold)
  {
    hide DirtyOrder, FlushedDrives, NotOn, GivenUp, StillDirty;
    OldestFirst(lru, b, f, i);
    OrderGivenUp(lru, b, f, {drive});
    GivenUpTwice(b0, f0, flushed, {drive});
    FlushedNext(DirtyOrder(lru, b, f), threshold);
  }

  // The first of the order is the first dirty entry of the list.
  lemma OldestFirst(lru: seq<nat>, b: seq<Base>, f: seq<bool>, i: nat)
    requires |b| == |f| && i < |lru| && lru[i] < |b| && f[lru[i]]
    requires forall j :: 0 <= j < i ==> lru[j] < |b| && !f[lru[j]]
    ensures DirtyOrder(lru, b, f) != [] && DirtyOrder(lru, b, f)[0] == KeyOf(b[lru[i]])
  {
    var p, q := lru[..i], lru[i + 1..];
    assert lru == p + [lru[i]] + q;
    OrderConcat(p, [lru[i]], b, f);
    OrderConcat(p + [lru[i]], q, b, f);
    OrderOne(lru[i], b, f);
    NoneInOrder(p, b, f);
  }

  // ---------------------------------------------------------------- transfers

  // How many of the `k` sectors from `s` on are not in `c`.
  ghost function Missing(c: iset<nat>, s: nat, k: nat): (r: nat)
    ensures r <= k
  {
    if k == 0 then 0 else Missing(c, s, k - 1) + if s + k - 1 in c then 0 else 1
  }

  // What the flushes of a transfer to one drive depend on: its cached sectors, the
  // unused entries, how far the dirty count is above the threshold, and the dirty sectors
  // by age.
  datatype Pace = Pace(cached: iset<nat>, room: int, surplus: int, order: seq<Key>)

  // The dirty sectors of the drive.
  ghost function DirtyOn(order: seq<Key>, d: nat): iset<nat> { iset x: nat | (d, x) in order }

  // The dirty sectors a transfer cleans: none when it reads.
  ghost function Cleans(order: seq<Key>, d: nat, reading: bool): iset<nat> {
    if reading then iset{} else DirtyOn(order, d)
  }

  // The order after one sector: a read makes its dirty copy the newest, a write through
  // makes it clean.
  ghost function After(order: seq<Key>, k: Key, reading: bool): seq<Key> {
    if k in order then Dropping(order, k) + (if reading then [k] else []) else order
  }

  ghost function AfterAll(order: seq<Key>, d: nat, s: nat, k: nat, reading: bool): seq<Key> {
    if k == 0 then order else After(AfterAll(order, d, s, k - 1, reading), (d, s + k - 1), reading)
  }

  // Sector `k` of a transfer finds no entry for it: it is not cached, the ones before it
  // took the unused entries, and too many sectors are dirty still.
  ghost predicate Crowds(p: Pace, d: nat, s: nat, reading: bool, k: nat) {
    && s + k !in p.cached && Missing(p.cached, s, k) >= p.room
    && k - Missing(Cleans(p.order, d, reading), s, k) <= p.surplus
  }

  // The first such sector of `n`, or `n`.
  ghost function FirstCrowded(p: Pace, d: nat, s: nat, reading: bool, n: nat): (r: nat)
    ensures r <= n
  {
    if n == 0 then 0 else
      var f := FirstCrowded(p, d, s, reading, n - 1);
      if f < n - 1 || Crowds(p, d, s, reading, n - 1) then f else n
  }

  // Where a flush of the transfer's own drive happens, or `n`.
  ghost function FlushAt(p: Pace, d: nat, s: nat, reading: bool, threshold: nat, n: nat): (r: nat)
    ensures r <= n
  {
    var k := FirstCrowded(p, d, s, reading, n);
    if k < n && d in FlushedDrives(AfterAll(p.order, d, s, k, reading), threshold) then k else n
  }

  lemma {:induction false} FirstStays(p: Pace, d: nat, s: nat, reading: bool, i: nat, n: nat)
    requires i <= n && FirstCrowded(p, d, s, reading, i) < i
    ensures FirstCrowded(p, d, s, reading, n) == FirstCrowded(p, d, s, reading, i)
  {
    hide Crowds;
    if i < n {
      FirstStays(p, d, s, reading, i, n - 1);
    }
  }

  lemma NoneFlushed(p: Pace, d: nat, s: nat, reading: bool, threshold: nat, n: nat)
    requires forall x: nat :: s <= x < s + n ==> x in p.cached
    ensures FlushAt(p, d, s, reading, threshold, n) == n
  {
    NoneCrowded(p, d, s, reading, n);
  }

  lemma AfterNone(order: seq<Key>, d: nat, s: nat, reading: bool)
    ensures AfterAll(order, d, s, 0, reading) == order
  {
  }

  lemma AfterNext(order: seq<Key>, d: nat, s: nat, k: nat, reading: bool)
    ensures AfterAll(order, d, s, k + 1, reading) == After(AfterAll(order, d, s, k, reading), (d, s + k), reading)
  {
  }

  // With sectors 1 and 2 dirty, a full cache and the count at the threshold a transfer
  // from sector 0 on has the drive flushed at once.
  lemma TwoDirty(p: Pace, d: nat, reading: bool, n: nat)
    requires p.cached == iset{1, 2} && p.room == 0 && p.surplus == 0 && p.order == [(d, 1), (d, 2)] && n > 0
    ensures FlushAt(p, d, 0, reading, 2, n) == 0
  {
    assert Crowds(p, d, 0, reading, 0);
    assert FirstCrowded(p, d, 0, reading, 1) == 0;
    FirstStays(p, d, 0, reading, 1, n);
    FlushedNext(p.order, 2);
  }

  lemma {:induction false} NoneCrowded(p: Pace, d: nat, s: nat, reading: bool, n: nat)
    requires forall x: nat :: s <= x < s + n ==> x in p.cached
    ensures FirstCrowded(p, d, s, reading, n) == n
  {
    if n > 0 {
      NoneCrowded(p, d, s, reading, n - 1);
    }
  }

  // The sectors still to come are dirty as they were.
  lemma {:induction false} AfterLater(order: seq<Key>, d: nat, s: nat, k: nat, reading: bool, x: nat)
    requires x >= s + k
    ensures (d, x) in AfterAll(order, d, s, k, reading) <==> (d, x) in order
  {
    if k > 0 {
      AfterLater(order, d, s, k - 1, reading, x);
    }
  }

  // Between two sectors of a transfer: `p0` is from before it, `p` is now. Until a flush,
  // entries are only added, unless the dirty count is below the threshold; a flush leaves
  // it below for good.
  ghost predicate Pacing(p0: Pace, d: nat, s: nat, reading: bool, threshold: nat, n: nat, i: nat, flushedAt: nat,
                         p: Pace) {
    var k := FirstCrowded(p0, d, s, reading, i);
    if k < i then
      p.surplus < 0 && flushedAt == if d in FlushedDrives(AfterAll(p0.order, d, s, k, reading), threshold) then k else n
    else
      && flushedAt == n && p.order == AfterAll(p0.order, d, s, i, reading)
      && p.surplus == p0.surplus - (i - Missing(Cleans(p0.order, d, reading), s, i))
      && (p.surplus >= 0 ==>
            && p.room == p0.room - Missing(p0.cached, s, i) && p.room >= 0
            && forall x :: x >= s + i ==> (x in p.cached <==> x in p0.cached))
  }

  // What one sector of a transfer does to the pace; `flushed` says that the drive was flushed.
  ghost predicate Paced(p: Pace, d: nat, x: nat, reading: bool, threshold: nat, p': Pace, flushed: bool) {
    if x !in p.cached && p.room <= 0 <= p.surplus then
      p'.surplus < 0 && (flushed <==> d in FlushedDrives(p.order, threshold))
    else
      && !flushed && p'.order == After(p.order, (d, x), reading)
      && p'.surplus == p.surplus - (if !reading && (d, x) in p.order then 1 else 0)
      && (x in p.cached ==> p'.cached == p.cached && p'.room == p.room)
      && (x !in p.cached && p.room > 0 ==> p'.cached == p.cached + iset{x} && p'.room == p.room - 1)
  }

  // The sector is cached.
  lemma PacedFound(p: Pace, d: nat, x: nat, reading: bool, p': Pace, threshold: nat)
    requires x in p.cached && p'.cached == p.cached && p'.room == p.room && p'.order == After(p.order, (d, x), reading)
    requires p'.surplus == p.surplus - if !reading && (d, x) in p.order then 1 else 0
    ensures Paced(p, d, x, reading, threshold, p', false)
  {
  }

  // It was stored, with or without flushing `drives`.
  lemma PacedStored(p: Pace, d: nat, x: nat, reading: bool, p': Pace, threshold: nat, drives: set<nat>)
    requires x !in p.cached && (d, x) !in p.order && p'.order == NotOn(p.order, drives)
    requires p.room > 0 ==> p'.cached == p.cached + iset{x} && p'.room == p.room - 1
    requires if p.room <= 0 <= p.surplus then p'.surplus < 0 && drives == FlushedDrives(p.order, threshold)
             else drives == {} && p'.surplus == p.surplus
    ensures Paced(p, d, x, reading, threshold, p', d in drives)
  {
    hide NotOn, FlushedDrives;
    NotOnNone(p.order);
  }

  lemma PacingStep(p0: Pace, d: nat, s: nat, reading: bool, threshold: nat, n: nat, i: nat, flushedAt: nat, p: Pace,
                   p': Pace, flushed: bool)
    requires i < n && Pacing(p0, d, s, reading, threshold, n, i, flushedAt, p)
    requires Paced(p, d, s + i, reading, threshold, p', flushed)
    ensures Pacing(p0, d, s, reading, threshold, n, i + 1, if flushed && flushedAt == n then i else flushedAt, p')
  {
    hide FlushedDrives, After;
    AfterLater(p0.order, d, s, i, reading, s + i);
    if FirstCrowded(p0, d, s, reading, i) < i {
      FirstStays(p0, d, s, reading, i, i + 1);
    }
  }

  lemma PacingEnd(p0: Pace, d: nat, s: nat, reading: bool, threshold: nat, n: nat, flushedAt: nat, p: Pace)
    requires Pacing(p0, d, s, reading, threshold, n, n, flushedAt, p)
    ensures flushedAt == FlushAt(p0, d, s, reading, threshold, n)
  {
    hide FlushedDrives, AfterAll, FirstCrowded;
  }

  lemma PacingStart(p: Pace, d: nat, s: nat, reading: bool, threshold: nat, n: nat)
    requires p.room >= 0
    ensures Pacing(p, d, s, reading, threshold, n, 0, n, p)
  {
  }

  // How many of the `n` sectors from `s` on are cached before the first that is not.
  ghost function Hits(c: iset<nat>, s: nat, n: nat): (r: nat)
    ensures r <= n && (forall x: nat :: s <= x < s + r ==> x in c) && (r < n ==> s + r !in c)
  {
    if n == 0 then 0 else
      var h := Hits(c, s, n - 1);
      if h < n - 1 || s + n - 1 !in c then h else n
  }

  lemma HitsAre(c: iset<nat>, s: nat, n: nat, r: nat)
    requires r <= n && (forall x: nat :: s <= x < s + r ==> x in c) && (r < n ==> s + r !in c)
    ensures Hits(c, s, n) == r
  {
    assert Hits(c, s, n) > r ==> s + r in c;
    assert Hits(c, s, n) < r ==> s + Hits(c, s, n) in c;
  }

  // What a read leaves out of date between two sectors: the ones from `flushedAt` on that
  // the device did not have yet when it was read, where their copies are the device's.
  ghost predicate LeftBehind(c: imap<Key, Sector>, stale: set<Key>, stale0: set<Key>, dirty0: iset<nat>, d: nat,
                             s: nat, read: seq<Sector>, logical: seq<Sector>, flushedAt: nat, i: nat)
    requires i <= |read| && s + |read| <= |logical|
  {
    && (forall k :: k in stale && k !in stale0 ==>
          && k.0 == d && s + flushedAt <= k.1 < s + i && read[k.1 - s] != logical[k.1]
          && (k in c ==> c[k] == read[k.1 - s]))
    && (forall x: nat :: s + flushedAt <= x < s + i && read[x - s] != logical[x] ==> (d, x) in stale)
    && (flushedAt < |read| ==> forall x: nat :: x in dirty0 && x >= s + i ==> (d, x) !in c)
  }

  lemma LeftStart(c: imap<Key, Sector>, stale: set<Key>, dirty0: iset<nat>, d: nat, s: nat, read: seq<Sector>,
                  logical: seq<Sector>)
    requires s + |read| <= |logical|
    ensures LeftBehind(c, stale, stale, dirty0, d, s, read, logical, |read|, 0)
  {
  }

  // The dirty sectors other than `x` have no copy any more.
  ghost predicate Gone(dirty0: iset<nat>, c: imap<Key, Sector>, d: nat, x: nat) {
    forall y :: y in dirty0 && y != x ==> (d, y) !in c
  }

  // What was read is what the sector contains, unless it has a dirty copy.
  ghost predicate Accounted(dirty0: iset<nat>, read: seq<Sector>, logical: seq<Sector>, s: nat)
    requires s + |read| <= |logical|
  {
    forall j :: 0 <= j < |read| ==> s + j in dirty0 || read[j] == logical[s + j]
  }

  lemma AccountedAt(dirty0: iset<nat>, read: seq<Sector>, logical: seq<Sector>, s: nat, i: nat)
    requires s + |read| <= |logical| && Accounted(dirty0, read, logical, s) && i < |read|
    ensures s + i in dirty0 || read[i] == logical[s + i]
  {
  }

  lemma LeftStep(c: imap<Key, Sector>, c': imap<Key, Sector>, stale: set<Key>, stale': set<Key>, stale0: set<Key>,
                 dirty0: iset<nat>, d: nat, s: nat, read: seq<Sector>, logical: seq<Sector>, flushedAt: nat, i: nat,
                 flushed: bool)
    requires i < |read| && s + |read| <= |logical| && flushedAt <= |read| && (flushedAt < |read| ==> flushedAt < i)
    requires LeftBehind(c, stale, stale0, dirty0, d, s, read, logical, flushedAt, i)
    requires Accounted(dirty0, read, logical, s)
    requires KeptBut(c, c', (d, s + i)) && stale' - {(d, s + i)} == stale - {(d, s + i)}
    requires (d, s + i) !in c && flushedAt < |read| && read[i] != logical[s + i] ==> (d, s + i) in stale'
    requires (d, s + i) in stale' && (d, s + i) !in stale ==>
      && read[i] != logical[s + i] && (s + i in dirty0 ==> flushedAt < |read|)
      && ((d, s + i) in c' ==> c'[(d, s + i)] == read[i])
    requires flushed && flushedAt == |read| ==>
      s + i !in dirty0 && Gone(dirty0, c', d, s + i)
    ensures LeftBehind(c', stale', stale0, dirty0, d, s, read, logical,
      if flushed && flushedAt == |read| then i else flushedAt, i + 1)
  {
    var at' := if flushed && flushedAt == |read| then i else flushedAt;
    forall k | k in stale' && k !in stale0
      ensures k.0 == d && s + at' <= k.1 < s + i + 1 && read[k.1 - s] != logical[k.1]
      ensures k in c' ==> c'[k] == read[k.1 - s]
    {
      assert k != (d, s + i) ==> k in stale - {(d, s + i)};
    }
    forall x: nat | s + at' <= x < s + i + 1 && read[x - s] != logical[x] ensures (d, x) in stale' {
      assert x != s + i ==> (d, x) in stale - {(d, s + i)};
    }
  }

  ghost function CachedOn(c: imap<Key, Sector>, d: nat): iset<nat> { iset x: nat | (d, x) in c }
}

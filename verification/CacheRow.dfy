// The cache's entries by age, and which sectors a lazy write comes to while their copies
// are still there.
module CacheRow {
  import opened Common
  import opened CacheModel
  import opened CacheOrder

  // What matters of an entry: the sector it holds, and whether it is dirty.
  type Row = seq<(Key, bool)>

  ghost function Item(b: seq<Base>, f: seq<bool>, e: nat): (Key, bool)
    requires |b| == |f|
  {
    if e < |b| then (KeyOf(b[e]), f[e]) else ((NO_DRIVE, 0), false)
  }

  ghost function RowOf(lru: seq<nat>, b: seq<Base>, f: seq<bool>): (r: Row)
    requires |b| == |f|
    ensures |r| == |lru|
  {
    seq(|lru|, i requires 0 <= i < |lru| => Item(b, f, lru[i]))
  }

  // Where a sector is, or the length of the row.
  ghost function PlaceOf(row: Row, k: Key): (r: nat)
    ensures r <= |row| && (forall j :: 0 <= j < r ==> row[j].0 != k) && (r < |row| ==> row[r].0 == k)
  {
    if row == [] || row[0].0 == k then 0 else 1 + PlaceOf(row[1..], k)
  }

  // The oldest entry that is clean, or clean once the drives have been flushed.
  ghost function FirstFree(row: Row, drives: set<nat>): (r: nat)
    ensures r <= |row| && (forall j :: 0 <= j < r ==> row[j].1 && row[j].0.0 !in drives)
    ensures r < |row| ==> !(row[r].1 && row[r].0.0 !in drives)
  {
    if row == [] || !(row[0].1 && row[0].0.0 !in drives) then 0 else 1 + FirstFree(row[1..], drives)
  }

  ghost function Cut(row: Row, p: nat): Row
    requires p < |row|
  {
    row[..p] + row[p + 1..]
  }

  ghost function FlushedRow(row: Row, drives: set<nat>): (r: Row)
    ensures |r| == |row|
  {
    seq(|row|, i requires 0 <= i < |row| =>
      if row[i].1 && row[i].0.0 in drives then ((NO_DRIVE, row[i].0.1), false) else row[i])
  }

  // The dirty sectors by age.
  ghost function OrderOf(row: Row): seq<Key> {
    if row == [] then [] else
      OrderOf(row[..|row| - 1]) + if row[|row| - 1].1 then [row[|row| - 1].0] else []
  }

  // A sector that is not cached is stored dirty.
  ghost function StoredRow(row: Row, size: nat, threshold: nat, k: Key): Row {
    if |row| < size then row + [(k, true)] else
      var drives := FlushedDrives(OrderOf(row), threshold);
      var p := FirstFree(row, drives);
      (if p < |row| then Cut(FlushedRow(row, drives), p) else row) + [(k, true)]
  }

  // One sector of a lazy write; `same` says that its copy is identical.
  ghost function WrittenRow(row: Row, size: nat, threshold: nat, k: Key, same: bool): Row {
    var p := PlaceOf(row, k);
    if p == |row| then StoredRow(row, size, threshold, k)
    else if same then row
    else Cut(row, p) + [(k, true)]
  }

  // The entries after `i` sectors of a lazy write. `c` holds the copies before it.
  ghost function LazyRow(row: Row, size: nat, threshold: nat, c: imap<Key, Sector>, d: nat, s: nat, buf: seq<Sector>,
                         i: nat): Row
    requires i <= |buf|
  {
    if i == 0 then row else
      var k := (d, s + i - 1);
      WrittenRow(LazyRow(row, size, threshold, c, d, s, buf, i - 1), size, threshold, k, k in c && c[k] == buf[i - 1])
  }

  // ---------------------------------------------------------------- the row of the tables

  lemma RowConcat(p: seq<nat>, q: seq<nat>, b: seq<Base>, f: seq<bool>)
    requires |b| == |f|
    ensures RowOf(p + q, b, f) == RowOf(p, b, f) + RowOf(q, b, f)
  {
  }

  // Entries outside the list do not matter.
  lemma RowWithout(part: seq<nat>, b: seq<Base>, f: seq<bool>, b': seq<Base>, f': seq<bool>, e: nat)
    requires |b| == |f| == |b'| == |f'| && e !in part
    requires forall x: nat :: x < |b| && x != e ==> f'[x] == f[x] && KeyOf(b'[x]) == KeyOf(b[x])
    ensures RowOf(part, b', f') == RowOf(part, b, f)
  {
    forall j | 0 <= j < |part| ensures RowOf(part, b', f')[j] == RowOf(part, b, f)[j] {
      assert part[j] in part;
    }
  }

  lemma RowMoved(lru: seq<nat>, b: seq<Base>, f: seq<bool>, b': seq<Base>, f': seq<bool>, k: nat)
    requires |b| == |f| == |b'| == |f'| && Distinct(lru) && k < |lru| && lru[k] < |b|
    requires forall x: nat :: x < |b| && x != lru[k] ==> f'[x] == f[x] && KeyOf(b'[x]) == KeyOf(b[x])
    ensures RowOf(Without(lru, lru[k]) + [lru[k]], b', f') == Cut(RowOf(lru, b, f), k) + [Item(b', f', lru[k])]
  {
    hide Without, Distinct, Item;
    var p, e, q := lru[..k], lru[k], lru[k + 1..];
    SplitAt(lru, k);
    RowWithout(p, b, f, b', f', e);
    RowWithout(q, b, f, b', f', e);
    Assembled(p, e, q, b, f, b', f');
  }

  lemma Assembled(p: seq<nat>, e: nat, q: seq<nat>, b: seq<Base>, f: seq<bool>, b': seq<Base>, f': seq<bool>)
    requires |b| == |f| == |b'| == |f'|
    requires RowOf(p, b', f') == RowOf(p, b, f) && RowOf(q, b', f') == RowOf(q, b, f)
    ensures RowOf(p + q + [e], b', f') == Cut(RowOf(p + [e] + q, b, f), |p|) + [Item(b', f', e)]
  {
    hide Item;
    assert RowOf([e], b', f') == [Item(b', f', e)] && RowOf([e], b, f) == [Item(b, f, e)];
    hide RowOf;
    RowConcat(p, q, b', f');
    RowConcat(p + q, [e], b', f');
    RowConcat(p, [e], b, f);
    RowConcat(p + [e], q, b, f);
    var x, y, z := RowOf(p, b, f), RowOf([e], b, f), RowOf(q, b, f);
    assert Cut(x + y + z, |p|) == x + z;
  }

  lemma RowAppended(lru: seq<nat>, b: seq<Base>, f: seq<bool>, b': seq<Base>, f': seq<bool>, e: nat)
    requires |b| == |f| == |b'| == |f'| && e !in lru
    requires forall x: nat :: x < |b| && x != e ==> f'[x] == f[x] && KeyOf(b'[x]) == KeyOf(b[x])
    ensures RowOf(Without(lru, e) + [e], b', f') == RowOf(lru, b, f) + [Item(b', f', e)]
  {
    WithoutSame(lru, e);
    RowWithout(lru, b, f, b', f', e);
    RowConcat(lru, [e], b', f');
  }

  lemma RowPlaced(lru: seq<nat>, b: seq<Base>, f: seq<bool>, b': seq<Base>, f': seq<bool>, e: nat)
    requires |b| == |f| == |b'| == |f'| && Distinct(lru) && e < |b|
    requires forall x: nat :: x < |b| && x != e ==> f'[x] == f[x] && KeyOf(b'[x]) == KeyOf(b[x])
    ensures e !in lru ==> RowOf(Without(lru, e) + [e], b', f') == RowOf(lru, b, f) + [Item(b', f', e)]
    ensures forall p :: 0 <= p < |lru| && lru[p] == e ==>
      RowOf(Without(lru, e) + [e], b', f') == Cut(RowOf(lru, b, f), p) + [Item(b', f', e)]
  {
    hide RowOf, Without, Distinct;
    if e !in lru {
      RowAppended(lru, b, f, b', f', e);
    }
    forall p | 0 <= p < |lru| && lru[p] == e
      ensures RowOf(Without(lru, e) + [e], b', f') == Cut(RowOf(lru, b, f), p) + [Item(b', f', e)]
    {
      RowMoved(lru, b, f, b', f', p);
    }
  }

  // The entry of a sector is replaced.
  lemma RowReplaced(lru: seq<nat>, b: seq<Base>, f: seq<bool>, used: nat, e: nat, v: bool)
    requires |b| == |f| && e < used <= |b| && Distinct(lru) && UniqueLive(b, used) && e in lru && Live(b[e])
    requires forall x :: x in lru ==> x < used
    ensures var p := PlaceOf(RowOf(lru, b, f), KeyOf(b[e]));
      p < |lru| && RowOf(Without(lru, e) + [e], b, f[e := v]) == Cut(RowOf(lru, b, f), p) + [(KeyOf(b[e]), v)]
  {
    hide RowOf, Without, Distinct, UniqueLive, PlaceOf;
    var p :| 0 <= p < |lru| && lru[p] == e;
    assert forall i :: 0 <= i < |lru| ==> lru[i] in lru;
    PlaceIs(lru, b, f, used, p);
    RowMoved(lru, b, f, b, f[e := v], p);
  }

  lemma RowFrame(lru: seq<nat>, b: seq<Base>, f: seq<bool>, b': seq<Base>)
    requires |b| == |f| == |b'| && forall x :: 0 <= x < |b| ==> KeyOf(b'[x]) == KeyOf(b[x])
    ensures RowOf(lru, b', f) == RowOf(lru, b, f)
  {
  }

  lemma RowGivenUp(lru: seq<nat>, b: seq<Base>, f: seq<bool>, drives: set<nat>)
    requires |b| == |f|
    ensures RowOf(lru, GivenUp(b, f, drives), StillDirty(b, f, drives)) == FlushedRow(RowOf(lru, b, f), drives)
  {
  }

  // An entry is where its sector is.
  lemma PlaceIs(lru: seq<nat>, b: seq<Base>, f: seq<bool>, used: nat, p: nat)
    requires |b| == |f| && used <= |b| && UniqueLive(b, used) && Distinct(lru) && p < |lru|
    requires (forall i :: 0 <= i < |lru| ==> lru[i] < used) && Live(b[lru[p]])
    ensures PlaceOf(RowOf(lru, b, f), KeyOf(b[lru[p]])) == p
  {
    var k, row := KeyOf(b[lru[p]]), RowOf(lru, b, f);
    forall j | 0 <= j < p ensures row[j].0 != k {
      if Live(b[lru[j]]) {
        Different(b, used, lru[j], lru[p]);
      }
    }
    assert row[p].0 == k;
  }

  lemma NoPlace(lru: seq<nat>, b: seq<Base>, f: seq<bool>, used: nat, k: Key)
    requires |b| == |f| && used <= |b| && k.0 != NO_DRIVE && !HasCopy(b, used, k)
    requires forall i :: 0 <= i < |lru| ==> lru[i] < used
    ensures PlaceOf(RowOf(lru, b, f), k) == |lru|
  {
    forall j | 0 <= j < |lru| ensures RowOf(lru, b, f)[j].0 != k {
      assert !Holds(b, lru[j], k.0, k.1);
    }
  }

  lemma FirstFreeIs(lru: seq<nat>, b: seq<Base>, f: seq<bool>, drives: set<nat>, i: nat)
    requires |b| == |f| && i < |lru| && lru[i] < |b| && forall j :: 0 <= j < i ==> lru[j] < |b|
    requires !StillDirty(b, f, drives)[lru[i]]
    requires forall j :: 0 <= j < i ==> StillDirty(b, f, drives)[lru[j]]
    ensures FirstFree(RowOf(lru, b, f), drives) == i
  {
    var row := RowOf(lru, b, f);
    assert forall j :: 0 <= j <= i ==> row[j] == (KeyOf(b[lru[j]]), f[lru[j]]);
  }

  lemma FirstFreeFlushed(row: Row, drives: set<nat>)
    ensures FirstFree(FlushedRow(row, drives), {}) == FirstFree(row, drives)
  {
    var flushed := FlushedRow(row, drives);
    var p, q := FirstFree(flushed, {}), FirstFree(row, drives);
    assert p < |row| ==> !flushed[p].1;
    assert q < |row| ==> !flushed[q].1;
    assert forall j :: 0 <= j < q ==> flushed[j].1;
  }

  lemma {:induction false} OrderOfRow(lru: seq<nat>, b: seq<Base>, f: seq<bool>)
    requires |b| == |f|
    ensures OrderOf(RowOf(lru, b, f)) == DirtyOrder(lru, b, f)
  {
    if lru != [] {
      OrderOfRow(lru[..|lru| - 1], b, f);
      assert RowOf(lru, b, f)[..|lru| - 1] == RowOf(lru[..|lru| - 1], b, f);
    }
  }

  // ---------------------------------------------------------------- lazy writes

  // What a lazy write takes for granted and is not so: the copy of sector `x` equals what
  // is to be written, while the sector contains something else.
  ghost predicate Mistaken(c: imap<Key, Sector>, from: seq<Sector>, d: nat, s: nat, buf: seq<Sector>, x: nat) {
    s <= x < s + |buf| && x < |from| && (d, x) in c && c[(d, x)] == buf[x - s] && from[x] != buf[x - s]
  }

  // When it comes to sector `x`, the copy of `x` is still there.
  ghost predicate StillThere(row: Row, size: nat, threshold: nat, c: imap<Key, Sector>, d: nat, s: nat,
                             buf: seq<Sector>, x: nat) {
    s <= x <= s + |buf| &&
    var r := LazyRow(row, size, threshold, c, d, s, buf, x - s); PlaceOf(r, (d, x)) < |r|
  }

  // A lazy write after `i` sectors has skipped exactly the ones whose copy it found and was
  // mistaken about. `row0` and `c0` are from before it.
  ghost predicate Skipping(row0: Row, size: nat, threshold: nat, c0: imap<Key, Sector>, from: seq<Sector>, d: nat,
                           s: nat, buf: seq<Sector>, i: nat, skipped: iset<nat>, c: imap<Key, Sector>, row: Row) {
    && i <= |buf| && row == LazyRow(row0, size, threshold, c0, d, s, buf, i)
    && (forall x: nat :: x in skipped <==>
          x < s + i && Mistaken(c0, from, d, s, buf, x) && StillThere(row0, size, threshold, c0, d, s, buf, x))
    && (forall x: nat :: x >= s + i && (d, x) in c ==> (d, x) in c0 && c[(d, x)] == c0[(d, x)])
  }

  lemma SkippingStart(row: Row, size: nat, threshold: nat, c: imap<Key, Sector>, from: seq<Sector>, d: nat, s: nat,
                      buf: seq<Sector>)
    ensures Skipping(row, size, threshold, c, from, d, s, buf, 0, iset{}, c, row)
  {
  }

  lemma SkippingStep(row0: Row, size: nat, threshold: nat, c0: imap<Key, Sector>, from: seq<Sector>, d: nat, s: nat,
                     buf: seq<Sector>, i: nat, skipped: iset<nat>, c: imap<Key, Sector>, row: Row,
                     c': imap<Key, Sector>, row': Row, skip: bool)
    requires Skipping(row0, size, threshold, c0, from, d, s, buf, i, skipped, c, row)
    requires i < |buf| && s + |buf| <= |from|
    requires (d, s + i) in c <==> PlaceOf(row, (d, s + i)) < |row|
    requires skip <==> (d, s + i) in c && c[(d, s + i)] == buf[i] && from[s + i] != buf[i]
    requires KeptBut(c, c', (d, s + i))
    requires row' == WrittenRow(row, size, threshold, (d, s + i), (d, s + i) in c && c[(d, s + i)] == buf[i])
    ensures Skipping(row0, size, threshold, c0, from, d, s, buf, i + 1,
      if skip then skipped + iset{s + i} else skipped, c', row')
  {
    hide WrittenRow, PlaceOf, StoredRow;
    var k, skipped' := (d, s + i), if skip then skipped + iset{s + i} else skipped;
    SameRow(row, size, threshold, k, k in c && c[k] == buf[i], k in c0 && c0[k] == buf[i]);
    LazyNext(row0, size, threshold, c0, d, s, buf, i);
    forall x: nat ensures x in skipped' <==>
      x < s + i + 1 && Mistaken(c0, from, d, s, buf, x) && StillThere(row0, size, threshold, c0, d, s, buf, x)
    {
      if x == s + i {
        assert x - s == i;
      }
    }
    forall x: nat | x >= s + i + 1 && (d, x) in c' ensures (d, x) in c0 && c'[(d, x)] == c0[(d, x)] {
      assert (d, x) != k && (d, x) in c;
    }
  }

  // Whether the copy is identical matters only where there is one.
  lemma SameRow(row: Row, size: nat, threshold: nat, k: Key, same: bool, same': bool)
    requires PlaceOf(row, k) < |row| ==> same == same'
    ensures WrittenRow(row, size, threshold, k, same) == WrittenRow(row, size, threshold, k, same')
  {
  }

  lemma LazyNext(row: Row, size: nat, threshold: nat, c: imap<Key, Sector>, d: nat, s: nat, buf: seq<Sector>, i: nat)
    requires i < |buf|
    ensures LazyRow(row, size, threshold, c, d, s, buf, i + 1) ==
      WrittenRow(LazyRow(row, size, threshold, c, d, s, buf, i), size, threshold, (d, s + i),
                 (d, s + i) in c && c[(d, s + i)] == buf[i])
  {
  }
}

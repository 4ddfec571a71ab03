// Every run of requests: the used blocks are exactly the outstanding allocations.
module HeapRuns {
  import opened FatCodec
  import opened HeapLayout
  import opened Heap

  // What the heap holds, which blocks were handed out and not returned, and the bytes
  // of all segments.
  datatype World = World(rows: Rows, owned: set<(nat, Block)>, bytes: seq<seq<Byte>>)

  // `Store` is not the heap's doing: whoever owns a block writes into it.
  datatype Event =
    | Request(size: nat)
    | Return(segment: nat, block: Block)
    | Store(segment: nat, block: Block, from: nat, data: seq<Byte>)

  ghost predicate RowOk(row: seq<Block>) { row == [] || Sound(row) }

  ghost function Handed(rows: Rows): set<(nat, Block)> {
    set s: nat, b: Block | s < |rows| && b in Used(rows[s]) :: (s, b)
  }

  ghost predicate Inv(w: World) {
    && |w.rows| == MAX_SELECTORS && (forall s :: 0 <= s < |w.rows| ==> RowOk(w.rows[s]))
    && w.owned == Handed(w.rows)
    && |w.bytes| == MAX_SELECTORS && (forall s :: 0 <= s < |w.bytes| ==> |w.bytes[s]| == HEAP_SIZE)
  }

  // Block `b` of segment `s` has the same contents in both.
  ghost predicate SameContents(x: seq<seq<Byte>>, y: seq<seq<Byte>>, s: nat, b: Block) {
    && s < |x| && s < |y| && b.End() <= |x[s]| && b.End() <= |y[s]|
    && x[s][b.Address()..b.End()] == y[s][b.Address()..b.End()]
  }

  // Whatever stays handed out keeps its contents.
  ghost predicate Kept(w: World, w': World) {
    && |w'.bytes| == |w.bytes| && (forall s :: 0 <= s < |w.bytes| ==> |w'.bytes[s]| == |w.bytes[s]|)
    && forall s: nat, b: Block :: (s, b) in w.owned && (s, b) in w'.owned ==> SameContents(w.bytes, w'.bytes, s, b)
  }

  // The block a successful request hands out.
  function Given(rows: Rows, s: nat, n: nat, i: nat): Block
    requires s < |rows| && i < |RowOr(rows, s)| && n <= RowOr(rows, s)[i].size
  {
    Split(RowOr(rows, s)[i], n)[0]
  }

  ghost predicate Served(w: World, w': World, n: nat, s: nat, offset: nat, i: nat) {
    && Malloced(w.rows, w'.rows, n, s, offset, i)
    && w'.owned == w.owned + {(s, Given(w.rows, s, n, i))}
  }

  ghost predicate Step(w: World, e: Event, w': World) {
    match e
    case Request(size) =>
      var n := Rounded(size);
      && Kept(w, w')
      && (|| (exists s: nat, offset: nat, i: nat :: Served(w, w', n, s, offset, i))
          || (w'.owned == w.owned && if n == 0 then w'.rows == w.rows else Refused(w.rows, w'.rows, n)))
    case Return(s, b) =>
      && Kept(w, w') && (s, b) in w.owned && w'.owned == w.owned - {(s, b)}
      && exists i: nat :: FreedBlock(w.rows, w'.rows, s, b.Address(), i)
    case Store(s, b, from, data) =>
      && (s, b) in w.owned && b.Address() <= from && from + |data| <= b.End()
      && w'.rows == w.rows && w'.owned == w.owned
      && s < |w.bytes| && b.End() <= |w.bytes[s]|
      && w'.bytes == w.bytes[s := w.bytes[s][..from] + data + w.bytes[s][from + |data|..]]
  }

  lemma FreshUsed()
    ensures Sound(HeapLayout.Fresh()) && Used(HeapLayout.Fresh()) == {} && Used([]) == {}
  {
    FreshSound();
  }

  lemma RowOrOk(rows: Rows, s: nat)
    requires s < |rows| && RowOk(rows[s])
    ensures Sound(RowOr(rows, s)) && Used(RowOr(rows, s)) == Used(rows[s])
  {
    FreshUsed();
  }

  // One row changed: what is handed out changes there only.
  lemma HandedRow(rows: Rows, s: nat, row: seq<Block>)
    requires s < |rows|
    ensures forall t: nat, b: Block ::
      (t, b) in Handed(rows[s := row]) <==> if t == s then b in Used(row) else (t, b) in Handed(rows)
    ensures forall b: Block :: (s, b) in Handed(rows) <==> b in Used(rows[s])
  {
    hide Used;
  }

  lemma RequestKeepsInv(w: World, w': World, n: nat, s: nat, offset: nat, i: nat)
    requires Kept(w, w') && Inv(w) && Served(w, w', n, s, offset, i) && n % 2 == 0
    ensures Inv(w')
    ensures var b := Given(w.rows, s, n, i);
      (s, b) !in w.owned && b.Address() == offset && n <= b.size <= n + 4
  {
    hide Sound, Used, NoFit;
    var bs := RowOr(w.rows, s);
    RowOrOk(w.rows, s);
    TakenSound(bs, i, n);
    TakenUsed(bs, i, n);
    var b := Given(w.rows, s, n, i);
    HandedRow(w.rows, s, Taken(bs, i, n));
    assert w'.owned == Handed(w'.rows);
  }

  lemma RefusalKeepsInv(w: World, w': World, n: nat)
    requires Kept(w, w') && Inv(w) && Refused(w.rows, w'.rows, n) && w'.owned == w.owned
    ensures Inv(w')
  {
    hide Sound, Used, NoFit;
    forall s | 0 <= s < |w.rows| ensures RowOk(w'.rows[s]) && Used(w'.rows[s]) == Used(w.rows[s]) {
      RowOrOk(w.rows, s);
      assert w'.rows[s] == RowOr(w.rows, s);
    }
    assert Handed(w'.rows) == Handed(w.rows);
  }

  lemma ReturnKeepsInv(w: World, w': World, s: nat, b: Block, i: nat)
    requires Kept(w, w') && Inv(w) && (s, b) in w.owned && w'.owned == w.owned - {(s, b)}
    requires FreedBlock(w.rows, w'.rows, s, b.Address(), i)
    ensures Inv(w')
  {
    hide Sound, Released;
    var bs := w.rows[s];
    HandedRow(w.rows, s, []);
    assert RowOk(bs);
    var k :| 0 <= k < |bs| && bs[k] == b;
    SameAddress(bs, i, k);
    ReleasedSound(bs, i);
    ReleasedUsed(bs, i);
    FreshUsed();
    hide Used;
    var row := if s > 0 && Released(bs, i) == HeapLayout.Fresh() then [] else Released(bs, i);
    HandedRow(w.rows, s, row);
    assert w'.rows == w.rows[s := row];
    assert Used(row) == Used(bs) - {b};
    assert w'.owned == Handed(w'.rows);
  }

  lemma StepKeepsInv(w: World, e: Event, w': World)
    requires Inv(w) && Step(w, e, w')
    ensures Inv(w')
  {
    hide Inv, Served, Refused, FreedBlock;
    match e
    case Request(size) =>
      var n := Rounded(size);
      if s: nat, offset: nat, i: nat :| Served(w, w', n, s, offset, i) {
        RequestKeepsInv(w, w', n, s, offset, i);
      } else if n != 0 {
        RefusalKeepsInv(w, w', n);
      } else {
        NothingKeepsInv(w, w');
      }
    case Return(s, b) =>
      var i: nat :| FreedBlock(w.rows, w'.rows, s, b.Address(), i);
      ReturnKeepsInv(w, w', s, b, i);
    case Store(_, _, _, _) =>
      NothingKeepsInv(w, w');
  }

  lemma NothingKeepsInv(w: World, w': World)
    requires Inv(w) && w'.rows == w.rows && w'.owned == w.owned
    requires |w'.bytes| == |w.bytes| && forall s :: 0 <= s < |w.bytes| ==> |w'.bytes[s]| == |w.bytes[s]|
    ensures Inv(w')
  {
  }

  ghost predicate Run(ws: seq<World>, es: seq<Event>) {
    |ws| == |es| + 1 && forall i :: 0 <= i < |es| ==> Step(ws[i], es[i], ws[i + 1])
  }

  lemma {:induction false} RunKeepsInv(ws: seq<World>, es: seq<Event>, n: nat)
    requires Run(ws, es) && Inv(ws[0]) && n < |ws|
    ensures Inv(ws[n])
  {
    if n > 0 {
      RunKeepsInv(ws, es, n - 1);
      StepKeepsInv(ws[n - 1], es[n - 1], ws[n]);
    }
  }

  // At every moment of every run, outstanding allocations lie in different segments or
  // in disjoint stretches of one.
  lemma NoOverlap(ws: seq<World>, es: seq<Event>, n: nat, s: nat, b: Block, c: Block)
    requires Run(ws, es) && Inv(ws[0]) && n < |ws| && (s, b) in ws[n].owned && (s, c) in ws[n].owned && b != c
    ensures b.End() <= c.at || c.End() <= b.at
  {
    RunKeepsInv(ws, es, n);
    OwnedApart(ws[n], s, b, c);
  }

  lemma OwnedApart(w: World, s: nat, b: Block, c: Block)
    requires Inv(w) && (s, b) in w.owned && (s, c) in w.owned
    ensures s < |w.bytes| && b.End() <= HEAP_SIZE == |w.bytes[s]|
    ensures b != c ==> b.End() <= c.at || c.End() <= b.at
  {
    var bs := w.rows[s];
    assert RowOk(bs);
    var j :| 0 <= j < |bs| && bs[j] == b;
    var k :| 0 <= k < |bs| && bs[k] == c;
    hide Sound;
    InSegment(bs, j);
    if j < k {
      Disjoint(bs, j, k);
    } else if k < j {
      Disjoint(bs, k, j);
    }
  }

  // In every run a request that is served hands out one block nobody had, of the size asked
  // for, rounded up to an even number, or at most four bytes more.
  lemma ServedSize(ws: seq<World>, es: seq<Event>, m: nat, size: nat)
    requires Run(ws, es) && Inv(ws[0]) && m < |es| && es[m] == Request(size) && 0 < size < 65535
    ensures ws[m + 1].owned == ws[m].owned || exists s: nat, b: Block ::
      && (s, b) !in ws[m].owned && ws[m + 1].owned == ws[m].owned + {(s, b)}
      && size + size % 2 <= b.size <= size + size % 2 + 4
  {
    hide Inv, Served, Refused;
    RunKeepsInv(ws, es, m);
    var w, w', n := ws[m], ws[m + 1], Rounded(size);
    assert Step(w, es[m], w');
    if w'.owned != w.owned {
      var s: nat, offset: nat, i: nat :| Served(w, w', n, s, offset, i);
      RequestKeepsInv(w, w', n, s, offset, i);
      ServedOwned(w, w', n, s, offset, i);
    }
  }

  lemma ServedOwned(w: World, w': World, n: nat, s: nat, offset: nat, i: nat)
    requires Served(w, w', n, s, offset, i)
    ensures s < |w.rows| && i < |RowOr(w.rows, s)| && n <= RowOr(w.rows, s)[i].size
    ensures w'.owned == w.owned + {(s, Given(w.rows, s, n, i))}
  {
  }

  // No step but its owner's writes changes the contents of a block that stays handed out.
  lemma StepKeepsContents(w: World, e: Event, w': World, s: nat, b: Block)
    requires Inv(w) && Step(w, e, w') && (s, b) in w.owned && (s, b) in w'.owned
    requires e.Store? ==> (e.segment, e.block) != (s, b)
    ensures SameContents(w.bytes, w'.bytes, s, b)
  {
    if e.Store? {
      OwnedApart(w, s, b, b);
      if e.segment == s {
        OwnedApart(w, s, b, e.block);
        StoredElsewhere(w.bytes[s], e.from, e.data, b.Address(), b.End());
      }
    }
  }

  lemma StoredElsewhere(m: seq<Byte>, from: nat, data: seq<Byte>, lo: nat, hi: nat)
    requires from + |data| <= |m| && lo <= hi <= |m| && (hi <= from || from + |data| <= lo)
    ensures (m[..from] + data + m[from + |data|..])[lo..hi] == m[lo..hi]
  {
  }

  // Over every run an outstanding allocation keeps its contents until it is returned or
  // its owner writes into it.
  lemma {:induction false} RunKeepsContents(ws: seq<World>, es: seq<Event>, m: nat, n: nat, s: nat, b: Block)
    requires Run(ws, es) && Inv(ws[0]) && m <= n < |ws|
    requires forall j :: m <= j <= n ==> (s, b) in ws[j].owned
    requires forall j :: m <= j < n ==> !(es[j].Store? && es[j].segment == s && es[j].block == b)
    ensures SameContents(ws[m].bytes, ws[n].bytes, s, b)
  {
    hide Inv, Step;
    if m == n {
      RunKeepsInv(ws, es, n);
      OwnedApart(ws[n], s, b, b);
    } else {
      RunKeepsContents(ws, es, m, n - 1, s, b);
      RunKeepsInv(ws, es, n - 1);
      assert (s, b) in ws[n - 1].owned && Step(ws[n - 1], es[n - 1], ws[n]);
      StepKeepsContents(ws[n - 1], es[n - 1], ws[n], s, b);
    }
  }

  // A request is refused although a segment could be added exactly when its size is
  // between 65517 and 65534; it then adds every missing segment and uses none.
  lemma RefusedExactly(w: World, size: nat, w': World, missing: nat)
    requires Inv(w) && size < 0x1_0000 && Step(w, Request(size), w')
    requires missing < |w.rows| && w.rows[missing] == []
    ensures Rounded(size) != 0 && Refused(w.rows, w'.rows, Rounded(size)) <==> 65517 <= size <= 65534
    ensures 65517 <= size <= 65534 ==> w'.owned == w.owned && forall s :: 0 <= s < |w'.rows| ==> w'.rows[s] != []
  {
    hide Kept, Taken;
    TooLarge(size, []);
    if 65517 <= size <= 65534 {
      forall s | 0 <= s < |w.rows| ensures NoFit(RowOr(w.rows, s), Rounded(size)) {
        RowOrOk(w.rows, s);
        TooLarge(size, RowOr(w.rows, s));
      }
      forall s | 0 <= s < |w'.rows| ensures w'.rows[s] != [] {
        assert w'.rows[s] == RowOr(w.rows, s);
      }
    } else if Rounded(size) != 0 {
      assert !NoFit(RowOr(w.rows, missing), Rounded(size));
    }
  }

  // malloc and then free of what it returned: every row is as it was, but for a first
  // segment that had to be created.
  lemma MallocFree(rows: Rows, rows1: Rows, rows2: Rows, n: nat, s: nat, offset: nat, i: nat, k: nat)
    requires |rows| == MAX_SELECTORS && (forall t :: 0 <= t < |rows| ==> RowOk(rows[t])) && n % 2 == 0
    requires Malloced(rows, rows1, n, s, offset, i) && FreedBlock(rows1, rows2, s, offset, k)
    ensures k == i
    ensures rows2 == if rows[s] == [] && s == 0 then rows[0 := HeapLayout.Fresh()]
                     else if s > 0 && rows[s] == HeapLayout.Fresh() then rows[s := []] else rows
  {
    hide Sound, NoFit, Taken, Released;
    var bs := RowOr(rows, s);
    RowOrOk(rows, s);
    TakenSound(bs, i, n);
    TakeRelease(bs, i, n);
    TakenAt(bs, i, n);
    SameAddress(Taken(bs, i, n), i, k);
    assert rows1[s := bs] == rows[s := bs];
    assert rows1[s := []] == rows[s := []];
  }

  lemma TakenAt(bs: seq<Block>, i: nat, n: nat)
    requires i < |bs| && n <= bs[i].size
    ensures i < |Taken(bs, i, n)| && Taken(bs, i, n)[i].at == bs[i].at
  {
  }

  // The driver's calls take exactly such steps.
  method PerformRequest(heap: Heap, size: nat, ghost owned: set<(nat, Block)>)
    returns (p: Ptr, ghost owned': set<(nat, Block)>)
    requires heap.Valid() && size < 0x1_0000 && owned == Handed(heap.rows)
    modifies heap`rows, heap.mem, heap.present
    ensures heap.Valid()
    ensures Step(World(old(heap.rows), owned, old(heap.Bytes())), Request(size), World(heap.rows, owned', heap.Bytes()))
  {
    hide Heap.Valid, NoFit, Taken, Refused, Handed, SameOutside, Kept;
    heap.ShapeOf();
    ghost var w := World(heap.rows, owned, heap.Bytes());
    OwnedBlocks(heap, w);
    ghost var i;
    p, i := heap.Malloc(size);
    heap.ShapeOf();
    owned' := if p.At? then owned + {(p.segment, Given(w.rows, p.segment, Rounded(size), i))} else owned;
    ghost var w' := World(heap.rows, owned', heap.Bytes());
    KeptByRequest(w, w', p, Rounded(size), i);
    if p.At? {
      assert Served(w, w', Rounded(size), p.segment, p.offset, i);
    }
  }

  // Blocks are handed out in segments that are there, whose rows are sound.
  lemma OwnedBlocks(heap: Heap, w: World)
    requires heap.Valid() && w.rows == heap.rows && w.owned == Handed(heap.rows) && w.bytes == heap.Bytes()
    ensures Inv(w) && forall t: nat :: t < MAX_SELECTORS ==> (heap.present[t] <==> w.rows[t] != [])
  {
    hide Sound, Mirrors, Handed;
    forall t: nat | t < MAX_SELECTORS ensures RowOk(w.rows[t]) && (heap.present[t] <==> w.rows[t] != []) {
      assert heap.SegmentOk(t);
      if heap.present[t] {
        FirstAt(w.rows[t]);
      }
    }
  }

  lemma KeptByRequest(w: World, w': World, p: Ptr, n: nat, i: nat)
    requires Inv(w) && |w'.bytes| == |w.bytes| && (forall s :: 0 <= s < |w.bytes| ==> |w'.bytes[s]| == |w.bytes[s]|)
    requires forall t: nat :: t < MAX_SELECTORS && w.rows[t] != [] && !(p.At? && t == p.segment) ==>
      w'.bytes[t] == w.bytes[t]
    requires p.At? ==> Malloced(w.rows, w'.rows, n, p.segment, p.offset, i)
    requires p.At? && w.rows[p.segment] != [] ==>
      && i < |w.rows[p.segment]|
      && var b := w.rows[p.segment][i]; SameOutside(w.bytes[p.segment], w'.bytes[p.segment], b.at, b.End())
    ensures Kept(w, w')
  {
    hide SameOutside, Sound;
    forall s: nat, b: Block | (s, b) in w.owned ensures SameContents(w.bytes, w'.bytes, s, b) {
      OwnedApart(w, s, b, b);
      var k :| 0 <= k < |w.rows[s]| && w.rows[s][k] == b;
      assert RowOk(w.rows[s]);
      if p.At? && s == p.segment {
        RequestKeepsBytes(w.bytes[s], w'.bytes[s], w.rows[s], i, k);
      }
    }
  }

  method PerformReturn(heap: Heap, segment: nat, offset: nat, ghost block: Block, ghost owned: set<(nat, Block)>)
    returns (ghost owned': set<(nat, Block)>)
    requires heap.Valid() && owned == Handed(heap.rows) && (segment, block) in owned && offset == block.Address()
    modifies heap`rows, heap.mem, heap.present
    ensures heap.Valid()
    ensures Step(World(old(heap.rows), owned, old(heap.Bytes())), Return(segment, block), World(heap.rows, owned',
      heap.Bytes()))
  {
    hide Heap.Valid, FreedBlock, SameOutside, Kept, Lo, Inv;
    heap.ShapeOf();
    ghost var w := World(heap.rows, owned, heap.Bytes());
    OwnedBlocks(heap, w);
    assert exists k :: 0 <= k < |w.rows[segment]| && w.rows[segment][k] == block;
    ghost var i;
    var found;
    found, i := heap.Free(At(segment, offset));
    heap.ShapeOf();
    owned' := owned - {(segment, block)};
    ghost var w' := World(heap.rows, owned', heap.Bytes());
    KeptByReturn(w, w', segment, offset, i);
    assert FreedBlock(w.rows, w'.rows, segment, offset, i);
  }

  lemma KeptByReturn(w: World, w': World, segment: nat, offset: nat, i: nat)
    requires Inv(w) && |w'.bytes| == |w.bytes| && (forall s :: 0 <= s < |w.bytes| ==> |w'.bytes[s]| == |w.bytes[s]|)
    requires FreedBlock(w.rows, w'.rows, segment, offset, i)
    requires forall t: nat :: t < MAX_SELECTORS && t != segment ==> w'.bytes[t] == w.bytes[t]
    requires var b := w.rows[segment][Lo(w.rows[segment], i)]; SameOutside(w.bytes[segment], w'.bytes[segment], b.at,
      b.Address())
    ensures Kept(w, w')
  {
    hide SameOutside, Sound;
    forall s: nat, b: Block | (s, b) in w.owned ensures SameContents(w.bytes, w'.bytes, s, b) {
      OwnedApart(w, s, b, b);
      var k :| 0 <= k < |w.rows[s]| && w.rows[s][k] == b;
      assert RowOk(w.rows[s]);
      if s == segment {
        ReleaseKeepsBytes(w.bytes[s], w'.bytes[s], w.rows[s], Lo(w.rows[s], i), k);
      }
    }
  }
}

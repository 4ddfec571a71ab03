// Open files: FS_READ and FS_WRITE move data between a caller and the clusters
// of a chain; NewSize makes the chain longer or shorter. A file is a byte
// sequence to its callers.
module FileLayer {
  import opened Common
  import opened Division
  import opened FatCodec
  import opened FatChains
  import opened FatTable
  import opened FileBytes
  import opened Volume
  import FatRuns

  datatype Origin = RelBegin | RelCur | RelEnd | OtherOrigin

  // OPENINFO with the file position of its handle. The cached cursor is either the
  // end mark (unknown) or the cluster and block that hold the position.
  datatype OpenInfo = OpenInfo(cluster: nat, block: nat, pos: nat)

  function ClusterIndex(pos: nat, bs: nat, bpc: nat): nat
    requires bs > 0 && bpc > 0
  {
    Quot(Quot(pos, bs), bpc)
  }

  function BlockInCluster(pos: nat, bs: nat, bpc: nat): nat
    requires bs > 0 && bpc > 0
  {
    Rem(Quot(pos, bs), bpc)
  }

  // The cursor points at the position, or past the chain at the end mark.
  ghost predicate At(chain: seq<nat>, end: nat, bs: nat, bpc: nat, o: OpenInfo)
    requires bs > 0 && bpc > 0
  {
    var i := ClusterIndex(o.pos, bs, bpc);
    if i < |chain| then o.cluster == chain[i] && o.block == BlockInCluster(o.pos, bs, bpc) else o.cluster == end
  }

  ghost predicate HandleOk(chain: seq<nat>, end: nat, bs: nat, bpc: nat, o: OpenInfo)
    requires bs > 0 && bpc > 0
  {
    o.block < bpc && (o.cluster == end || (ClusterIndex(o.pos, bs, bpc) < |chain| && At(chain, end, bs, bpc, o)))
  }

  // Clusters needed for a file of `size` bytes.
  function Needed(size: nat, clusterSize: nat): nat
    requires clusterSize > 0
  {
    Quot(size, clusterSize) + (if Rem(size, clusterSize) != 0 then 1 else 0)
  }

  // A chain made `n` clusters long: cut off clusters are free again, added ones were
  // free before, and the free count follows.
  ghost predicate Resized(s: FatState, s': FatState, cs: seq<nat>, cs': seq<nat>, n: nat) {
    && |cs'| == n
    && if n <= |cs| then (
         && cs' == cs[..n] && FreeSet(s'.f) == FreeSet(s.f) + Cells(cs[n..])
         && s'.free == s.free + |cs| - n && (n == |cs| ==> s' == s))
       else (
         && cs' == cs + cs'[|cs|..] && Cells(cs'[|cs|..]) <= FreeSet(s.f)
         && FreeSet(s'.f) == FreeSet(s.f) - Cells(cs'[|cs|..]) && s'.free == s.free + |cs| - n)
  }

  lemma Unresized(t: FatType, s: FatState, cs: seq<nat>)
    ensures Resized(s, s, cs, cs, |cs|)
    ensures FatRuns.OthersKept(t, s.f, s.f, cs, cs)
  {
    assert Cells(cs[|cs|..]) == {};
    assert cs[..|cs|] == cs;
  }

  // A chain that was made longer or shorter: what it gains the free pool loses and the
  // other way round, and every cluster that was cut off is free.
  lemma ResizedIs(s: FatState, s': FatState, cs: seq<nat>, cs': seq<nat>, n: nat)
    requires Resized(s, s', cs, cs', n)
    ensures s'.free + |cs'| == s.free + |cs|
    ensures forall i :: |cs'| <= i < |cs| ==> cs[i] < |s'.f| && s'.f[cs[i]] == 0
  {
    forall i | |cs'| <= i < |cs| ensures IsFree(s'.f, cs[i]) {
      assert cs[n..][i - n] == cs[i] && cs[i] in Cells(cs[n..]);
    }
  }

  lemma ResizedPrefix(s: FatState, s': FatState, cs: seq<nat>, cs': seq<nat>, n: nat)
    requires Resized(s, s', cs, cs', n)
    ensures |cs'| == n && (cs' <= cs || cs <= cs')
  {
  }

  lemma GrowsPrefix(s: FatState, s': FatState, cs: seq<nat>, cs': seq<nat>, n: nat)
    requires Resized(s, s', cs, cs', n) && |cs| <= n
    ensures |cs'| == n && cs <= cs'
  {
  }

  lemma Emptied(t: FatType, s: FatState, cs: seq<nat>)
    requires WellFormed(t, s.f) && IsChain(t, s.f, cs) && s.free == |FreeSet(s.f)|
    ensures var s' := FatRuns.Deleted(t, s, cs[0]);
      && Resized(s, s', cs, [], 0) && FatRuns.OthersKept(t, s.f, s'.f, cs, [])
      && WellFormed(t, s'.f) && s'.free == |FreeSet(s'.f)|
  {
    hide FreeSet, Cleared, WellFormed, DeleteFrom, FatRuns.Deleted;
    FatRuns.DeletedChain(t, s, cs);
    ClearedFreeSet(t, s.f, cs) by { FatRuns.FewEntries(t, s.f); }
    assert cs[0..] == cs && cs[..0] == [];
    var g := Cleared(s.f, cs);
    forall other | IsChain(t, s.f, other) && FatRuns.Disjoint(cs, other) ensures FatRuns.KeptApart(t, g, other, []) {
      ClearedElsewhere(t, s.f, cs, other);
    }
  }

  lemma CutOff(t: FatType, s: FatState, cs: seq<nat>, keep: nat)
    requires WellFormed(t, s.f) && IsChain(t, s.f, cs) && s.free == |FreeSet(s.f)| && 0 < keep < |cs|
    ensures cs[keep - 1] < |s.f| && cs[keep] < |s.f|
    ensures var s1 := Volume.Stored(t, s, cs[keep - 1], Eof(t));
      WellFormed(t, s1.f) && |s1.f| == |s.f| && var s2 := FatRuns.Deleted(t, s1, cs[keep]);
      && Resized(s, s2, cs, cs[..keep], keep) && FatRuns.OthersKept(t, s.f, s2.f, cs, cs[..keep])
      && WellFormed(t, s2.f) && s2.free == |FreeSet(s2.f)| && IsChain(t, s2.f, cs[..keep])
  {
    hide FreeSet, Cleared, WellFormed, DeleteFrom, FatRuns.Deleted, IsChain, Volume.Stored, FatRuns.KeptApart;
    hide FatRuns.Disjoint;
    FatRuns.CutChain(t, s, cs, keep);
    FatRuns.ChainCells(t, s.f, cs, keep - 1);
    FatRuns.ChainCells(t, s.f, cs, keep);
    var g, rest := s.f[cs[keep - 1] := Eof(t)], cs[keep..];
    FatRuns.FewEntries(t, g);
    FatRuns.DeletedChain(t, FatState(g, s.free, s.next), rest);
    ClearedFreeSet(t, g, rest);
    ClearedElsewhere(t, g, rest, cs[..keep]);
    forall other | IsChain(t, s.f, other) && FatRuns.Disjoint(cs, other)
      ensures FatRuns.KeptApart(t, Cleared(g, rest), other, cs[..keep])
    {
      Sides(cs, other);
      FatRuns.CutElsewhere(t, s.f, cs, keep, other);
    }
  }

  lemma Sides(a: seq<nat>, b: seq<nat>)
    requires FatRuns.Disjoint(a, b)
    ensures FatRuns.Disjoint(b, a)
  {
  }

  lemma Grown(t: FatType, s: FatState, s': FatState, prev: nat, n: nat, runs: seq<Run>, first: nat, last: nat,
              cs: seq<nat>)
    requires WellFormed(t, s.f) && s.free == |FreeSet(s.f)| && n > 0
    requires Volume.Allocated(t, s, s', prev, n, runs, first, last)
    requires if cs == [] then prev == Eof(t) else IsChain(t, s.f, cs) && prev == cs[|cs| - 1]
    ensures var cs' := cs + Flat(runs);
      && |cs'| == |cs| + n && first == cs'[|cs|] && last == cs'[|cs'| - 1]
      && Resized(s, s', cs, cs', |cs| + n) && FatRuns.OthersKept(t, s.f, s'.f, cs, cs')
      && WellFormed(t, s'.f) && s'.free == |FreeSet(s'.f)| && IsChain(t, s'.f, cs')
  {
    hide Appended, IsChain, FreeSet, WellFormed, FatRuns.Disjoint, FatRuns.KeptApart, Rounds, Flat;
    var more := Flat(runs);
    FatRuns.FewEntries(t, s.f);
    AppendedFreeSet(t, s.f, s'.f, prev, more);
    AppendedCells(t, s.f, s'.f, prev, more);
    AppendedChain(t, s.f, s'.f, prev, more, cs);
    FatRuns.AppendedWellFormed(t, s.f, s'.f, prev, more, cs);
    forall other | IsChain(t, s.f, other) && FatRuns.Disjoint(cs, other)
      ensures FatRuns.KeptApart(t, s'.f, other, cs + more)
    {
      FatRuns.OtherFile(t, s.f, s'.f, prev, more, cs, other);
    }
  }

  lemma AppendedCells(t: FatType, f: Fat, g: Fat, prev: nat, cs: seq<nat>)
    requires Appended(t, f, g, prev, cs)
    ensures Cells(cs) <= FreeSet(f)
  {
    forall c | c in cs ensures c in FreeSet(f) {
      var i :| 0 <= i < |cs| && cs[i] == c;
      assert IsFree(f, cs[i]);
    }
  }

  class File {
    const vol: Volume
    const data: array2<Block>     // data[c, b]: block b of cluster c
    const bs: nat                 // ulBlockSize
    const bpc: nat                // blocks per cluster
    const clusterSize: nat        // ulClusterSize
    const limit: nat              // LONG_MAX, or ULONG_MAX with large files
    var start: nat                // pSHInfo->ulStartCluster
    var last: nat                 // pSHInfo->ulLastCluster
    var size: nat                 // sfi_size
    var handles: seq<OpenInfo>    // the OPENINFO list of the file
    ghost var chain: seq<nat>

    ghost predicate Store()
      reads data
    {
      && bs > 0 && bpc > 0 && clusterSize == bs * bpc && clusterSize > 0
      && data.Length0 == vol.Top() && data.Length1 == bpc && data != vol.fat.disk
      && forall c, b :: 0 <= c < data.Length0 && 0 <= b < bpc ==> |data[c, b]| == bs
    }

    ghost predicate ChainOk()
      reads `start, `last, `chain, vol.fat
    {
      && (chain == [] ==> start == 0 && last == vol.End())
      && (chain != [] ==>
            IsChain(vol.fat.kind, vol.fat.entries, chain) && start == chain[0] && last == chain[|chain| - 1])
    }

    // Every byte of the file lies in a block of its chain.
    ghost predicate Fitting()
      reads `size, `chain, data
    {
      && Store() && (forall i :: 0 <= i < |chain| ==> chain[i] < data.Length0)
      && Fits(Blocks(chain), size, bs)
      && forall p: nat :: p < size ==> ClusterIndex(p, bs, bpc) < |chain|
    }

    ghost predicate Valid()
      reads this, data, vol, vol.fat, vol.fat.disk, vol.fat.window
    {
      && vol.Valid() && vol.free == |FreeSet(vol.fat.entries)|
      && Store() && ChainOk() && |chain| == Needed(size, clusterSize) && Fitting()
      && HandlesOk()
    }

    ghost predicate HandlesOk()
      reads `handles, `chain
    {
      bs > 0 && bpc > 0 && forall h :: 0 <= h < |handles| ==> HandleOk(chain, vol.End(), bs, bpc, handles[h])
    }

    // The blocks of a chain in order.
    ghost function Blocks(cs: seq<nat>): (r: seq<Block>)
      requires Store() && forall i :: 0 <= i < |cs| ==> cs[i] < data.Length0
      reads data
      ensures Full(r, bs)
      ensures forall k: nat :: k < |r| <==> Quot(k, bpc) < |cs|
      ensures forall k :: 0 <= k < |r| ==> r[k] == data[cs[Quot(k, bpc)], Rem(k, bpc)]
    {
      BlockCount(|cs|);
      seq(|cs| * bpc, k requires 0 <= k && Quot(k, bpc) < |cs| && Store() && (forall i :: 0 <= i < |cs| ==>
          cs[i] < data.Length0) reads data
                      => data[cs[Quot(k, bpc)], Rem(k, bpc)])
    }

    lemma BlockCount(n: nat)
      requires bpc > 0
      ensures n * bpc >= 0
      ensures forall k: nat :: k < n * bpc <==> Quot(k, bpc) < n
    {
      NonNegative(n, bpc);
      forall k: nat ensures k < n * bpc <==> Quot(k, bpc) < n {
        QuotBelow(k, n, bpc);
      }
    }

    // The file's contents: what FS_READ and FS_WRITE are specified on.
    ghost function Content(): (r: seq<Byte>)
      requires Fitting()
      reads `size, `chain, data
      ensures |r| == size
    {
      Joined(Blocks(chain), size, bs)
    }

    // Where the bytes of a file are: in the clusters of its chain one after another, in the
    // blocks of a cluster one after another.
    lemma Located(p: nat, k: nat, i: nat, b: nat, o: nat)
      requires Valid() && p < size && p == k * bs + o && k == i * bpc + b && b < bpc && o < bs
      ensures i < |chain| && chain[i] < data.Length0 && Content()[p] == data[chain[i], b][o]
    {
      hide Quot, Rem, HandlesOk, ChainOk, ClusterIndex, BlockInCluster;
      Places(p, k, i, b, o, bs, bpc);
      InContent(p);
    }

    static lemma Places(p: nat, k: nat, i: nat, b: nat, o: nat, bs: nat, bpc: nat)
      requires p == k * bs + o && k == i * bpc + b && b < bpc && o < bs
      ensures ClusterIndex(p, bs, bpc) == i && BlockInCluster(p, bs, bpc) == b && Rem(p, bs) == o
    {
      hide Quot, Rem;
      Unique(k, bs, o);
      Unique(i, bpc, b);
    }

    // The chain is exactly as long as the size needs.
    lemma ChainLength()
      requires Valid()
      ensures size <= |chain| * clusterSize < size + clusterSize
    {
      QuotRem(size, clusterSize);
      Distribute(Quot(size, clusterSize), clusterSize);
    }

    lemma InContent(p: nat)
      requires Fitting() && p < size
      ensures ClusterIndex(p, bs, bpc) < |chain| && chain[ClusterIndex(p, bs, bpc)] < data.Length0
      ensures Content()[p] == data[chain[ClusterIndex(p, bs, bpc)], BlockInCluster(p, bs, bpc)][Rem(p, bs)]
    {
    }

    lemma ChainFits()
      requires Store() && (forall i :: 0 <= i < |chain| ==> chain[i] < data.Length0)
      requires |chain| == Needed(size, clusterSize)
      ensures Fitting()
    {
      forall p: nat | p < size ensures Quot(Quot(p, bs), bpc) < |chain| {
        InsideNeeded(p, size, bs, bpc);
      }
    }

    static lemma InsideNeeded(p: nat, size: nat, bs: nat, bpc: nat)
      requires bs > 0 && bpc > 0 && p < size
      ensures bs * bpc > 0 && Quot(Quot(p, bs), bpc) < Needed(size, bs * bpc)
    {
      QuotQuot(p, bs, bpc);
      var cs := bs * bpc;
      QuotMono(p, size, cs);
      if Quot(p, cs) == Quot(size, cs) {
        QuotRem(p, cs);
        QuotRem(size, cs);
      }
    }

    // A file found on disk: its chain and size are consistent, no handle is open.
    constructor (vol: Volume, data: array2<Block>, bs: nat, bpc: nat, limit: nat, size: nat, cs: seq<nat>)
      requires vol.Valid() && vol.free == |FreeSet(vol.fat.entries)|
      requires bs > 0 && bpc > 0 && bs * bpc > 0 && data.Length0 == vol.Top() && data.Length1 == bpc
      requires data != vol.fat.disk
      requires forall c, b :: 0 <= c < data.Length0 && 0 <= b < bpc ==> |data[c, b]| == bs
      requires |cs| == Needed(size, bs * bpc)
      requires cs != [] ==> IsChain(vol.fat.kind, vol.fat.entries, cs)
      ensures Valid() && chain == cs && this.size == size && handles == []
      ensures this.vol == vol && this.data == data && this.bs == bs && this.bpc == bpc && this.limit == limit
    {
      this.vol, this.data, this.bs, this.bpc, this.limit := vol, data, bs, bpc, limit;
      clusterSize := bs * bpc;
      start := if cs == [] then 0 else cs[0];
      last := if cs == [] then Eof(vol.fat.kind) else cs[|cs| - 1];
      this.size := size;
      handles := [];
      chain := cs;
      new;
      ChainFits();
    }

    // PositionToOffset
    method PositionToOffset(offset: nat) returns (c: nat)
      requires Valid()
      modifies vol.fat`current, vol.fat.window
      ensures Valid()
      ensures c == if ClusterIndex(offset, bs, bpc) < |chain| then chain[ClusterIndex(offset, bs, bpc)] else vol.End()
    {
      hide FatTable.Backed, FatTable.Geometry, FatTable.BlockOf, FatTable.Blocks, WellFormed;
      c := start;
      QuotQuot(offset, bs, bpc);
      if c == 0 {
        StartIsZero();
        return Eof(vol.fat.kind);
      }
      StartIsZero();
      if offset < clusterSize {
        return c;
      }
      c := vol.SeekToCluster(c, offset, clusterSize, chain);
    }

    lemma StartIsZero()
      requires Valid()
      ensures start == 0 <==> chain == []
      ensures start == 0 <==> size == 0
      ensures chain != [] ==>
        IsChain(vol.fat.kind, vol.fat.entries, chain) && start == chain[0] && last == chain[|chain| - 1]
    {
      QuotRem(size, clusterSize);
    }

    // GetNextCluster on the chain.
    method Next(c: nat, ghost i: nat) returns (r: nat)
      requires Valid() && i < |chain| && c == chain[i]
      modifies vol.fat`current, vol.fat.window
      ensures Valid()
      ensures r == if i + 1 < |chain| then chain[i + 1] else vol.End()
    {
      hide FatTable.Backed, FatTable.Geometry, FatTable.BlockOf, FatTable.Blocks;
      r := vol.GetNextCluster(c);
      assert i + 1 < |chain| ==> vol.fat.entries[chain[i]] == chain[i + 1];
      ChainNonZero(vol.fat.kind, vol.fat.entries, chain, i);
      if r == 0 {
        assert false;
      }
    }

    // ReadBlock. A cluster outside the volume or marked bad cannot be read.
    method ReadBlock(c: nat, b: nat) returns (rc: nat, v: Block)
      requires Valid() && b < bpc
      modifies vol.fat`current, vol.fat.window
      ensures Valid()
      ensures rc == if 2 <= c < vol.Top() && vol.fat.entries[c] != Bad(vol.fat.kind) then NO_ERROR
        else ERROR_SECTOR_NOT_FOUND
      ensures rc == NO_ERROR ==> v == data[c, b]
    {
      hide FatTable.Backed, FatTable.Geometry, FatTable.BlockOf, FatTable.Blocks;
      if c < 2 || c >= vol.Top() {
        return ERROR_SECTOR_NOT_FOUND, [];
      }
      var r := vol.GetNextCluster(c);
      if r == Bad(vol.fat.kind) {
        return ERROR_SECTOR_NOT_FOUND, [];
      }
      rc, v := NO_ERROR, data[c, b];
    }

    // The block that holds a position, as the cursor finds it, and the bytes in it.
    lemma BlockAt(o: OpenInfo, n: nat)
      requires Valid() && 0 < n && o.pos + n <= size && Rem(o.pos, bs) + n <= bs && At(chain, vol.End(), bs, bpc, o)
      ensures ClusterIndex(o.pos, bs, bpc) < |chain| && o.cluster == chain[ClusterIndex(o.pos, bs, bpc)]
      ensures o.block < bpc
      ensures 2 <= o.cluster < vol.Top() == data.Length0 && o.cluster != vol.End()
      ensures vol.fat.entries[o.cluster] != Bad(vol.fat.kind) && data.Length1 == bpc
      ensures |data[o.cluster, o.block]| == bs && Fitting()
      ensures Content()[o.pos..o.pos + n] == data[o.cluster, o.block][Rem(o.pos, bs)..Rem(o.pos, bs) + n]
    {
      hide Quot, Rem, Joined;
      var i := ClusterIndex(o.pos, bs, bpc);
      assert i + 1 < |chain| ==> vol.fat.entries[chain[i]] == chain[i + 1];
      Piece(Blocks(chain), size, bs, o.pos, n);
    }

    // The cursor after a transfer of `n` bytes inside one block.
    method MoveCursor(o: OpenInfo, n: nat) returns (o': OpenInfo)
      requires Valid() && At(chain, vol.End(), bs, bpc, o) && ClusterIndex(o.pos, bs, bpc) < |chain|
      requires 0 < n && Rem(o.pos, bs) + n <= bs
      modifies vol.fat`current, vol.fat.window
      ensures Valid() && At(chain, vol.End(), bs, bpc, o') && o'.pos == o.pos + n && o'.block < bpc
    {
      hide ChainOk, Blocks, Needed, Quot, Rem, Joined, Fits;
      var c := o.cluster;
      OuterEnd(o.pos, n, bs, bpc);
      CursorMoves(o.pos, n, bs, bpc);
      if Rem(o.pos, clusterSize) + n >= clusterSize {
        c := Next(c, ClusterIndex(o.pos, bs, bpc));
      }
      o' := OpenInfo(c, Rem(Quot(o.pos + n, bs), bpc), o.pos + n);
    }

    static lemma CursorMoves(pos: nat, n: nat, bs: nat, bpc: nat)
      requires bs > 0 && bpc > 0 && 0 < n && Rem(pos, bs) + n <= bs
      ensures ClusterIndex(pos + n, bs, bpc) ==
        ClusterIndex(pos, bs, bpc) + (if Rem(pos, bs) + n == bs && Rem(Quot(pos, bs), bpc) + 1 == bpc then 1 else 0)
    {
      Advance(pos, n, bs);
      Advance(Quot(pos, bs), 1, bpc);
    }

    // The first part of FS_READ: up to the end of a block the position is inside of.
    method ReadFirst(o: OpenInfo, left: nat) returns (o': OpenInfo, out: seq<Byte>)
      requires Valid() && At(chain, vol.End(), bs, bpc, o)
      modifies vol.fat`current, vol.fat.window
      ensures Valid() && At(chain, vol.End(), bs, bpc, o') && o'.pos == o.pos + |out|
      ensures |out| == if o.pos < size && left > 0 &&
        Rem(o.pos, bs) != 0 then Min(Min(bs - Rem(o.pos, bs), left), size - o.pos) else 0
      ensures out != [] ==> out == Content()[o.pos..o.pos + |out|]
    {
      hide Valid, Fitting, Content, Quot, Rem;
      o', out := o, [];
      BlockSize();
      var offset := Rem(o.pos, bs);
      if o.cluster != Eof(vol.fat.kind) && o.pos < size && left > 0 && offset != 0 {
        var n := Min(Min(bs - offset, left), size - o.pos);
        BlockAt(o, n);
        var rc, v := ReadBlock(o.cluster, o.block);
        out := v[offset..offset + n];
        o' := MoveCursor(o, n);
      } else if o.pos < size && left > 0 && offset != 0 {
        BlockAt(o, 1);
      }
    }

    lemma BlockSize()
      requires Valid()
      ensures bs > 0 && bpc > 0 && clusterSize == bs * bpc && Fitting()
      ensures data.Length0 == vol.Top() && data.Length1 == bpc && data != vol.fat.disk
    {
    }

    // The cursor after a whole block, as the second parts of FS_READ and FS_WRITE move it.
    method StepBlock(o: OpenInfo) returns (o': OpenInfo)
      requires Valid() && At(chain, vol.End(), bs, bpc, o) && ClusterIndex(o.pos, bs, bpc) < |chain|
      requires Rem(o.pos, bs) == 0
      modifies vol.fat`current, vol.fat.window
      ensures Valid() && At(chain, vol.End(), bs, bpc, o') && o'.pos == o.pos + bs && Rem(o'.pos, bs) == 0
      ensures o'.block < bpc
    {
      hide ChainOk, Fitting, Needed, Quot, Rem;
      var c, b := o.cluster, o.block + 1;
      CursorMoves(o.pos, bs, bs, bpc);
      Advance(o.pos, bs, bs);
      Advance(Quot(o.pos, bs), 1, bpc);
      if b >= bpc {
        b := 0;
        c := Next(c, ClusterIndex(o.pos, bs, bpc));
      }
      o' := OpenInfo(c, b, o.pos + bs);
    }

    // The inner loop of the second part of FS_READ: `blocks` whole blocks.
    method ReadBlocks(o: OpenInfo, blocks: nat, ghost end: nat) returns (o': OpenInfo, out: seq<Byte>)
      requires Valid() && At(chain, vol.End(), bs, bpc, o) && Rem(o.pos, bs) == 0
      requires o.pos <= end <= size && end == o.pos + blocks * bs
      modifies vol.fat`current, vol.fat.window
      ensures Valid() && At(chain, vol.End(), bs, bpc, o') && o'.pos == end
      ensures out == Content()[o.pos..end]
    {
      hide Valid, Fitting, Content, At, Quot, Rem;
      BlockSize();
      o', out := o, [];
      var left := blocks;
      NonNegative(blocks, bs);
      ghost var rest: nat := blocks * bs;
      while left > 0
        invariant Valid() && At(chain, vol.End(), bs, bpc, o') && Fitting()
        invariant rest == left * bs && o.pos <= o'.pos && o'.pos + rest == end && Rem(o'.pos, bs) == 0
        invariant out == Content()[o.pos..o'.pos]
      {
        Distribute(left - 1, bs);
        NonNegative(left - 1, bs);
        rest := rest - bs;
        BlockAt(o', bs);
        var rc, v := ReadBlock(o'.cluster, o'.block);
        NextBlock(Content(), o.pos, o'.pos, bs, out, v);
        out := out + v;
        o' := StepBlock(o');
        left := left - 1;
      }
      assert left == 0 && rest == 0;
    }

    static lemma NextBlock(content: seq<Byte>, from: nat, pos: nat, bs: nat, out: seq<Byte>, v: seq<Byte>)
      requires from <= pos && pos + bs <= |content| && out == content[from..pos] && |v| == bs
      requires content[pos..pos + bs] == v[0..bs]
      ensures out + v == content[from..pos + bs]
    {
      assert v[0..bs] == v;
      assert content[from..pos + bs] == content[from..pos] + content[pos..pos + bs];
    }

    // The outer loop of the second part of FS_READ counts neighbouring clusters; that
    // does not change what is read.
    method ReadRuns(o: OpenInfo, blocks: nat, clusters: nat, ghost end: nat) returns (o': OpenInfo, out: seq<Byte>)
      requires Valid() && At(chain, vol.End(), bs, bpc, o) && Rem(o.pos, bs) == 0
      requires ClusterIndex(o.pos, bs, bpc) < |chain| && o.cluster != vol.End()
      requires o.pos <= end <= size && end == o.pos + blocks * bs
      modifies vol.fat`current, vol.fat.window
      ensures Valid() && At(chain, vol.End(), bs, bpc, o') && o'.pos == end
      ensures out == Content()[o.pos..end]
    {
      hide Valid, Fitting, Content, Quot, Rem;
      BlockSize();
      NonNegative(blocks, bs);
      o', out := o, [];
      var left, toProcess, c := blocks, clusters, o.cluster;
      while left > 0 && c != Eof(vol.fat.kind)
        invariant Valid() && c == o.cluster && left in {blocks, 0}
        invariant left == blocks ==> o' == o && out == []
        invariant left == 0 && blocks > 0 ==>
          At(chain, vol.End(), bs, bpc, o') && o'.pos == end && Fitting() && out == Content()[o.pos..end]
        decreases left, toProcess
      {
        var next := Next(c, ClusterIndex(o.pos, bs, bpc));
        if next != Eof(vol.fat.kind) && next == c + 1 && toProcess > 0 {
          toProcess := toProcess - 1;
        } else {
          o', out := ReadBlocks(o, left, end);
          BlockSize();
          left := 0;
        }
      }
      if blocks == 0 {
        assert end == o.pos + 0 * bs;
      }
    }

    // The second part of FS_READ: as many whole blocks as the transfer and the file have.
    method ReadWhole(o: OpenInfo, left: nat) returns (o': OpenInfo, out: seq<Byte>)
      requires Valid() && At(chain, vol.End(), bs, bpc, o)
      requires o.pos < size && left > 0 ==> Rem(o.pos, bs) == 0
      modifies vol.fat`current, vol.fat.window
      ensures Valid() && At(chain, vol.End(), bs, bpc, o') && o'.pos == o.pos + |out|
      ensures o.pos < size && left > 0 ==>
        && |out| <= Min(left, size - o.pos) < |out| + bs && Rem(o'.pos, bs) == 0
        && out == Content()[o.pos..o.pos + |out|]
      ensures !(o.pos < size && left > 0) ==> out == [] && o' == o
    {
      hide Valid, Fitting, Content, At, Quot, Rem;
      o', out := o, [];
      BlockSize();
      if o.pos < size && left > 0 {
        BlockAt(o, 1);
      }
      if o.cluster != Eof(vol.fat.kind) && o.pos < size && left > 0 {
        var n := Min(left, size - o.pos);
        var blocks := Quot(n, bs);
        ghost var end := WholeBlocks(o.pos, n, bs);
        o', out := ReadRuns(o, blocks, Quot(n, clusterSize), end);
        BlockSize();
      }
    }

    static lemma WholeBlocks(pos: nat, n: nat, bs: nat) returns (end: nat)
      requires bs > 0 && Rem(pos, bs) == 0
      ensures end == pos + Quot(n, bs) * bs && end <= pos + n < end + bs && Rem(end, bs) == 0
    {
      QuotRem(n, bs);
      QuotRem(pos, bs);
      NonNegative(Quot(n, bs), bs);
      end := pos + Quot(n, bs) * bs;
      assert end == (Quot(pos, bs) + Quot(n, bs)) * bs + 0;
      Unique(Quot(pos, bs) + Quot(n, bs), bs, 0);
    }

    // The third part of FS_READ: the beginning of a block.
    method ReadLast(o: OpenInfo, left: nat) returns (o': OpenInfo, out: seq<Byte>)
      requires Valid() && At(chain, vol.End(), bs, bpc, o)
      requires o.pos < size && left > 0 ==> Rem(o.pos, bs) == 0 && Min(left, size - o.pos) < bs
      modifies vol.fat`current, vol.fat.window
      ensures Valid() && At(chain, vol.End(), bs, bpc, o') && o'.pos == o.pos + |out|
      ensures |out| == if o.pos < size && left > 0 then Min(left, size - o.pos) else 0
      ensures out != [] ==> out == Content()[o.pos..o.pos + |out|]
    {
      hide Valid, Fitting, Content, Quot, Rem;
      o', out := o, [];
      BlockSize();
      if o.pos < size && left > 0 {
        BlockAt(o, 1);
      }
      if o.cluster != Eof(vol.fat.kind) && o.pos < size && left > 0 {
        var n := Min(left, size - o.pos);
        BlockAt(o, n);
        var rc, v := ReadBlock(o.cluster, o.block);
        out := v[..n];
        CursorMoves(o.pos, n, bs, bpc);
        Advance(o.pos, n, bs);
        o' := o.(pos := o.pos + n);
      }
    }

    // The cursor, looked up when it is not cached.
    method Reposition(o: OpenInfo) returns (o': OpenInfo)
      requires Valid() && HandleOk(chain, vol.End(), bs, bpc, o)
      modifies vol.fat`current, vol.fat.window
      ensures Valid() && At(chain, vol.End(), bs, bpc, o') && o'.pos == o.pos && o'.block < bpc
    {
      hide ChainOk, Fitting, Needed, Quot, Rem;
      o' := o;
      if o.cluster == Eof(vol.fat.kind) {
        var c := PositionToOffset(o.pos);
        o' := OpenInfo(c, Rem(Quot(o.pos, bs), bpc), o.pos);
      }
    }

    // A first part that stopped short of the end of the transfer stopped at a block border.
    static lemma FirstDone(pos: nat, left: nat, bs: nat, n: nat)
      requires bs > 0 && n == if left > 0 && Rem(pos, bs) != 0 then Min(bs - Rem(pos, bs), left) else 0
      ensures n < left ==> Rem(pos + n, bs) == 0
    {
      Advance(pos, n, bs);
    }

    // The position a handle ends at, and its block, as FS_READ and FS_WRITE leave them.
    method Leave(h: nat, o: OpenInfo)
      requires Valid() && h < |handles| && At(chain, vol.End(), bs, bpc, o)
      modifies `handles
      ensures Valid() && |handles| == old(|handles|) && handles == old(handles)[h := handles[h]]
      ensures At(chain, vol.End(), bs, bpc, handles[h]) && handles[h].pos == o.pos
    {
      hide ChainOk, Fitting, Needed, Quot, Rem;
      handles := handles[h := o.(block := Rem(Quot(o.pos, bs), bpc))];
    }

    // FS_READ: exactly the bytes from the position to the end of the transfer or of the file.
    method FsRead(h: nat, len: nat) returns (rc: nat, out: seq<Byte>)
      requires Valid() && h < |handles|
      modifies `handles, vol.fat`current, vol.fat.window
      ensures Valid() && rc == 0 && |handles| == old(|handles|)
      ensures var pos := old(handles[h].pos);
        && out == (if pos < size then Content()[pos..Min(pos + len, size)] else [])
        && handles == old(handles)[h := handles[h]] && handles[h].pos == pos + |out|
    {
      hide Fitting, Content, At, HandleOk, ChainOk, Needed, Quot, Rem;
      rc, out := NO_ERROR, [];
      BlockSize();
      if len == 0 {
        return;
      }
      var o := Reposition(handles[h]);
      out := ReadAll(o, len, h);
    }

    // All parts of FS_READ, and the position afterwards.
    method ReadAll(o: OpenInfo, len: nat, h: nat) returns (out: seq<Byte>)
      requires Valid() && h < |handles| && At(chain, vol.End(), bs, bpc, o)
      modifies `handles, vol.fat`current, vol.fat.window
      ensures Valid() && |handles| == old(|handles|)
      ensures handles == old(handles)[h := handles[h]] && handles[h].pos == o.pos + |out|
      ensures out == if o.pos < size then Content()[o.pos..Min(o.pos + len, size)] else []
    {
      hide Valid, Fitting, Content, At, HandleOk, ChainOk, Needed, Quot, Rem;
      var o';
      o', out := ReadParts(o, len);
      BlockSize();
      Leave(h, o');
      BlockSize();
    }

    // All three parts of FS_READ.
    method ReadParts(o: OpenInfo, len: nat) returns (o': OpenInfo, out: seq<Byte>)
      requires Valid() && At(chain, vol.End(), bs, bpc, o)
      modifies vol.fat`current, vol.fat.window
      ensures Valid() && At(chain, vol.End(), bs, bpc, o') && o'.pos == o.pos + |out|
      ensures out == if o.pos < size then Content()[o.pos..Min(o.pos + len, size)] else []
    {
      hide Valid, Fitting, Content, At, HandleOk, ChainOk, Needed, Quot, Rem;
      BlockSize();
      ghost var content := Content();
      var o1, out1 := ReadFirst(o, len);
      FirstDone(o.pos, Min(len, if o.pos < size then size - o.pos else 0), bs, |out1|);
      var out2;
      o', out2 := ReadRest(o1, len - |out1|);
      if o.pos < size {
        JoinTwo(content, o.pos, out1, out2);
      }
      out := out1 + out2;
      BlockSize();
    }

    // The second and third parts of FS_READ.
    method ReadRest(o: OpenInfo, left: nat) returns (o': OpenInfo, out: seq<Byte>)
      requires Valid() && At(chain, vol.End(), bs, bpc, o)
      requires o.pos < size && left > 0 ==> Rem(o.pos, bs) == 0
      modifies vol.fat`current, vol.fat.window
      ensures Valid() && At(chain, vol.End(), bs, bpc, o') && o'.pos == o.pos + |out|
      ensures |out| == if o.pos < size then Min(left, size - o.pos) else 0
      ensures out != [] ==> out == Content()[o.pos..o.pos + |out|]
    {
      hide Valid, Fitting, Content, At, HandleOk, ChainOk, Needed, Quot, Rem;
      BlockSize();
      ghost var content := Content();
      var o1, out1 := ReadWhole(o, left);
      BlockSize();
      var o2, out2 := ReadLast(o1, left - |out1|);
      BlockSize();
      if o.pos < size {
        JoinTwo(content, o.pos, out1, out2);
      }
      o', out := o2, out1 + out2;
    }

    static lemma JoinTwo(s: seq<Byte>, pos: nat, a: seq<Byte>, b: seq<Byte>)
      requires pos + |a| + |b| <= |s|
      requires a != [] ==> a == s[pos..pos + |a|]
      requires b != [] ==> b == s[pos + |a|..pos + |a| + |b|]
      ensures a + b == s[pos..pos + |a| + |b|]
    {
    }

    // ResetAllCurrents
    method ResetAllCurrents()
      requires bs > 0 && bpc > 0 && forall h :: 0 <= h < |handles| ==> handles[h].block < bpc
      modifies `handles
      ensures |handles| == old(|handles|) && HandlesOk()
      ensures forall h :: 0 <= h < |handles| ==> handles[h] == old(handles[h]).(cluster := vol.End())
    {
      var was, i := handles, 0;
      while i < |handles|
        invariant i <= |handles| == |was|
        invariant forall h :: 0 <= h < |was| ==> handles[h] == if h < i then was[h].(cluster := vol.End()) else was[h]
      {
        handles := handles[i := handles[i].(cluster := Eof(vol.fat.kind))];
        i := i + 1;
      }
    }

    // FS_CHGFILEPTRL. The new position is kept as a ULONG; the cursor is dropped when it changes.
    method ChangeFilePointer(h: nat, offset: int, origin: Origin, dos: bool) returns (rc: nat)
      requires Valid() && h < |handles|
      modifies `handles
      ensures Valid() && |handles| == old(|handles|) && handles == old(handles)[h := handles[h]]
      ensures var target := (match origin case RelBegin => offset case RelCur => old(handles[h].pos) + offset
                             case RelEnd => size + offset case OtherOrigin => 0);
        && (rc == 0 || rc == 131)
        && (rc == ERROR_NEGATIVE_SEEK <==> target < 0 && (!dos || origin == RelBegin))
        && handles[h].pos == if rc == NO_ERROR then target % ULONG else old(handles[h].pos)
    {
      hide ChainOk, Fitting, Needed, Quot, Rem;
      var target := 0;
      match origin {
        case RelBegin =>
          if offset < 0 {
            return ERROR_NEGATIVE_SEEK;
          }
          target := offset;
        case RelCur => target := handles[h].pos + offset;
        case RelEnd => target := size + offset;
        case OtherOrigin =>
      }
      if !dos && target < 0 {
        return ERROR_NEGATIVE_SEEK;
      }
      if handles[h].pos != target % ULONG {
        handles := handles[h := OpenInfo(Eof(vol.fat.kind), handles[h].block, target % ULONG)];
      }
      rc := NO_ERROR;
    }

    // Everything but the size agrees with the chain.
    ghost predicate Linked()
      reads `start, `last, `chain, data, vol, vol.fat, vol.fat.disk, vol.fat.window
    {
      vol.Valid() && vol.free == |FreeSet(vol.fat.entries)| && Store() && ChainOk()
    }

    // NewSize to nothing.
    method Empty()
      requires Valid()
      modifies `start, `last, `chain, `handles, vol`free, vol.fat, vol.fat.disk, vol.fat.window
      ensures Linked() && chain == []
      ensures Resized(old(vol.State()), vol.State(), old(chain), [], 0)
      ensures FatRuns.OthersKept(vol.fat.kind, old(vol.fat.entries), vol.fat.entries, old(chain), [])
      ensures HandlesOk() && |handles| == old(|handles|)
      ensures forall h :: 0 <= h < |handles| ==> handles[h] == old(handles[h]).(cluster := vol.End())
    {
      hide FatTable.Backed, FatTable.Geometry, FatTable.BlockOf, FatTable.Blocks;
      hide DeleteFrom, FreeSet, IsChain, Cleared, Quot, Rem, WellFormed, Needed, Resized, FatRuns.OthersKept, Fitting;
      StartIsZero();
      ghost var t, s := vol.fat.kind, vol.State();
      if start != 0 {
        FatRuns.CutTail(t, s.f, chain, 0);
        Emptied(t, s, chain);
        var _ := vol.DeleteFatChain(start);
        start, last := 0, Eof(vol.fat.kind);
        chain := [];
      } else {
        Unresized(t, s, []);
      }
      ResetAllCurrents();
    }

    // NewSize to less: `offset` is a position in the last cluster that stays.
    method Shorten(offset: nat, ghost keep: nat) returns (rc: nat)
      requires Valid() && 0 < keep <= |chain| && ClusterIndex(offset, bs, bpc) == keep - 1
      modifies `start, `last, `chain, `handles, vol, vol.fat, vol.fat.disk, vol.fat.window
      ensures rc == NO_ERROR && Linked() && chain == old(chain)[..keep]
      ensures Resized(old(vol.State()), vol.State(), old(chain), chain, keep)
      ensures FatRuns.OthersKept(vol.fat.kind, old(vol.fat.entries), vol.fat.entries, old(chain), chain)
      ensures HandlesOk() && |handles| == old(|handles|)
      ensures forall h :: 0 <= h < |handles| ==> handles[h] == old(handles[h]).(cluster := vol.End())
    {
      hide FatTable.Backed, FatTable.Geometry, FatTable.BlockOf, FatTable.Blocks;
      hide DeleteFrom, FreeSet, Cleared, Quot, Rem, WellFormed, Needed, Resized, FatRuns.OthersKept, Fitting, IsChain;
      StartIsZero();
      ghost var cs := chain;
      ChainCell(keep - 1);
      var c := PositionToOffset(offset);
      if c == Eof(vol.fat.kind) {
        return ERROR_SECTOR_NOT_FOUND;
      }
      var next := Next(c, keep - 1);
      if next != Eof(vol.fat.kind) {
        CutBehind(c, next, keep);
      } else {
        if keep < |cs| { ChainCell(keep); }
        Unresized(vol.fat.kind, vol.State(), cs);
      }
      last, chain := c, cs[..keep];
      ResetAllCurrents();
      rc := NO_ERROR;
    }

    lemma ChainCell(i: nat)
      requires ChainOk() && i < |chain| && vol.Valid()
      ensures chain[i] != vol.End()
    {
    }

    // End the chain in `c` and delete the clusters behind it.
    method CutBehind(c: nat, next: nat, ghost keep: nat)
      requires vol.Valid() && vol.free == |FreeSet(vol.fat.entries)| && IsChain(vol.fat.kind, vol.fat.entries, chain)
      requires 0 < keep < |chain| && c == chain[keep - 1] && next == chain[keep]
      modifies vol, vol.fat, vol.fat.disk, vol.fat.window
      ensures vol.Valid() && vol.free == |FreeSet(vol.fat.entries)|
      ensures IsChain(vol.fat.kind, vol.fat.entries, chain[..keep])
      ensures Resized(old(vol.State()), vol.State(), chain, chain[..keep], keep)
      ensures FatRuns.OthersKept(vol.fat.kind, old(vol.fat.entries), vol.fat.entries, chain, chain[..keep])
    {
      hide FatTable.Backed, FatTable.Geometry, FatTable.BlockOf, FatTable.Blocks;
      hide DeleteFrom, FreeSet, Cleared, WellFormed, Resized, FatRuns.OthersKept, IsChain;
      ghost var t, s, cs := vol.fat.kind, vol.State(), chain;
      CutOff(t, s, cs, keep);
      FatRuns.CutTail(t, s.f, cs, keep);
      var _ := vol.SetNextCluster(c, Eof(vol.fat.kind));
      var _ := vol.DeleteFatChain(next);
    }

    // NewSize to more: `n` clusters from the free pool behind the chain, if it has them.
    // A file without clusters has the end mark as its last one.
    method Lengthen(n: nat) returns (rc: nat)
      requires Linked() && HandlesOk() && n > 0
      modifies `start, `last, `chain, vol, vol.fat, vol.fat.disk, vol.fat.window
      ensures Linked() && HandlesOk()
      ensures rc == if n <= old(vol.free) then NO_ERROR else ERROR_DISK_FULL
      ensures rc != NO_ERROR ==> vol.State() == old(vol.State()) && chain == old(chain)
      ensures rc == NO_ERROR ==>
        && Resized(old(vol.State()), vol.State(), old(chain), chain, old(|chain|) + n)
        && FatRuns.OthersKept(vol.fat.kind, old(vol.fat.entries), vol.fat.entries, old(chain), chain)
    {
      hide FatTable.Backed, FatTable.Geometry, FatTable.BlockOf, FatTable.Blocks;
      hide FreeSet, WellFormed, Resized, FatRuns.OthersKept, Rounds, Appended, Flat, Volume.Allocated;
      ghost var t, s, cs := vol.fat.kind, vol.State(), chain;
      TailUsed();
      var first, last', runs := vol.MakeFatChain(last, n, last);
      if first == Eof(vol.fat.kind) {
        return ERROR_DISK_FULL;
      }
      Grown(t, s, vol.State(), last, n, runs, first, last', cs);
      last := last';
      if start == 0 {
        start := first;
      }
      chain := cs + Flat(runs);
      rc := NO_ERROR;
    }

    lemma TailUsed()
      requires Linked()
      ensures last == vol.End() <==> chain == []
      ensures start == 0 <==> chain == []
      ensures last != vol.End() ==> 2 <= last < vol.Top() && vol.fat.entries[last] != 0
    {
      if chain != [] {
        ChainNonZero(vol.fat.kind, vol.fat.entries, chain, |chain| - 1);
      }
    }

    // NewSize. It fails exactly when the free pool is too small, and then changes
    // nothing; otherwise the chain has the clusters the size needs, and the bytes
    // below both sizes are the old ones.
    method NewSize(len: nat) returns (rc: nat)
      requires Valid()
      modifies this, vol, vol.fat, vol.fat.disk, vol.fat.window
      ensures Valid() && |handles| == old(|handles|)
      ensures rc == if Needed(len, clusterSize) <= old(|chain|) + old(vol.free) then NO_ERROR else ERROR_DISK_FULL
      ensures rc == 0 || rc == 112
      ensures rc != NO_ERROR ==>
        size == old(size) && chain == old(chain) && vol.State() == old(vol.State()) && handles == old(handles)
      ensures rc == NO_ERROR ==>
        && size == len && Content()[..Min(len, old(size))] == old(Content())[..Min(len, old(size))]
        && Resized(old(vol.State()), vol.State(), old(chain), chain, Needed(len, clusterSize))
        && FatRuns.OthersKept(vol.fat.kind, old(vol.fat.entries), vol.fat.entries, old(chain), chain)
      // The clusters that are cut off are free again, and none is lost on the way.
      ensures rc == NO_ERROR ==>
        && (chain <= old(chain) || old(chain) <= chain) && vol.free + |chain| == old(vol.free + |chain|)
        && forall i :: |chain| <= i < |old(chain)| ==>
             old(chain)[i] < vol.Top() && vol.fat.entries[old(chain)[i]] == 0
      ensures old(size) <= len ==> handles == old(handles)
      ensures forall h :: 0 <= h < |handles| ==> handles[h] in {old(handles[h]), old(handles[h]).(cluster := vol.End())}
    {
      hide FatTable.Backed, FatTable.Geometry, FatTable.BlockOf, FatTable.Blocks;
      hide Quot, Rem, HandleOk, ChainOk, Store, FatRuns.OthersKept, FreeSet, HandlesOk, Resized, Needed, Joined;
      hide Blocks, Fits;
      BlockSize();
      ghost var was, cs, s := size, chain, vol.State();
      if len == size {
        Unresized(vol.fat.kind, vol.State(), chain);
        ResizedIs(s, s, cs, cs, |cs|);
        return NO_ERROR;
      }
      NeededZero(len, clusterSize);
      if len == 0 {
        Empty();
      } else {
        rc := Rechain(len);
        if rc != NO_ERROR {
          Finish(cs, was);
          return;
        }
      }
      size := len;
      rc := NO_ERROR;
      ResizedPrefix(s, vol.State(), cs, chain, Needed(len, clusterSize));
      ResizedIs(s, vol.State(), cs, chain, Needed(len, clusterSize));
      Finish(cs, was);
    }

    // What NewSize does to the chain for a new size that is not zero.
    method Rechain(len: nat) returns (rc: nat)
      requires Valid() && len != size && len > 0
      modifies `start, `last, `chain, `handles, vol, vol.fat, vol.fat.disk, vol.fat.window
      ensures Linked() && HandlesOk() && |handles| == old(|handles|)
      ensures rc == if Needed(len, clusterSize) <= old(|chain|) + old(vol.free) then NO_ERROR else ERROR_DISK_FULL
      ensures rc != NO_ERROR ==> chain == old(chain) && vol.State() == old(vol.State())
      ensures rc == NO_ERROR ==>
        && Resized(old(vol.State()), vol.State(), old(chain), chain, Needed(len, clusterSize))
        && FatRuns.OthersKept(vol.fat.kind, old(vol.fat.entries), vol.fat.entries, old(chain), chain)
      ensures rc != NO_ERROR || size <= len ==> handles == old(handles)
      ensures forall h :: 0 <= h < |handles| ==> handles[h] in {old(handles[h]), old(handles[h]).(cluster := vol.End())}
    {
      hide FatTable.Backed, FatTable.Geometry, FatTable.BlockOf, FatTable.Blocks;
      hide Quot, Rem, Fitting, Content, HandleOk, ChainOk, Store, Resized, FatRuns.OthersKept, FreeSet, HandlesOk;
      BlockSize();
      StartIsZero();
      NeededZero(len, clusterSize);
      var needed := Needed(len, clusterSize);
      rc := NO_ERROR;
      if start == 0 {
        rc := Lengthen(needed);
      } else if len < size {
        NeededMono(len, size, clusterSize);
        LastKept(len, bs, bpc);
        rc := Shorten(if Rem(len, clusterSize) == 0 then len - 1 else len, needed);
      } else {
        if last == Eof(vol.fat.kind) {
          return ERROR_SECTOR_NOT_FOUND;
        }
        NeededMono(size, len, clusterSize);
        var count := Needed(size, clusterSize);
        if needed > count {
          rc := Lengthen(needed - count);
        } else {
          Unresized(vol.fat.kind, vol.State(), chain);
        }
      }
    }

    // With its new size the file is consistent again, and the bytes below both
    // sizes are where they were.
    lemma Finish(cs: seq<nat>, was: nat)
      requires Linked() && HandlesOk() && |chain| == Needed(size, clusterSize)
      requires chain <= cs || cs <= chain
      requires (forall i :: 0 <= i < |cs| ==> cs[i] < data.Length0) && Fits(Blocks(cs), was, bs)
      ensures Valid()
      ensures Content()[..Min(size, was)] == Joined(Blocks(cs), was, bs)[..Min(size, was)]
    {
      hide Quot, Rem, Needed;
      ChainFits();
      var b, b' := Joined(Blocks(cs), was, bs), Content();
      forall p | 0 <= p < Min(size, was) ensures b'[p] == b[p] {
        assert Blocks(cs)[Quot(p, bs)] == Blocks(chain)[Quot(p, bs)];
      }
    }

    static lemma NeededZero(len: nat, cs: nat)
      requires cs > 0
      ensures Needed(len, cs) == 0 <==> len == 0
    {
      QuotRem(len, cs);
    }

    static lemma NeededMono(a: nat, b: nat, cs: nat)
      requires cs > 0 && a <= b
      ensures Needed(a, cs) <= Needed(b, cs)
    {
      QuotMono(a, b, cs);
      if Quot(a, cs) == Quot(b, cs) {
        QuotRem(a, cs);
        QuotRem(b, cs);
      }
    }

    // The last cluster a size needs holds the position before it, or the size itself.
    static lemma LastKept(len: nat, bs: nat, bpc: nat)
      requires bs > 0 && bpc > 0 && len > 0
      ensures bs * bpc > 0
      ensures var cs := bs * bpc;
        ClusterIndex(if Rem(len, cs) == 0 then len - 1 else len, bs, bpc) == Needed(len, cs) - 1
    {
      QuotQuot(len, bs, bpc);
      var cs := bs * bpc;
      if Rem(len, cs) == 0 {
        QuotRem(len, cs);
        QuotQuot(len - 1, bs, bpc);
        var q := Quot(len, cs);
        Distribute(q - 1, cs);
        Unique(q - 1, cs, cs - 1);
      }
    }

    // The blocks of all clusters outside a chain.
    ghost function OutsideOf(cs: seq<nat>): imap<(nat, nat), Block>
      reads data
    {
      imap k: (nat, nat) | k.0 < data.Length0 && k.1 < data.Length1 && k.0 !in cs :: data[k.0, k.1]
    }

    ghost function Outside(): imap<(nat, nat), Block>
      reads data, `chain
    {
      OutsideOf(chain)
    }

    // All blocks of `now` are in `was` and the same.
    static ghost predicate Untouched(was: imap<(nat, nat), Block>, now: imap<(nat, nat), Block>) {
      forall k :: k in now ==> k in was && was[k] == now[k]
    }

    lemma StillUntouched(cs: seq<nat>)
      requires cs <= chain
      ensures Untouched(OutsideOf(cs), Outside())
    {
      assert forall c :: c in cs ==> c in chain;
    }

    // WriteBlock
    method WriteBlock(c: nat, b: nat, v: Block) returns (rc: nat)
      requires Valid() && b < bpc && |v| == bs
      modifies data, vol.fat`current, vol.fat.window
      ensures Valid() && data.Length0 == vol.Top() && data.Length1 == bpc
      ensures rc == if 2 <= c < vol.Top() && vol.fat.entries[c] != Bad(vol.fat.kind) then NO_ERROR
        else ERROR_SECTOR_NOT_FOUND
      ensures forall i, j :: 0 <= i < data.Length0 && 0 <= j < data.Length1 ==>
        data[i, j] == if rc == NO_ERROR && i == c && j == b then v else old(data[i, j])
      ensures c in chain ==> Outside() == old(Outside())
    {
      hide FatTable.Backed, FatTable.Geometry, FatTable.BlockOf, FatTable.Blocks, Quot, Rem, Needed, Joined, OutsideOf;
      if c < 2 || c >= vol.Top() {
        return ERROR_SECTOR_NOT_FOUND;
      }
      var r := vol.GetNextCluster(c);
      if r == Bad(vol.fat.kind) {
        return ERROR_SECTOR_NOT_FOUND;
      }
      SetBlock(c, b, v);
      rc := NO_ERROR;
    }

    // WriteSector of one block.
    method SetBlock(c: nat, b: nat, v: Block)
      requires c < data.Length0 && b < data.Length1
      modifies data
      ensures forall i, j :: 0 <= i < data.Length0 && 0 <= j < data.Length1 ==>
        data[i, j] == if i == c && j == b then v else old(data[i, j])
      ensures c in chain ==> Outside() == old(Outside())
    {
      data[c, b] := v;
    }

    // Store a block of the file in which only `piece` is new.
    method Put(o: OpenInfo, v: Block, ghost piece: seq<Byte>)
      requires Valid() && At(chain, vol.End(), bs, bpc, o) && ClusterIndex(o.pos, bs, bpc) < |chain|
      requires o.cluster < data.Length0 && o.block < data.Length1 && |data[o.cluster, o.block]| == bs
      requires piece != [] && o.pos + |piece| <= size && Rem(o.pos, bs) + |piece| <= bs
      requires v == Spliced(data[o.cluster, o.block], Rem(o.pos, bs), piece)
      modifies data, vol.fat`current, vol.fat.window
      ensures Valid() && Content() == Spliced(old(Content()), o.pos, piece) && Outside() == old(Outside())
    {
      hide FatTable.Backed, FatTable.Geometry, FatTable.BlockOf, FatTable.Blocks, Quot, Rem, Joined, Needed;
      hide HandlesOk, Fits, OutsideOf;
      BlockAt(o, |piece|);
      ghost var fb, k := Blocks(chain), Quot(o.pos, bs);
      PutPiece(fb, size, bs, o.pos, piece);
      ghost var cs := chain;
      var _ := WriteBlock(o.cluster, o.block, v);
      Replaced(fb, k, v, o);
    }

    lemma Replaced(fb: seq<Block>, k: nat, v: Block, o: OpenInfo)
      requires Store() && ChainOk() && bpc > 0 && k == Quot(o.pos, bs) && Quot(k, bpc) < |chain| && k < |fb|
      requires o.cluster == chain[Quot(k, bpc)] && o.block == Rem(k, bpc)
      requires forall i :: 0 <= i < |chain| ==> chain[i] < data.Length0
      requires forall i: nat :: i < |fb| <==> Quot(i, bpc) < |chain|
      requires forall i :: 0 <= i < |fb| ==>
        data[chain[Quot(i, bpc)], Rem(i, bpc)] == if chain[Quot(i, bpc)] == o.cluster &&
            Rem(i, bpc) == o.block then v else fb[i]
      ensures Blocks(chain) == fb[k := v]
    {
      hide Quot, Rem;
      var fb' := Blocks(chain);
      SameCount(|fb'|, |fb|, |chain|);
      forall i | 0 <= i < |fb| ensures fb'[i] == fb[k := v][i] {
        if i != k && chain[Quot(i, bpc)] == chain[Quot(k, bpc)] {
          assert Quot(i, bpc) == Quot(k, bpc);
          SameBlock(k, i, bpc);
        }
      }
    }

    lemma SameCount(a: nat, b: nat, n: nat)
      requires bpc > 0 && (forall i: nat :: i < a <==> Quot(i, bpc) < n)
      requires (forall i: nat :: i < b <==> Quot(i, bpc) < n)
      ensures a == b
    {
      assert a < a <==> Quot(a, bpc) < n;
      assert b < b <==> Quot(b, bpc) < n;
    }

    // The first part of FS_WRITE: up to the end of a block the position is inside of,
    // by reading the block and writing it back.
    method WriteFirst(o: OpenInfo, bytes: seq<Byte>) returns (o': OpenInfo, n: nat)
      requires Valid() && At(chain, vol.End(), bs, bpc, o) && o.pos + |bytes| <= size
      modifies data, vol.fat`current, vol.fat.window
      ensures Valid() && At(chain, vol.End(), bs, bpc, o') && o'.pos == o.pos + n
      ensures n == if bytes != [] && Rem(o.pos, bs) != 0 then Min(bs - Rem(o.pos, bs), |bytes|) else 0
      ensures Content() == Spliced(old(Content()), o.pos, bytes[..n]) && Outside() == old(Outside())
    {
      hide Valid, Fitting, Content, Outside, Quot, Rem, Spliced;
      o', n := o, 0;
      BlockSize();
      var offset := Rem(o.pos, bs);
      if bytes != [] && offset != 0 {
        BlockAt(o, 1);
      }
      if o.cluster != Eof(vol.fat.kind) && o.pos < size && bytes != [] && offset != 0 {
        n := Min(Min(bs - offset, |bytes|), size - o.pos);
        BlockAt(o, n);
        var rc, v := ReadBlock(o.cluster, o.block);
        Put(o, Spliced(v, offset, bytes[..n]), bytes[..n]);
        o' := MoveCursor(o, n);
      } else {
        NothingSpliced(Content(), o.pos, bytes);
      }
    }

    static lemma NothingSpliced(s: seq<Byte>, at: nat, bytes: seq<Byte>)
      requires at <= |s|
      ensures Spliced(s, at, bytes[..0]) == s
    {
    }

    static lemma SplicedTwice(s: seq<Byte>, at: nat, a: seq<Byte>, b: seq<Byte>)
      requires at + |a| + |b| <= |s|
      ensures Spliced(Spliced(s, at, a), at + |a|, b) == Spliced(s, at, a + b)
    {
    }

    static lemma SplicedNext(s: seq<Byte>, at: nat, bytes: seq<Byte>, done: nat, n: nat)
      requires done + n <= |bytes| && at + |bytes| <= |s|
      ensures Spliced(Spliced(s, at, bytes[..done]), at + done, bytes[done..done + n]) == Spliced(s, at,
        bytes[..done + n])
    {
      SplicedTwice(s, at, bytes[..done], bytes[done..done + n]);
      assert bytes[..done] + bytes[done..done + n] == bytes[..done + n];
    }

    static lemma WholeBlock(was: seq<Byte>, v: seq<Byte>)
      requires |was| == |v|
      ensures Spliced(was, 0, v) == v
    {
    }

    // The inner loop of the second part of FS_WRITE: `blocks` whole blocks.
    method WriteBlocks(o: OpenInfo, bytes: seq<Byte>, blocks: nat) returns (o': OpenInfo)
      requires Valid() && At(chain, vol.End(), bs, bpc, o) && Rem(o.pos, bs) == 0
      requires blocks * bs <= |bytes| && o.pos + |bytes| <= size
      modifies data, vol.fat`current, vol.fat.window
      ensures Valid() && At(chain, vol.End(), bs, bpc, o') && 0 <= blocks * bs && o'.pos == o.pos + blocks * bs
      ensures Content() == Spliced(old(Content()), o.pos, bytes[..blocks * bs]) && Outside() == old(Outside())
    {
      hide Valid, Fitting, Content, Outside, At, Quot, Rem, Spliced, Behind;
      BlockSize();
      ghost var content := Content();
      o' := o;
      NonNegative(blocks, bs);
      NothingSpliced(content, o.pos, bytes);
      ghost var goal: nat := blocks * bs;
      FirstLeft(goal, blocks, bs);
      var left, done: nat := blocks, 0;
      while left > 0
        invariant Valid() && At(chain, vol.End(), bs, bpc, o') && Fitting() && done <= goal <= |bytes|
        invariant Behind(goal - done, left, bs) && o'.pos == o.pos + done && Rem(o'.pos, bs) == 0
        invariant Content() == Spliced(content, o.pos, bytes[..done]) && Outside() == old(Outside())
      {
        NextLeft(goal - done, left, bs);
        o' := WriteOne(o', bytes, done, content, o.pos);
        done := done + bs;
        left := left - 1;
      }
      NoneLeft(goal - done, bs);
    }

    // The bytes of the blocks that are still to be written.
    static ghost predicate Behind(rest: nat, left: nat, bs: nat) { rest == left * bs }

    static lemma FirstLeft(rest: nat, left: nat, bs: nat)
      requires rest == left * bs
      ensures Behind(rest, left, bs)
    {
    }

    static lemma NextLeft(rest: nat, left: nat, bs: nat)
      requires left > 0 && Behind(rest, left, bs)
      ensures rest >= bs && Behind(rest - bs, left - 1, bs)
    {
      assert left * bs == (left - 1) * bs + bs && (left - 1) * bs >= 0;
    }

    static lemma NoneLeft(rest: nat, bs: nat)
      requires Behind(rest, 0, bs)
      ensures rest == 0
    {
    }

    // One round of that loop.
    method WriteOne(o: OpenInfo, bytes: seq<Byte>, done: nat, ghost content: seq<Byte>, ghost from: nat)
      returns (o': OpenInfo)
      requires Valid() && At(chain, vol.End(), bs, bpc, o) && Rem(o.pos, bs) == 0
      requires done + bs <= |bytes| && o.pos == from + done && from + |bytes| <= size && Fitting()
      requires size == |content| && Content() == Spliced(content, from, bytes[..done])
      modifies data, vol.fat`current, vol.fat.window
      ensures Valid() && At(chain, vol.End(), bs, bpc, o') && Fitting()
      ensures o'.pos == o.pos + bs && Rem(o'.pos, bs) == 0
      ensures Content() == Spliced(content, from, bytes[..done + bs]) && Outside() == old(Outside())
    {
      hide Valid, Fitting, Content, Outside, At, Quot, Rem, Spliced;
      BlockSize();
      BlockAt(o, bs);
      var v := bytes[done..done + bs];
      WholeBlock(data[o.cluster, o.block], v);
      Put(o, v, v);
      SplicedNext(content, from, bytes, done, bs);
      o' := StepBlock(o);
      BlockSize();
    }

    // The outer loop of the second part of FS_WRITE; see ReadRuns.
    method WriteRuns(o: OpenInfo, bytes: seq<Byte>, blocks: nat, clusters: nat) returns (o': OpenInfo)
      requires Valid() && At(chain, vol.End(), bs, bpc, o) && Rem(o.pos, bs) == 0
      requires ClusterIndex(o.pos, bs, bpc) < |chain| && o.cluster != vol.End()
      requires 0 <= blocks * bs <= |bytes| && o.pos + |bytes| <= size
      modifies data, vol.fat`current, vol.fat.window
      ensures Valid() && At(chain, vol.End(), bs, bpc, o') && o'.pos == o.pos + blocks * bs
      ensures Content() == Spliced(old(Content()), o.pos, bytes[..blocks * bs]) && Outside() == old(Outside())
    {
      hide Valid, Fitting, Content, Outside, Quot, Rem, Spliced;
      BlockSize();
      o' := o;
      ghost var goal, content: seq<Byte> := blocks * bs, Content();
      NothingSpliced(content, o.pos, bytes);
      assert blocks == 0 ==> goal == 0;
      var left, toProcess, c := blocks, clusters, o.cluster;
      while left > 0 && c != Eof(vol.fat.kind)
        invariant Valid() && c == o.cluster && left in {blocks, 0} && Fitting()
        invariant left == blocks ==> o' == o && Content() == content
        invariant left == 0 && blocks > 0 ==>
          At(chain, vol.End(), bs, bpc, o') && o'.pos == o.pos + goal &&
              Content() == Spliced(content, o.pos, bytes[..goal])
        invariant Outside() == old(Outside())
        decreases left, toProcess
      {
        var next := Next(c, ClusterIndex(o.pos, bs, bpc));
        if next != Eof(vol.fat.kind) && next == c + 1 && toProcess > 0 {
          toProcess := toProcess - 1;
        } else {
          o' := WriteBlocks(o, bytes, left);
          left := 0;
        }
        BlockSize();
      }
    }

    // The second part of FS_WRITE: as many whole blocks as the transfer has.
    method WriteWhole(o: OpenInfo, bytes: seq<Byte>) returns (o': OpenInfo, n: nat)
      requires Valid() && At(chain, vol.End(), bs, bpc, o) && o.pos + |bytes| <= size
      requires bytes != [] ==> Rem(o.pos, bs) == 0
      modifies data, vol.fat`current, vol.fat.window
      ensures Valid() && At(chain, vol.End(), bs, bpc, o') && o'.pos == o.pos + n
      ensures n <= |bytes| && (bytes != [] ==> |bytes| < n + bs && Rem(o'.pos, bs) == 0)
      ensures Content() == Spliced(old(Content()), o.pos, bytes[..n]) && Outside() == old(Outside())
    {
      hide Valid, Fitting, Content, Outside, At, Quot, Rem, Spliced;
      o', n := o, 0;
      BlockSize();
      if bytes != [] {
        BlockAt(o, 1);
      }
      if o.cluster != Eof(vol.fat.kind) && o.pos < size && bytes != [] {
        var todo := Min(|bytes|, size - o.pos);
        var blocks := Quot(todo, bs);
        ghost var end := WholeBlocks(o.pos, todo, bs);
        NonNegative(blocks, bs);
        n := blocks * bs;
        o' := WriteRuns(o, bytes, blocks, Quot(todo, clusterSize));
      } else {
        NothingSpliced(Content(), o.pos, bytes);
      }
    }

    // The third part of FS_WRITE: the beginning of a block, read and written back.
    method WriteLast(o: OpenInfo, bytes: seq<Byte>) returns (o': OpenInfo)
      requires Valid() && At(chain, vol.End(), bs, bpc, o) && o.pos + |bytes| <= size
      requires |bytes| < bs && (bytes != [] ==> Rem(o.pos, bs) == 0)
      modifies data, vol.fat`current, vol.fat.window
      ensures Valid() && At(chain, vol.End(), bs, bpc, o') && o'.pos == o.pos + |bytes|
      ensures Content() == Spliced(old(Content()), o.pos, bytes) && Outside() == old(Outside())
    {
      hide Valid, Fitting, Content, Outside, Quot, Rem, Spliced;
      o' := o;
      BlockSize();
      assert bytes[..|bytes|] == bytes;
      if bytes != [] {
        BlockAt(o, 1);
      }
      if o.cluster != Eof(vol.fat.kind) && o.pos < size && bytes != [] {
        var n := Min(|bytes|, size - o.pos);
        BlockAt(o, n);
        var rc, v := ReadBlock(o.cluster, o.block);
        Put(o, Spliced(v, 0, bytes[..n]), bytes[..n]);
        CursorMoves(o.pos, n, bs, bpc);
        Advance(o.pos, n, bs);
        o' := o.(pos := o.pos + n);
      } else {
        NothingSpliced(Content(), o.pos, bytes);
      }
    }

    // The second and third parts of FS_WRITE.
    method WriteRest(o: OpenInfo, bytes: seq<Byte>) returns (o': OpenInfo)
      requires Valid() && At(chain, vol.End(), bs, bpc, o) && o.pos + |bytes| <= size
      requires bytes != [] ==> Rem(o.pos, bs) == 0
      modifies data, vol.fat`current, vol.fat.window
      ensures Valid() && At(chain, vol.End(), bs, bpc, o') && o'.pos == o.pos + |bytes|
      ensures Content() == Spliced(old(Content()), o.pos, bytes) && Outside() == old(Outside())
    {
      hide Valid, Fitting, Content, Outside, At, Quot, Rem, Spliced;
      BlockSize();
      ghost var content := Content();
      var o1, n := WriteWhole(o, bytes);
      BlockSize();
      o' := WriteLast(o1, bytes[n..]);
      SplicedNext(content, o.pos, bytes, n, |bytes| - n);
      assert bytes[..|bytes|] == bytes && bytes[n..n + (|bytes| - n)] == bytes[n..];
      BlockSize();
    }

    // All three parts of FS_WRITE.
    method WriteAll(o: OpenInfo, bytes: seq<Byte>, h: nat)
      requires Valid() && h < |handles| && At(chain, vol.End(), bs, bpc, o) && o.pos + |bytes| <= size
      modifies data, `handles, vol.fat`current, vol.fat.window
      ensures Valid() && |handles| == old(|handles|)
      ensures handles == old(handles)[h := handles[h]] && handles[h].pos == o.pos + |bytes|
      ensures Content() == Spliced(old(Content()), o.pos, bytes) && Outside() == old(Outside())
    {
      hide Valid, Fitting, Content, Outside, At, Quot, Rem, Spliced;
      BlockSize();
      ghost var content := Content();
      var o1, n := WriteFirst(o, bytes);
      FirstDone(o.pos, |bytes|, bs, n);
      BlockSize();
      var o2 := WriteRest(o1, bytes[n..]);
      SplicedNext(content, o.pos, bytes, n, |bytes| - n);
      assert bytes[..|bytes|] == bytes && bytes[n..n + (|bytes| - n)] == bytes[n..];
      Leave(h, o2);
      BlockSize();
    }

    // FS_WRITE looks the next cluster up behind the old last one, instead of
    // repositioning, when the cursor is unknown and the write appends at a block border.
    ghost predicate Shortcut(o: OpenInfo)
      requires bs > 0
      reads `chain, `size
    {
      chain != [] && o.cluster == vol.End() && o.pos == size && Rem(size, bs) == 0
    }

    // The chain the write needs is longer than the one the file has.
    ghost predicate NeedsClusters(o: OpenInfo, n: nat)
      requires clusterSize > 0
      reads `chain
    {
      |chain| < Needed(o.pos + n, clusterSize)
    }

    // The file and the FAT after room was made for `n` bytes.
    ghost predicate GrownTo(s: FatState, s': FatState, cs: seq<nat>, cs': seq<nat>, was: nat, now: nat, n: nat)
      requires clusterSize > 0
    {
      if n <= was then now == was && cs' == cs && s' == s
      else (
        && now == n && Resized(s, s', cs, cs', Needed(n, clusterSize))
        && FatRuns.OthersKept(vol.fat.kind, s.f, s'.f, cs, cs'))
    }

    lemma GrownIs(s: FatState, s': FatState, cs: seq<nat>, cs': seq<nat>, was: nat, now: nat, n: nat)
      requires clusterSize > 0 && GrownTo(s, s', cs, cs', was, now, n)
      ensures now == (if n <= was then was else n) && s'.free + |cs'| == s.free + |cs|
    {
      if n > was {
        ResizedIs(s, s', cs, cs', Needed(n, clusterSize));
      }
    }

    // With the shortcut and new clusters, the cursor is right if and only if the old
    // size was a whole number of clusters and the cached block was the first.
    lemma ShortcutExact(o: OpenInfo, cs: seq<nat>, more: seq<nat>)
      requires bs > 0 && bpc > 0 && clusterSize == bs * bpc && clusterSize > 0 && o.block < bpc
      requires cs != [] && more != [] && Distinct(cs + more) && |cs| == Needed(o.pos, clusterSize)
      requires Rem(o.pos, bs) == 0
      ensures At(cs + more, vol.End(), bs, bpc, o.(cluster := more[0])) <==>
        Rem(o.pos, clusterSize) == 0 && o.block == 0
    {
      hide Quot, Rem;
      QuotQuot(o.pos, bs, bpc);
      var all, i := cs + more, ClusterIndex(o.pos, bs, bpc);
      assert all[|cs|] == more[0];
      if Rem(o.pos, clusterSize) == 0 {
        NoRemainder(Rem(Quot(o.pos, bs), bpc), bs);
      } else {
        assert i == |cs| - 1 && all[i] != all[|cs|];
      }
    }

    // With one block per cluster FS_WRITE can always be called: the shortcut is right
    // whenever it is taken.
    lemma OneBlock(h: nat, n: nat)
      requires Valid() && h < |handles| && bpc == 1
      ensures Shortcut(handles[h]) && NeedsClusters(handles[h], n) ==>
        Rem(size, clusterSize) == 0 && handles[h].block == 0
    {
    }

    // With two it can go astray: behind one full block of a cluster of two, the shortcut
    // points at the next cluster.
    lemma Astray(o: OpenInfo)
      requires bs == 512 && bpc == 2 && clusterSize == 1024 && o.pos == 512 && o.block < 2
      ensures !At([2, 3], vol.End(), bs, bpc, o.(cluster := 3))
    {
      assert Needed(512, 1024) == 1 && Rem(512, 512) == 0 && Rem(512, 1024) == 512;
      assert [2] + [3] == [2, 3];
      ShortcutExact(o, [2], [3]);
    }

    static lemma NoRemainder(r: nat, d: nat)
      requires d > 0 && r * d == 0
      ensures r == 0
    {
    }

    // The cursor of an appending write: what is behind the old last cluster, if the
    // shortcut was taken.
    method Follow(o: OpenInfo, behind: nat, ghost cs: seq<nat>) returns (o': OpenInfo)
      requires Valid() && HandleOk(cs, vol.End(), bs, bpc, o) && cs <= chain
      requires behind != vol.End() ==>
        cs != [] && behind == cs[|cs| - 1] && Rem(o.pos, bs) == 0 && |cs| == Needed(o.pos, clusterSize)
      modifies vol.fat`current, vol.fat.window
      ensures Valid() && o'.pos == o.pos
      ensures if behind != vol.End() && |cs| < |chain| && !(Rem(o.pos, clusterSize) == 0 && o.block == 0)
        then o' == o.(cluster := chain[|cs|]) && !At(chain, vol.End(), bs, bpc, o')
        else HandleOk(chain, vol.End(), bs, bpc, o')
      ensures behind != vol.End() ==> (o'.cluster != vol.End() <==> |cs| < |chain|)
    {
      hide Quot, Rem, Needed, Fitting, HandlesOk;
      o' := o;
      if behind != Eof(vol.fat.kind) {
        var c := Next(behind, |cs| - 1);
        o' := o.(cluster := c);
        if |cs| < |chain| {
          assert chain == cs + chain[|cs|..];
          ShortcutExact(o, cs, chain[|cs|..]);
          InsideGrown(o.pos, bs, bpc);
        }
      }
    }

    // The position after a whole number of clusters is in the next cluster.
    static lemma InsideGrown(pos: nat, bs: nat, bpc: nat)
      requires bs > 0 && bpc > 0
      ensures bs * bpc > 0 && (Rem(pos, bs * bpc) == 0 ==> ClusterIndex(pos, bs, bpc) == Needed(pos, bs * bpc))
    {
      QuotQuot(pos, bs, bpc);
    }

    // The shortcut of a write of `n` bytes leads to a wrong cursor.
    ghost predicate Misled(o: OpenInfo, n: nat)
      requires bs > 0 && clusterSize > 0
      reads `chain, `size
    {
      Shortcut(o) && NeedsClusters(o, n) && !(Rem(size, clusterSize) == 0 && o.block == 0)
    }

    // The first steps of FS_WRITE: make room, and find the cursor. With `astray` the
    // shortcut has led to a cursor that does not point at the position.
    method MakeRoom(o: OpenInfo, n: nat) returns (rc: nat, o': OpenInfo, astray: bool)
      requires Valid() && HandleOk(chain, vol.End(), bs, bpc, o) && n > 0
      modifies this, vol, vol.fat, vol.fat.disk, vol.fat.window
      ensures Valid() && handles == old(handles) && o'.pos == o.pos
      ensures rc == if o.pos + n <= old(size) || Needed(o.pos + n,
        clusterSize) <= old(|chain|) + old(vol.free) then NO_ERROR else ERROR_DISK_FULL
      ensures rc != NO_ERROR ==>
        size == old(size) && chain == old(chain) && vol.State() == old(vol.State())
      ensures astray <==> rc == NO_ERROR && old(Misled(o, n))
      ensures rc == NO_ERROR ==> (astray <==> !At(chain, vol.End(), bs, bpc, o'))
      ensures rc == NO_ERROR ==>
        && o.pos + n <= size && old(size) <= size && old(chain) <= chain
        && GrownTo(old(vol.State()), vol.State(), old(chain), chain, old(size), size, o.pos + n)
        && Content()[..old(size)] == old(Content())
    {
      hide FatTable.Backed, FatTable.Geometry, FatTable.BlockOf, FatTable.Blocks;
      hide Quot, Rem, Fitting, Content, HandleOk, Store, FatRuns.OthersKept, FreeSet, HandlesOk, Resized, Needed;
      hide IsChain, At;
      BlockSize();
      o', rc, astray := o, NO_ERROR, false;
      ghost var cs, s := chain, vol.State();
      if o.pos + n > size {
        var behind := Eof(vol.fat.kind);
        if o.cluster == Eof(vol.fat.kind) && o.pos == size && Rem(size, bs) == 0 {
          behind := last;
        }
        LastCluster();
        NeededMono(size, o.pos + n, clusterSize);
        rc := NewSize(o.pos + n);
        if rc != NO_ERROR {
          return;
        }
        BlockSize();
        GrowsPrefix(s, vol.State(), cs, chain, Needed(size, clusterSize));
        o' := Follow(o, behind, cs);
        astray := behind != Eof(vol.fat.kind) && o'.cluster != Eof(vol.fat.kind)
          && !(Rem(o.pos, clusterSize) == 0 && o.block == 0);
        if astray {
          return;
        }
      }
      o' := Reposition(o');
      BlockSize();
    }

    lemma LastCluster()
      requires Valid()
      ensures |chain| == Needed(size, clusterSize)
      ensures last == if chain == [] then vol.End() else chain[|chain| - 1]
      ensures chain != [] ==> last != vol.End()
    {
    }

    // The byte that a block of the chain `cs` holds for position `p` of a file.
    ghost function HeldAt(cs: seq<nat>, p: nat): Byte
      requires Store() && ClusterIndex(p, bs, bpc) < |cs| && forall i :: 0 <= i < |cs| ==> cs[i] < data.Length0
      reads data
    {
      data[cs[ClusterIndex(p, bs, bpc)], BlockInCluster(p, bs, bpc)][Rem(p, bs)]
    }

    // FS_WRITE: exactly the bytes from the position on are replaced, the file grows to
    // hold them, and when it cannot, nothing changes. Bytes between the old end and the
    // position are whatever the clusters held. With `astray` the shortcut is misled and
    // the driver writes at a wrong cluster or block, which is not followed any further.
    method FsWrite(h: nat, bytes: seq<Byte>) returns (rc: nat, written: nat, astray: bool)
      requires Valid() && h < |handles|
      modifies this, data, vol, vol.fat, vol.fat.disk, vol.fat.window
      ensures astray <==> rc == NO_ERROR && bytes != [] && old(Misled(handles[h], |bytes|))
      ensures rc == 0 || rc == 87 || rc == 112
      ensures |handles| == old(|handles|) && (!astray ==> Valid())
      ensures var end := old(handles[h].pos) + |bytes|;
        rc == if bytes == [] then NO_ERROR
              else if end >= limit || old(size) + |bytes| >= limit then ERROR_INVALID_PARAMETER
              else if end <= old(size) || Needed(end, clusterSize) <= old(|chain| + vol.free) then NO_ERROR
              else ERROR_DISK_FULL
      ensures rc != NO_ERROR || bytes == [] ==>
        && written == 0 && size == old(size) && chain == old(chain) && vol.State() == old(vol.State())
        && Content() == old(Content()) && handles == old(handles)
      ensures rc == NO_ERROR && bytes != [] && !astray ==>
        var pos := old(handles[h].pos);
        && written == |bytes| && handles[h].pos == pos + |bytes| && handles == old(handles)[h := handles[h]]
        && GrownTo(old(vol.State()), vol.State(), old(chain), chain, old(size), size, pos + |bytes|)
        && size == (if pos + |bytes| <= old(size) then old(size) else pos + |bytes|)
        && vol.free + |chain| == old(vol.free + |chain|)
        && pos + |bytes| <= size && Content()[pos..pos + |bytes|] == bytes
        && (forall p :: 0 <= p < old(size) && !(pos <= p < pos + |bytes|) ==> Content()[p] == old(Content())[p])
      ensures rc == NO_ERROR && bytes != [] && !astray ==>
        var cs := chain;
        forall p :: old(size) <= p < old(handles[h].pos) ==>
          && ClusterIndex(p, bs, bpc) < |cs| && (forall i :: 0 <= i < |cs| ==> cs[i] < data.Length0)
          && Content()[p] == old(HeldAt(cs, p))
      ensures !astray ==> Untouched(old(Outside()), Outside())
      ensures !astray ==> forall c: nat, b: nat :: c < data.Length0 && b < data.Length1 && c !in chain ==>
        data[c, b] == old(data[c, b])
    {
      hide FatTable.Backed, FatTable.Geometry, FatTable.BlockOf, FatTable.Blocks, Untouched, GrownTo;
      hide Quot, Rem, Fitting, Content, HandleOk, ChainOk, Store, FreeSet, HandlesOk, Needed, At, OutsideOf;
      BlockSize();
      rc, written, astray := NO_ERROR, 0, false;
      ghost var cs, content, out := chain, Content(), Outside();
      ghost var s, was := vol.State(), size;
      OutsideIs(chain);
      StillUntouched(cs);
      if bytes == [] {
        return;
      }
      if handles[h].pos + |bytes| >= limit || size + |bytes| >= limit {
        return ERROR_INVALID_PARAMETER, 0, false;
      }
      HandleIs(h);
      var o;
      rc, o, astray := MakeRoom(handles[h], |bytes|);
      StillUntouched(cs);
      BlockSize();
      if rc != NO_ERROR || astray {
        return;
      }
      GapBytes(chain, o.pos);
      GrownIs(s, vol.State(), cs, chain, was, size, o.pos + |bytes|);
      BlockAt(o, 1);
      if o.cluster == Eof(vol.fat.kind) {
        assert false;   // ERROR_INVALID_HANDLE: room was made for the position
      }
      ghost var grown := Content();
      WriteAll(o, bytes, h);
      written := |bytes|;
      SplicedBytes(grown, content, o.pos, bytes);
      BlockSize();
      SameOutside(out);
    }

    lemma OutsideIs(cs: seq<nat>)
      ensures forall c: nat, b: nat :: (c, b) in OutsideOf(cs) <==> c < data.Length0 && b < data.Length1 && c !in cs
      ensures forall c: nat, b: nat :: (c, b) in OutsideOf(cs) ==> OutsideOf(cs)[(c, b)] == data[c, b]
    {
    }

    lemma SameOutside(was: imap<(nat, nat), Block>)
      requires Untouched(was, Outside())
      ensures forall c: nat, b: nat :: c < data.Length0 && b < data.Length1 && c !in chain ==>
        (c, b) in was && data[c, b] == was[(c, b)]
    {
      forall c: nat, b: nat | c < data.Length0 && b < data.Length1 && c !in chain
        ensures (c, b) in was && data[c, b] == was[(c, b)]
      {
        assert (c, b) in Outside();
      }
    }

    // What the file holds is what its blocks hold.
    lemma GapBytes(cs: seq<nat>, pos: nat)
      requires Valid() && cs == chain && pos <= size
      ensures Store() && forall i :: 0 <= i < |cs| ==> cs[i] < data.Length0
      ensures forall p :: 0 <= p < pos ==> ClusterIndex(p, bs, bpc) < |cs| && Content()[p] == HeldAt(cs, p)
    {
    }

    lemma HandleIs(h: nat)
      requires Valid() && h < |handles|
      ensures HandleOk(chain, vol.End(), bs, bpc, handles[h])
    {
    }

    static lemma SplicedBytes(s: seq<Byte>, content: seq<Byte>, pos: nat, bytes: seq<Byte>)
      requires pos + |bytes| <= |s| && |content| <= |s| && s[..|content|] == content
      ensures Spliced(s, pos, bytes)[pos..pos + |bytes|] == bytes
      ensures forall p :: 0 <= p < |content| && !(pos <= p < pos + |bytes|) ==> Spliced(s, pos, bytes)[p] == content[p]
    {
    }
  }
}

// CopyChain: a second chain with the same blocks.
module ChainCopy {
  import opened Common
  import opened FatCodec
  import opened FatChains
  import opened FatTable
  import opened FileBytes
  import opened FileLayer
  import opened Volume
  import FatRuns

  type Image = imap<(nat, nat), Block>

  // The blocks of the first `n` clusters of `cs` are in those of `ns` as well, and
  // clusters outside `ns` hold what they held.
  ghost predicate Copied(was: Image, now: Image, cs: seq<nat>, ns: seq<nat>, bpc: nat, n: nat) {
    && was.Keys == now.Keys && n <= |cs| == |ns|
    && (forall k :: k in was && k.0 !in ns ==> now[k] == was[k])
    && (forall i, b: nat :: 0 <= i < n && b < bpc && (ns[i], b) in now && (cs[i], b) in was ==>
        now[(ns[i], b)] == was[(cs[i], b)])
  }

  lemma CopiedNext(was: Image, mid: Image, now: Image, cs: seq<nat>, ns: seq<nat>, bpc: nat, n: nat)
    requires Copied(was, mid, cs, ns, bpc, n) && n < |cs| && Distinct(ns) && cs[n] !in ns && now.Keys == mid.Keys
    requires forall k: (nat, nat) :: k in mid && k.0 != ns[n] ==> now[k] == mid[k]
    requires forall b: nat :: b < bpc && (ns[n], b) in mid && (cs[n], b) in mid ==> now[(ns[n], b)] == mid[(cs[n], b)]
    ensures Copied(was, now, cs, ns, bpc, n + 1)
  {
    forall i, b: nat | 0 <= i < n + 1 && b < bpc && (ns[i], b) in now && (cs[i], b) in was
      ensures now[(ns[i], b)] == was[(cs[i], b)]
    {
      if i < n {
        assert ns[i] != ns[n];
      }
    }
  }

  class Copier {
    const vol: Volume
    const data: array2<Block>     // data[c, b]: block b of cluster c

    ghost predicate Valid()
      reads this, vol, vol.fat, vol.fat.disk, vol.fat.window
    {
      vol.Valid() && vol.free == |FreeSet(vol.fat.entries)| && data.Length0 == vol.Top() && data != vol.fat.disk
    }

    ghost function Blocks(): Image
      reads data
    {
      imap k: (nat, nat) | k.0 < data.Length0 && k.1 < data.Length1 :: data[k.0, k.1]
    }

    constructor (vol: Volume, data: array2<Block>)
      requires vol.Valid() && vol.free == |FreeSet(vol.fat.entries)| && data.Length0 == vol.Top()
      requires data != vol.fat.disk
      ensures Valid() && this.vol == vol && this.data == data
    {
      this.vol, this.data := vol, data;
    }

    // GetNextCluster on a chain.
    method Next(c: nat, ghost cs: seq<nat>, ghost i: nat) returns (r: nat)
      requires Valid() && IsChain(vol.fat.kind, vol.fat.entries, cs) && i < |cs| && c == cs[i]
      modifies vol.fat`current, vol.fat.window
      ensures Valid() && r == if i + 1 < |cs| then cs[i + 1] else vol.End()
    {
      hide FatTable.Backed, FatTable.Geometry, FatTable.BlockOf, FatTable.Blocks;
      r := vol.GetNextCluster(c);
      assert i + 1 < |cs| ==> vol.fat.entries[cs[i]] == cs[i + 1];
      ChainNonZero(vol.fat.kind, vol.fat.entries, cs, i);
    }

    // The inner loop: ReadBlock and WriteBlock for every block of a cluster. Clusters of
    // a chain can be read and written.
    method CopyCluster(from: nat, to: nat)
      requires from < data.Length0 && to < data.Length0 && from != to
      modifies data
      ensures forall k: (nat, nat) :: k in Blocks() && k.0 != to ==>
        k in old(Blocks()) && Blocks()[k] == old(Blocks())[k]
      ensures forall b: nat :: b < data.Length1 ==>
        (to, b) in Blocks() && (from, b) in old(Blocks()) && Blocks()[(to, b)] == old(Blocks())[(from, b)]
      ensures Blocks().Keys == old(Blocks()).Keys
    {
      var b := 0;
      while b < data.Length1
        invariant b <= data.Length1
        invariant forall c, x :: 0 <= c < data.Length0 && 0 <= x < data.Length1 ==>
          data[c, x] == old(data[if c == to && x < b then from else c, x])
      {
        data[to, b] := data[from, b];
        b := b + 1;
      }
    }

    // CopyChain: all or nothing. The copy takes free clusters only, and every chain
    // there was, the source among them, is still one and holds what it held.
    method CopyChain(cluster: nat, ghost cs: seq<nat>) returns (rc: nat, first: nat, ghost ns: seq<nat>)
      requires Valid() && (cluster == 0 || (IsChain(vol.fat.kind, vol.fat.entries, cs) && cluster == cs[0]))
      modifies vol, vol.fat, vol.fat.disk, vol.fat.window, data
      ensures Valid()
      ensures rc == if cluster == 0 || |cs| <= old(vol.free) then 0 else 112
      ensures cluster == 0 ==> first == 0
      ensures cluster == 0 || rc != NO_ERROR ==> vol.State() == old(vol.State()) && Blocks() == old(Blocks())
      ensures rc != NO_ERROR ==> first == vol.End()
      ensures cluster != 0 && rc == NO_ERROR ==>
        && ns != [] && first == ns[0] && IsChain(vol.fat.kind, vol.fat.entries, ns)
        && Resized(old(vol.State()), vol.State(), [], ns, |cs|)
        && FatRuns.OthersKept(vol.fat.kind, old(vol.fat.entries), vol.fat.entries, [], ns)
        && Copied(old(Blocks()), Blocks(), cs, ns, data.Length1, |cs|)
    {
      hide FatTable.Backed, FatTable.Geometry, FatTable.BlockOf, FatTable.Blocks;
      hide FreeSet, WellFormed, Resized, FatRuns.OthersKept, Rounds, Appended, Flat, Volume.Allocated, Copied, Blocks;
      hide IsChain;
      ns := [];
      if cluster == 0 {
        return NO_ERROR, 0, ns;
      }
      var count := vol.GetChainSize(cluster, cs);
      FatRuns.ChainCells(vol.fat.kind, vol.fat.entries, cs, 0);
      if count == 0 {
        assert false;       // a chain has a cluster
      }
      ghost var t, s := vol.fat.kind, vol.State();
      var last;
      ghost var runs;
      first, last, runs := vol.MakeFatChain(vol.End(), count, 0);
      if first == Eof(vol.fat.kind) {
        return ERROR_DISK_FULL, first, ns;
      }
      Grown(t, s, vol.State(), vol.End(), count, runs, first, last, []);
      ns := [] + Flat(runs);
      StillThere(t, s.f, vol.fat.entries, cs, ns);
      rc := CopyBlocks(cluster, first, cs, ns);
    }

    // The outer loop.
    method CopyBlocks(cluster: nat, first: nat, ghost cs: seq<nat>, ghost ns: seq<nat>) returns (rc: nat)
      requires Valid() && IsChain(vol.fat.kind, vol.fat.entries, cs) && IsChain(vol.fat.kind, vol.fat.entries, ns)
      requires |cs| == |ns| && FatRuns.Disjoint(cs, ns) && cluster == cs[0] && first == ns[0]
      modifies vol.fat`current, vol.fat.window, data
      ensures Valid() && rc == NO_ERROR && Copied(old(Blocks()), Blocks(), cs, ns, data.Length1, |cs|)
    {
      hide FatTable.Backed, FatTable.Geometry, FatTable.BlockOf, FatTable.Blocks, Blocks, Copied;
      ghost var was := Blocks();
      NothingCopied(was, cs, ns);
      var c, n := cluster, first;
      ghost var i := 0;
      while c != Eof(vol.fat.kind) && n != Eof(vol.fat.kind)
        invariant Valid() && i <= |cs| && c == (if i < |cs| then cs[i] else vol.End()) && (i < |cs| ==> n == ns[i])
        invariant Copied(was, Blocks(), cs, ns, data.Length1, i)
        decreases |cs| - i
      {
        ghost var mid := Blocks();
        assert cs[i] in cs && ns[i] in ns;
        CopyCluster(c, n);
        CopiedNext(was, mid, Blocks(), cs, ns, data.Length1, i);
        c := Next(c, cs, i);
        i := i + 1;
        if c == Eof(vol.fat.kind) {
          break;
        }
        n := Next(n, ns, i - 1);
        if n == Eof(vol.fat.kind) {
          assert false;     // SetNextCluster(FAT_ASSIGN_NEW) is never needed: both chains are as long
        }
      }
      if c != Eof(vol.fat.kind) {
        assert false;       // so the copy is never cut short and deleted again
      }
      rc := NO_ERROR;
    }

    lemma NothingCopied(was: Image, cs: seq<nat>, ns: seq<nat>)
      requires was == Blocks() && |cs| == |ns|
      ensures Copied(was, Blocks(), cs, ns, data.Length1, 0)
    {
    }

    static lemma StillThere(t: FatType, f: Fat, g: Fat, cs: seq<nat>, ns: seq<nat>)
      requires IsChain(t, f, cs) && FatRuns.OthersKept(t, f, g, [], ns)
      ensures IsChain(t, g, cs) && FatRuns.Disjoint(cs, ns)
    {
      assert FatRuns.Disjoint([], cs);
      assert FatRuns.KeptApart(t, g, cs, ns);
    }
  }
}

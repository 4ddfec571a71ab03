// The FAT on disk, reached through a window of one three-sector block
// (pbFatSector, ulCurFatSector). The ghost field `entries` is the flat FAT the
// rest of the driver thinks in: the window's bytes where the window is, the
// first copy's bytes everywhere else.
module FatTable {
  import opened Common
  import opened FatCodec

  type Sector = seq<Byte>

  function FatBytes(size: SectorSize, sectors: nat): nat {
    match size
    case S512 => 512 * sectors
    case S1024 => 1024 * sectors
    case S2048 => 2048 * sectors
    case S4096 => 4096 * sectors
  }

  class FatTable {
    const kind: FatType
    const size: SectorSize          // BytesPerSector
    const sectorsPerFat: nat
    const mirrored: bool            // bit 0x80 of ExtFlags is clear
    const total: nat                // ulTotalClusters
    const disk: array2<Sector>      // disk[k, s]: sector s of FAT copy k
    const window: array<Byte>       // pbFatSector
    var current: int                // ulCurFatSector, -1 while nothing is loaded
    ghost var dirty: bool           // the window may differ from the disk
    ghost var entries: seq<nat>

    ghost predicate Geometry() {
      && (0 < sectorsPerFat < 3 || (sectorsPerFat >= 3 && sectorsPerFat % 3 == 0))
      && disk.Length0 > 0 && disk.Length1 == sectorsPerFat
      && window.Length == WindowBytes(size)
      && 0 < total && total + 2 <= Bad(kind)
      && ByteOffset(kind, total + 1) + Width(kind) <= FatBytes(size, sectorsPerFat)
    }

    function BlockSectors(): nat { if sectorsPerFat < 3 then sectorsPerFat else 3 }

    function Blocks(): nat { if sectorsPerFat < 3 then 1 else sectorsPerFat / 3 }

    function BlockBytes(): nat { FatBytes(size, BlockSectors()) }

    // GetFatEntrySec: the block that holds an entry, and where in the block it lies.
    function BlockOf(cluster: nat): nat
    {
      BlockAt(size, ByteOffset(kind, cluster))
    }

    function At(cluster: nat): nat
    {
      OffsetAt(size, ByteOffset(kind, cluster))
    }

    // The bytes of block `b` in copy `k` of the FAT.
    ghost function Stored(k: nat, b: nat): (r: seq<Byte>)
      requires Geometry() && k < disk.Length0 && b < Blocks()
      requires forall s :: 0 <= s < sectorsPerFat ==> |disk[k, s]| == Bytes(size)
      reads disk
      ensures |r| == BlockBytes()
    {
      var s := 3 * b;
      if sectorsPerFat == 1 then disk[k, s]
      else if sectorsPerFat == 2 then disk[k, s] + disk[k, s + 1]
      else disk[k, s] + disk[k, s + 1] + disk[k, s + 2]
    }

    ghost predicate SectorsFull()
      reads disk
    {
      forall k, s :: 0 <= k < disk.Length0 && 0 <= s < disk.Length1 ==> |disk[k, s]| == Bytes(size)
    }

    ghost predicate CopiesAgree()
      requires Geometry() && SectorsFull()
      reads disk
    {
      forall k: nat, b: nat :: k < disk.Length0 && b < Blocks() ==> Stored(k, b) == Stored(0, b)
    }

    // Block `b` as the driver sees it.
    ghost function Seen(b: nat): (r: seq<Byte>)
      requires Geometry() && SectorsFull() && b < Blocks()
      reads this, disk, window
      ensures |r| == BlockBytes()
    {
      if b == current then window[..BlockBytes()] else Stored(0, b)
    }

    ghost predicate EntrySeen(c: nat)
      requires Geometry() && SectorsFull() && c < |entries|
      reads this, disk, window
    {
      && BlockOf(c) < Blocks() && At(c) + Width(kind) <= BlockBytes()
      && entries[c] == Decode(kind, Seen(BlockOf(c)), At(c), c)
    }

    ghost predicate Shape()
      reads this
    {
      && Geometry()
      && 0 < total && total + 2 <= Bad(kind)
      && |entries| == total + 2
      && -1 <= current < Blocks()
      && (dirty ==> current >= 0)
    }

    // The bytes agree with `entries`: callers need not look inside.
    ghost predicate Backed()
      requires Shape()
      reads this, disk, window
    {
      && SectorsFull()
      && (!dirty && current >= 0 ==> window[..BlockBytes()] == Stored(0, current))
      && (mirrored ==> CopiesAgree())
      && forall c: nat :: c < |entries| ==> EntrySeen(c)
    }

    ghost predicate Valid()
      reads this, disk, window
    {
      Shape() && Backed()
    }

    lemma EntryInBlock(c: nat)
      requires Geometry() && c < total + 2
      ensures BlockOf(c) < Blocks() && At(c) + Width(kind) <= BlockBytes()
    {
      var q, r := Locate(size, ByteOffset(kind, c));
      NoStraddle(kind, size, c);
      assert ByteOffset(kind, c) <= ByteOffset(kind, total + 1);
      assert sectorsPerFat >= 3 ==> sectorsPerFat == 3 * Blocks();
    }

    // Mount: nothing is loaded yet, so the flat FAT is the first copy's.
    constructor (kind: FatType, size: SectorSize, mirrored: bool, total: nat, disk: array2<Sector>)
      requires 0 < disk.Length1 < 3 || (disk.Length1 >= 3 && disk.Length1 % 3 == 0)
      requires disk.Length0 > 0 && total > 0 && total + 2 <= Bad(kind)
      requires ByteOffset(kind, total + 1) + Width(kind) <= FatBytes(size, disk.Length1)
      requires forall k, s :: 0 <= k < disk.Length0 && 0 <= s < disk.Length1 ==> |disk[k, s]| == Bytes(size)
      requires mirrored ==> forall k, s :: 0 <= k < disk.Length0 && 0 <= s < disk.Length1 ==> disk[k, s] == disk[0, s]
      ensures Valid() && !dirty && current == -1 && fresh(window)
      ensures this.kind == kind && this.total == total && this.disk == disk && this.mirrored == mirrored
      ensures this.size == size
    {
      this.kind := kind;
      this.size := size;
      this.sectorsPerFat := disk.Length1;
      this.mirrored := mirrored;
      this.total := total;
      this.disk := disk;
      this.window := new Byte[WindowBytes(size)];
      this.current := -1;
      this.dirty := false;
      new;
      forall c: nat | c < total + 2
        ensures BlockOf(c) < Blocks() && At(c) + Width(kind) <= BlockBytes()
      {
        EntryInBlock(c);
      }
      entries := seq(total + 2, c requires 0 <= c < total + 2 && Geometry() && SectorsFull()
                                           && BlockOf(c) < Blocks() && At(c) + Width(kind) <= BlockBytes() reads disk
                                => Decode(kind, Stored(0, BlockOf(c)), At(c), c));
    }

    // ReadFatSector: load block `b`. A modified window must be written first.
    method ReadFatSector(b: nat) returns (rc: nat)
      requires Valid()
      requires dirty ==> b == current || b >= Blocks()
      modifies this`current, window
      ensures Valid()
      ensures b < Blocks() ==> rc == NO_ERROR && current == b
      ensures b >= Blocks() ==> rc == ERROR_SECTOR_NOT_FOUND && current == old(current)
    {
      if sectorsPerFat < 3 && b > 0 {
        return ERROR_SECTOR_NOT_FOUND;
      }
      if current == b {
        return NO_ERROR;
      }
      if 3 * b >= sectorsPerFat {
        return ERROR_SECTOR_NOT_FOUND;
      }
      LoadBlock(b);
      rc := NO_ERROR;
    }

    // ReadSector of one block of the first copy into the window.
    method LoadBlock(b: nat)
      requires Valid() && b < Blocks() && b != current && !dirty
      modifies this`current, window
      ensures Valid() && current == b
    {
      var s := 3 * b;
      var bytes := disk[0, s];
      if sectorsPerFat >= 2 {
        bytes := bytes + disk[0, s + 1];
      }
      if sectorsPerFat >= 3 {
        bytes := bytes + disk[0, s + 2];
      }
      assert bytes == Stored(0, b);
      label before:
      ghost var cur := current;
      forall i | 0 <= i < |bytes| {
        window[i] := bytes[i];
      }
      current := b;
      assert window[..BlockBytes()] == bytes;
      forall c: nat | c < |entries| ensures EntrySeen(c) {
        assert old(EntrySeen(c));
        assert Seen(BlockOf(c)) == old(Seen(BlockOf(c)));
      }
    }

    // WriteFatSector: write the window back, to every copy when the FAT is mirrored.
    method WriteFatSector(b: int) returns (rc: nat)
      requires Valid()
      modifies disk, this`dirty
      ensures Valid()
      ensures b == current && current >= 0 ==> rc == NO_ERROR && !dirty
      ensures b != current || current < 0 ==> rc == ERROR_SECTOR_NOT_FOUND && dirty == old(dirty)
      ensures rc == NO_ERROR ==>
        forall k: nat :: k < (if mirrored then disk.Length0 else 1) ==> Stored(k, b) == window[..BlockBytes()]
      ensures forall k: nat, b': nat ::
        k < disk.Length0 && b' < Blocks() && (rc != NO_ERROR || b' != b || (k > 0 && !mirrored)) ==>
            Stored(k, b') == old(Stored(k, b'))
    {
      if sectorsPerFat < 3 && b != 0 {
        return ERROR_SECTOR_NOT_FOUND;
      }
      if current != b {
        return ERROR_SECTOR_NOT_FOUND;
      }
      if b < 0 || 3 * b >= sectorsPerFat {
        return ERROR_SECTOR_NOT_FOUND;
      }
      var copy := 0;
      while copy < disk.Length0
        invariant 0 <= copy <= disk.Length0
        invariant Geometry() && SectorsFull() && (!mirrored ==> copy == 0)
        invariant forall k: nat :: k < copy ==> Stored(k, b) == window[..BlockBytes()]
        invariant forall k: nat, b': nat :: k < disk.Length0 && b' < Blocks() && (b' != b || k >= copy) ==>
          Stored(k, b') == old(Stored(k, b'))
      {
        WriteBlock(copy, b);
        if !mirrored {
          copy := copy + 1;
          break;
        }
        copy := copy + 1;
      }
      dirty := false;
      forall c: nat | c < |entries| ensures EntrySeen(c) {
        assert old(EntrySeen(c));
      }
      rc := NO_ERROR;
    }

    lemma ThreeParts(w: seq<Byte>, copy: nat, b: nat)
      requires Geometry() && SectorsFull() && copy < disk.Length0 && b < Blocks() && BlockBytes() <= |w|
      requires disk[copy, 3 * b] == w[..Bytes(size)]
      requires sectorsPerFat >= 2 ==> disk[copy, 3 * b + 1] == w[Bytes(size)..2 * Bytes(size)]
      requires sectorsPerFat >= 3 ==> disk[copy, 3 * b + 2] == w[2 * Bytes(size)..3 * Bytes(size)]
      ensures Stored(copy, b) == w[..BlockBytes()]
    {
      var n := Bytes(size);
      if sectorsPerFat == 1 {
        assert BlockBytes() == n;
      } else if sectorsPerFat == 2 {
        assert BlockBytes() == 2 * n;
        assert w[..2 * n] == w[..n] + w[n..2 * n];
      } else {
        assert BlockBytes() == 3 * n;
        assert w[..3 * n] == w[..n] + w[n..2 * n] + w[2 * n..3 * n];
      }
    }

    // WriteSector of the window into one copy of the FAT.
    method WriteBlock(copy: nat, b: nat)
      requires Geometry() && SectorsFull() && copy < disk.Length0 && b < Blocks()
      modifies disk
      ensures SectorsFull()
      ensures Stored(copy, b) == window[..BlockBytes()]
      ensures forall k: nat, b': nat :: k < disk.Length0 && b' < Blocks() && (b' != b || k != copy) ==>
        Stored(k, b') == old(Stored(k, b'))
    {
      var s, n := 3 * b, Bytes(size);
      disk[copy, s] := window[..n];
      if sectorsPerFat >= 2 {
        disk[copy, s + 1] := window[n..2 * n];
      }
      if sectorsPerFat >= 3 {
        disk[copy, s + 2] := window[2 * n..3 * n];
      }
      ThreeParts(window[..], copy, b);
    }

    // GetFatEntry on the loaded block.
    method GetFatEntry(cluster: nat) returns (value: nat)
      requires Valid() && cluster < total + 2 && BlockOf(cluster) == current
      ensures value == entries[cluster]
    {
      assert EntrySeen(cluster);
      value := Decode(kind, window[..BlockBytes()], At(cluster), cluster);
    }

    // SetFatEntry on the loaded block: in the flat FAT exactly one entry changes.
    method SetFatEntry(cluster: nat, value: nat)
      requires Valid() && cluster < total + 2 && BlockOf(cluster) == current
      modifies window, this`dirty, this`entries
      ensures Valid()
      ensures entries == old(entries)[cluster := Masked(kind, value)]
    {
      assert EntrySeen(cluster);
      var v := Masked(kind, value);
      var was := window[..BlockBytes()];
      var now := Encode(kind, was, At(cluster), cluster, v);
      forall i | 0 <= i < |now| {
        window[i] := now[i];
      }
      dirty := true;
      entries := entries[cluster := v];
      assert window[..BlockBytes()] == now;
      forall c: nat | c < |entries| ensures EntrySeen(c) {
        assert old(EntrySeen(c));
        if c == cluster {
          DecodeEncoded(kind, was, At(c), c, v);
        } else if BlockOf(c) == current {
          SameBlock(c, cluster);
          EncodeKeepsOthers(kind, was, At(cluster), cluster, v, At(c), c);
        }
      }
    }

    lemma SameBlock(c: nat, d: nat)
      requires BlockOf(c) == BlockOf(d)
      ensures At(c) - At(d) == ByteOffset(kind, c) - ByteOffset(kind, d)
    {
      var q, r := Locate(size, ByteOffset(kind, c));
      var q', r' := Locate(size, ByteOffset(kind, d));
    }

    // Once the window is written back, the disk alone holds the flat FAT; with
    // mirroring every copy does.
    lemma OnDisk(k: nat, c: nat)
      requires Valid() && !dirty && k < disk.Length0 && c < total + 2 && (mirrored || k == 0)
      ensures BlockOf(c) < Blocks() && At(c) + Width(kind) <= BlockBytes()
      ensures entries[c] == Decode(kind, Stored(k, BlockOf(c)), At(c), c)
    {
      assert EntrySeen(c);
      assert Stored(k, BlockOf(c)) == Stored(0, BlockOf(c));
    }

    // The same bit by bit: the sectors of a copy, one behind the other, are one string of
    // bits, and bit `bit` of entry `c` is its bit 12c, 16c or 32c + `bit`.
    lemma BitOnDisk(k: nat, c: nat, bit: nat, q: nat, s: nat, o: nat)
      requires Valid() && !dirty && k < disk.Length0 && c < total + 2 && (mirrored || k == 0)
      requires bit < match kind case Fat12 => 12 case Fat16 => 16 case Fat32 => 28
      requires q == ((match kind case Fat12 => 12 case Fat16 => 16 case Fat32 => 32) * c + bit) / 8
      requires q == s * Bytes(size) + o && o < Bytes(size)
      ensures s < sectorsPerFat && o < |disk[k, s]|
      ensures var p := (match kind case Fat12 => 12 case Fat16 => 16 case Fat32 => 32) * c + bit;
        Bit(entries[c], bit) == Bit(disk[k, s][o], p % 8)
    {
      hide Bit, Decode, ByteOffset, Stored;
      OnDisk(k, c);
      var b, _ := Locate(size, ByteOffset(kind, c));
      var base := b * WindowBytes(size);
      Layout(kind, Stored(k, b), base, c, bit);
      InSector(b, base, q, s, o);
      StoredByte(k, b, q - base, s, o);
    }

    // A byte of a block in its sector.
    lemma InSector(b: nat, base: nat, q: nat, s: nat, o: nat)
      requires Geometry() && b < Blocks() && base == b * WindowBytes(size) && base <= q < base + BlockBytes()
      requires q == s * Bytes(size) + o && o < Bytes(size)
      ensures 3 * b <= s < 3 * b + BlockSectors() && s < sectorsPerFat && q - base == (s - 3 * b) * Bytes(size) + o
    {
      match size
      case S512 => assert base == 1536 * b;
      case S1024 => assert base == 3072 * b;
      case S2048 => assert base == 6144 * b;
      case S4096 => assert base == 12288 * b;
    }

    lemma StoredByte(k: nat, b: nat, j: nat, s: nat, o: nat)
      requires Geometry() && SectorsFull() && k < disk.Length0 && b < Blocks() && s < sectorsPerFat
      requires 3 * b <= s < 3 * b + BlockSectors() && o < Bytes(size) && j == (s - 3 * b) * Bytes(size) + o
      ensures j < |Stored(k, b)| && Stored(k, b)[j] == disk[k, s][o]
    {
      if s == 3 * b {
      } else if s == 3 * b + 1 {
      } else {
        assert s == 3 * b + 2;
      }
    }
  }
}

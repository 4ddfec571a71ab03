// The byte layout of one FAT entry for FAT12, FAT16 and FAT32, and the fact
// that makes a three-sector window a usable unit: no entry straddles it.
module FatCodec {

  type Byte = x: int | 0 <= x < 256

  datatype FatType = Fat12 | Fat16 | Fat32

  // BPB_BytsPerSec may only be one of these (Microsoft FAT Specification, section 3.1).
  datatype SectorSize = S512 | S1024 | S2048 | S4096

  function Bytes(size: SectorSize): nat {
    match size case S512 => 512 case S1024 => 1024 case S2048 => 2048 case S4096 => 4096
  }

  // A window is one block of three sectors. The block an FAT byte offset falls
  // into, and the offset inside that block.
  function WindowBytes(size: SectorSize): nat { 3 * Bytes(size) }

  function BlockAt(size: SectorSize, offset: nat): nat {
    match size
    case S512 => offset / 1536
    case S1024 => offset / 3072
    case S2048 => offset / 6144
    case S4096 => offset / 12288
  }

  function OffsetAt(size: SectorSize, offset: nat): nat {
    match size
    case S512 => offset % 1536
    case S1024 => offset % 3072
    case S2048 => offset % 6144
    case S4096 => offset % 12288
  }

  // Largest entry value of a FAT type; it is also the end-of-chain mark and the value mask.
  function Eof(t: FatType): nat {
    match t
    case Fat12 => 0x0FFF
    case Fat16 => 0xFFFF
    case Fat32 => 0x0FFF_FFFF
  }

  // First of the values that end a chain.
  function Eof2(t: FatType): nat { Eof(t) - 7 }

  function Bad(t: FatType): nat { Eof(t) - 8 }

  // `value & ulFatEof`: every mask is one less than a power of two.
  function Masked(t: FatType, value: nat): (r: nat)
    ensures r <= Eof(t) && (value <= Eof(t) ==> r == value)
  {
    match t
    case Fat12 => value % 0x1000
    case Fat16 => value % 0x1_0000
    case Fat32 => value % 0x1000_0000
  }

  function Width(t: FatType): nat { if t.Fat32? then 4 else 2 }

  function ByteOffset(t: FatType, cluster: nat): nat {
    match t
    case Fat12 => cluster * 3 / 2
    case Fat16 => cluster * 2
    case Fat32 => cluster * 4
  }

  function Word(bytes: seq<Byte>, at: nat): nat
    requires at + 2 <= |bytes|
  {
    var lo: int, hi: int := bytes[at], bytes[at + 1];
    lo + 256 * hi
  }

  // GetFatEntryEx: the entry of `cluster`, whose bytes start at `at`.
  function Decode(t: FatType, bytes: seq<Byte>, at: nat, cluster: nat): (v: nat)
    requires at + Width(t) <= |bytes|
    ensures v <= Eof(t)
  {
    match t
    case Fat12 =>
      if cluster * 3 % 2 == 1 then Word(bytes, at) / 16 else Word(bytes, at) % 0x1000
    case Fat16 => Word(bytes, at)
    case Fat32 => (Word(bytes, at) + 0x1_0000 * Word(bytes, at + 2)) % 0x1000_0000
  }

  function PutWord(bytes: seq<Byte>, at: nat, w: nat): (r: seq<Byte>)
    requires at + 2 <= |bytes| && w < 0x1_0000
    ensures |r| == |bytes|
  {
    bytes[at := w % 256][at + 1 := w / 256]
  }

  // SetFatEntryEx: store an already masked value. A FAT12 entry shares one byte
  // with its neighbour; a FAT32 entry is overwritten in all its 32 bits.
  function Encode(t: FatType, bytes: seq<Byte>, at: nat, cluster: nat, value: nat): (r: seq<Byte>)
    requires at + Width(t) <= |bytes| && value <= Eof(t)
    ensures |r| == |bytes|
  {
    match t
    case Fat12 =>
      var was := Word(bytes, at);
      if cluster * 3 % 2 == 1 then PutWord(bytes, at, was % 16 + 16 * value)
      else PutWord(bytes, at, was / 0x1000 * 0x1000 + value)
    case Fat16 => PutWord(bytes, at, value)
    case Fat32 => PutWord(PutWord(bytes, at, value % 0x1_0000), at + 2, value / 0x1_0000)
  }

  lemma DecodeEncoded(t: FatType, bytes: seq<Byte>, at: nat, cluster: nat, value: nat)
    requires at + Width(t) <= |bytes| && value <= Eof(t)
    ensures Decode(t, Encode(t, bytes, at, cluster, value), at, cluster) == value
  {
    match t
    case Fat12 =>
      var was := Word(bytes, at);
      if cluster * 3 % 2 == 1 {
        WordPut(bytes, at, was % 16 + 16 * value);
        Quotient16(was % 16, value);
      } else {
        WordPut(bytes, at, was / 0x1000 * 0x1000 + value);
        Remainder4096(was / 0x1000, value);
      }
    case Fat16 =>
      WordPut(bytes, at, value);
    case Fat32 =>
      var low, high := value % 0x1_0000, value / 0x1_0000;
      var r := PutWord(bytes, at, low);
      WordPut(bytes, at, low);
      WordPut(r, at + 2, high);
      assert Word(PutWord(r, at + 2, high), at) == Word(r, at);
  }

  lemma WordPut(bytes: seq<Byte>, at: nat, w: nat)
    requires at + 2 <= |bytes| && w < 0x1_0000
    ensures Word(PutWord(bytes, at, w), at) == w
  {
  }

  lemma Quotient16(low: nat, value: nat)
    requires low < 16
    ensures (low + 16 * value) / 16 == value
  {
  }

  lemma Remainder4096(high: nat, value: nat)
    requires value < 0x1000
    ensures (high * 0x1000 + value) % 0x1000 == value
  {
  }

  // Storing one entry leaves every other entry of the same block alone, although
  // FAT12 entries 2k and 2k+1 have a byte in common.
  lemma EncodeKeepsOthers(t: FatType, bytes: seq<Byte>, at: nat, cluster: nat, value: nat, at': nat, cluster': nat)
    requires at + Width(t) <= |bytes| && value <= Eof(t)
    requires at' + Width(t) <= |bytes| && cluster' != cluster
    requires at' - at == ByteOffset(t, cluster') - ByteOffset(t, cluster)
    ensures Decode(t, Encode(t, bytes, at, cluster, value), at', cluster') == Decode(t, bytes, at', cluster')
  {
    match t
    case Fat12 =>
      if cluster / 2 == cluster' / 2 {
        Fat12Shared(bytes, at, cluster, value, at', cluster');
      } else {
        Fat12Apart(cluster, cluster');
      }
    case Fat16 =>
    case Fat32 =>
  }

  lemma Fat12Shared(bytes: seq<Byte>, at: nat, cluster: nat, value: nat, at': nat, cluster': nat)
    requires at + 2 <= |bytes| && at' + 2 <= |bytes| && value <= Eof(Fat12)
    requires cluster' != cluster && cluster' / 2 == cluster / 2
    requires at' - at == ByteOffset(Fat12, cluster') - ByteOffset(Fat12, cluster)
    ensures Decode(Fat12, Encode(Fat12, bytes, at, cluster, value), at', cluster') == Decode(Fat12, bytes, at',
      cluster')
  {
    if cluster % 2 == 0 {
      Fat12EvenStored(bytes, at, cluster, value);
    } else {
      Fat12OddStored(bytes, at', cluster', value);
    }
  }

  lemma Fat12EvenStored(bytes: seq<Byte>, at: nat, even: nat, value: nat)
    requires at + 3 <= |bytes| && value <= Eof(Fat12) && even % 2 == 0
    ensures Word(Encode(Fat12, bytes, at, even, value), at + 1) / 16 == Word(bytes, at + 1) / 16
  {
    LowEntryStored(bytes[at], bytes[at + 1], value);
    var r := Encode(Fat12, bytes, at, even, value);
    assert r[at + 2] == bytes[at + 2] && r[at + 1] as int / 16 == bytes[at + 1] as int / 16;
    WordNibbles(r[at + 1], r[at + 2]);
    WordNibbles(bytes[at + 1], bytes[at + 2]);
  }

  lemma WordNibbles(lo: nat, hi: nat)
    ensures (lo + 256 * hi) / 16 == lo / 16 + 16 * hi
  {
  }

  lemma Fat12OddStored(bytes: seq<Byte>, at: nat, even: nat, value: nat)
    requires at + 3 <= |bytes| && value <= Eof(Fat12) && even % 2 == 0
    ensures Word(Encode(Fat12, bytes, at + 1, even + 1, value), at) % 0x1000 == Word(bytes, at) % 0x1000
  {
    HighEntryStored(bytes[at + 1], bytes[at + 2], value);
    var r := Encode(Fat12, bytes, at + 1, even + 1, value);
    assert r[at] == bytes[at] && r[at + 1] as int % 16 == bytes[at + 1] as int % 16;
    NibbleOfWord(r[at], r[at + 1]);
    NibbleOfWord(bytes[at], bytes[at + 1]);
  }

  lemma NibbleOfWord(lo: nat, hi: nat)
    requires lo < 256
    ensures (lo + 256 * hi) % 0x1000 == lo + 256 * (hi % 16)
  {
  }

  lemma LowEntryStored(lo: nat, hi: nat, value: nat)
    requires lo < 256 && hi < 256 && value < 0x1000
    ensures var w := (lo + 256 * hi) / 0x1000 * 0x1000 + value; w / 256 / 16 == hi / 16
  {
    var kept := (lo + 256 * hi) / 0x1000;
    assert kept == hi / 16;
    assert (kept * 0x1000 + value) / 256 == 16 * kept + value / 256;
  }

  lemma HighEntryStored(lo: nat, hi: nat, value: nat)
    requires lo < 256 && hi < 256 && value < 0x1000
    ensures ((lo + 256 * hi) % 16 + 16 * value) % 256 % 16 == lo % 16
  {
    LowNibble(lo, hi);
    var high, low := value / 16, value % 16;
    Split256(lo % 16 + 16 * low, high);
    assert lo % 16 + 16 * value == lo % 16 + 16 * low + 256 * high;
  }

  lemma LowNibble(lo: nat, hi: nat)
    ensures (lo + 256 * hi) % 16 == lo % 16
  {
    var q, r := lo / 16, lo % 16;
    Remainder16(r, q + 16 * hi);
  }

  lemma Remainder16(low: nat, value: nat)
    requires low < 16
    ensures (low + 16 * value) % 16 == low
  {
  }

  lemma Split256(low: nat, high: nat)
    requires low < 256
    ensures (low + 256 * high) % 256 == low
  {
  }

  lemma Fat12Apart(c: nat, d: nat)
    requires c != d && c / 2 != d / 2
    ensures ByteOffset(Fat12, c) + 2 <= ByteOffset(Fat12, d) || ByteOffset(Fat12, d) + 2 <= ByteOffset(Fat12, c)
  {
  }

  // No entry straddles a three-sector block: blocks are multiples of 12 bytes,
  // FAT16 and FAT32 offsets are multiples of the entry width, and FAT12 offsets
  // are never 2 modulo 3.
  lemma NoStraddle(t: FatType, size: SectorSize, cluster: nat)
    ensures OffsetAt(size, ByteOffset(t, cluster)) + Width(t) <= WindowBytes(size)
  {
    var q, r := Locate(size, ByteOffset(t, cluster));
    match size
    case S512 => RemainderFits(t, cluster, 128, 128 * q, r);
    case S1024 => RemainderFits(t, cluster, 256, 256 * q, r);
    case S2048 => RemainderFits(t, cluster, 512, 512 * q, r);
    case S4096 => RemainderFits(t, cluster, 1024, 1024 * q, r);
  }

  lemma Locate(size: SectorSize, offset: nat) returns (q: nat, r: nat)
    ensures q == BlockAt(size, offset) && r == OffsetAt(size, offset)
    ensures offset == q * WindowBytes(size) + r && r < WindowBytes(size)
  {
    q, r := BlockAt(size, offset), OffsetAt(size, offset);
  }

  lemma RemainderFits(t: FatType, cluster: nat, n: nat, m: nat, r: nat)
    requires ByteOffset(t, cluster) == 12 * m + r && r < 12 * n
    ensures r + Width(t) <= 12 * n
  {
    match t
    case Fat12 => NotTwoModThree(cluster, 4 * m, r, 4 * n);
    case Fat16 => assert r == 2 * (cluster - 6 * m);
    case Fat32 => assert r == 4 * (cluster - 3 * m);
  }

  lemma NotTwoModThree(cluster: nat, m: nat, r: nat, n: nat)
    requires cluster * 3 / 2 == 3 * m + r && r < 3 * n
    ensures r + 2 <= 3 * n
  {
    var k := cluster / 2;
    assert cluster * 3 / 2 == if cluster % 2 == 0 then 3 * k else 3 * k + 1;
  }

  // The four reserved high bits of a FAT32 entry do not survive a store unless they are zero.
  lemma Fat32HighBits(bytes: seq<Byte>, at: nat, cluster: nat, value: nat)
    requires at + 4 <= |bytes| && value <= Eof(Fat32)
    ensures Encode(Fat32, bytes, at, cluster, value)[at + 3] / 16 == bytes[at + 3] / 16 <==> bytes[at + 3] < 16
  {
    assert value / 0x1_0000 / 256 < 16;
  }

  // ---------------------------------------------------------------- the layout, bit by bit

  // Bit `k` of `v`.
  ghost predicate Bit(v: nat, k: nat) {
    if k == 0 then v % 2 == 1 else Bit(v / 2, k - 1)
  }

  ghost function Pow2(m: nat): (p: nat)
    ensures p > 0
  {
    if m == 0 then 1 else 2 * Pow2(m - 1)
  }

  // The bits of a number are those of its low part and then those of its high part.
  lemma {:induction false} BitsOfParts(lo: nat, hi: nat, m: nat, k: nat)
    requires lo < Pow2(m)
    ensures Bit(lo + Pow2(m) * hi, k) == if k < m then Bit(lo, k) else Bit(hi, k - m)
    decreases m
  {
    if m > 0 {
      Doubled(Pow2(m - 1), hi);
      Halved(lo, Pow2(m - 1) * hi);
      if k > 0 {
        BitsOfParts(lo / 2, hi, m - 1, k - 1);
      }
    }
  }

  lemma Doubled(p: nat, hi: nat)
    ensures 2 * p * hi == 2 * (p * hi)
  {
  }

  lemma Halved(lo: nat, x: nat)
    ensures (lo + 2 * x) / 2 == lo / 2 + x && (lo + 2 * x) % 2 == lo % 2
  {
  }

  lemma Powers()
    ensures Pow2(4) == 16 && Pow2(8) == 0x100 && Pow2(12) == 0x1000 && Pow2(16) == 0x1_0000 && Pow2(28) == 0x1000_0000
  {
    assert Pow2(4) == 16;
    assert Pow2(8) == 0x100;
    assert Pow2(12) == 0x1000;
    assert Pow2(16) == 0x1_0000;
    assert Pow2(20) == 0x10_0000;
    assert Pow2(24) == 0x100_0000;
  }

  lemma BitsOfWord(bytes: seq<Byte>, at: nat, k: nat)
    requires at + 2 <= |bytes| && k < 16
    ensures Bit(Word(bytes, at), k) == if k < 8 then Bit(bytes[at], k) else Bit(bytes[at + 1], k - 8)
  {
    hide Bit, Pow2;
    Powers();
    BitsOfParts(bytes[at], bytes[at + 1], 8, k);
  }

  lemma BitMasked(v: nat, m: nat, k: nat)
    requires m in {4, 12, 28}
    ensures k < m ==> Bit(v % Pow2(m), k) == Bit(v, k)
    ensures Bit(v / Pow2(m), k) == Bit(v, k + m)
  {
    hide Bit, Pow2;
    Powers();
    BitsOfParts(v % Pow2(m), v / Pow2(m), m, k);
    BitsOfParts(v % Pow2(m), v / Pow2(m), m, k + m);
  }

  // The FAT is one string of bits, the lowest bit of its first byte first: bit `k` of entry
  // `c` is its bit 12c + k, 16c + k or 32c + k. Here `bytes` is the stretch from byte `base`.
  lemma Layout(t: FatType, bytes: seq<Byte>, base: nat, cluster: nat, k: nat)
    requires k < match t case Fat12 => 12 case Fat16 => 16 case Fat32 => 28
    requires base <= ByteOffset(t, cluster) && ByteOffset(t, cluster) - base + Width(t) <= |bytes|
    ensures var p := (match t case Fat12 => 12 case Fat16 => 16 case Fat32 => 32) * cluster + k;
      && base <= p / 8 < base + |bytes|
      && Bit(Decode(t, bytes, ByteOffset(t, cluster) - base, cluster), k) == Bit(bytes[p / 8 - base], p % 8)
  {
    hide Bit, Decode, ByteOffset;
    EntryBits(t, bytes, ByteOffset(t, cluster) - base, cluster, k);
    BitPosition(t, cluster, k);
  }

  // Where the bits of an entry are: only FAT12 has entries that begin inside a byte.
  lemma BitPosition(t: FatType, cluster: nat, k: nat)
    requires k < match t case Fat12 => 12 case Fat16 => 16 case Fat32 => 28
    ensures var p := (match t case Fat12 => 12 case Fat16 => 16 case Fat32 => 32) * cluster + k;
      var from := k + if t.Fat12? && cluster % 2 == 1 then 4 else 0;
      p / 8 == ByteOffset(t, cluster) + from / 8 && p % 8 == from % 8
  {
    match t
    case Fat12 =>
      var j := cluster / 2;
      if cluster % 2 == 1 {
        assert cluster == 2 * j + 1;
        Bits8(3 * j + 1, k + 4);
      } else {
        assert cluster == 2 * j;
        Bits8(3 * j, k);
      }
    case Fat16 => Bits8(2 * cluster, k);
    case Fat32 => Bits8(4 * cluster, k);
  }

  lemma Bits8(q: nat, k: nat)
    ensures (8 * q + k) / 8 == q + k / 8 && (8 * q + k) % 8 == k % 8
  {
  }

  lemma EntryBits(t: FatType, bytes: seq<Byte>, at: nat, cluster: nat, k: nat)
    requires at + Width(t) <= |bytes| && k < match t case Fat12 => 12 case Fat16 => 16 case Fat32 => 28
    ensures var from := k + if t.Fat12? && cluster % 2 == 1 then 4 else 0;
      at + from / 8 < |bytes| && Bit(Decode(t, bytes, at, cluster), k) == Bit(bytes[at + from / 8], from % 8)
  {
    hide Bit, Pow2, Word;
    Powers();
    match t
    case Fat12 =>
      BitMasked(Word(bytes, at), 4, k);
      BitMasked(Word(bytes, at), 12, k);
      BitsOfWord(bytes, at, if cluster % 2 == 1 then k + 4 else k);
    case Fat16 =>
      BitsOfWord(bytes, at, k);
    case Fat32 =>
      BitMasked(Word(bytes, at) + 0x1_0000 * Word(bytes, at + 2), 28, k);
      WordBound(bytes, at);
      BitsOfParts(Word(bytes, at), Word(bytes, at + 2), 16, k);
      if k < 16 { BitsOfWord(bytes, at, k); } else { BitsOfWord(bytes, at + 2, k - 16); }
  }

  lemma WordBound(bytes: seq<Byte>, at: nat)
    requires at + 2 <= |bytes|
    ensures Word(bytes, at) < 0x1_0000
  {
  }
}

// A file as a byte sequence stored in equal blocks, the last one partly used.
module FileBytes {
  import opened Division
  import opened FatCodec

  type Block = seq<Byte>

  ghost predicate Full(fb: seq<Block>, bs: nat) {
    bs > 0 && forall k :: 0 <= k < |fb| ==> |fb[k]| == bs
  }

  // The blocks have room for `size` bytes.
  ghost predicate Fits(fb: seq<Block>, size: nat, bs: nat)
    requires bs > 0
  {
    forall p: nat :: p < size ==> Quot(p, bs) < |fb|
  }

  // The first `size` bytes of the blocks.
  ghost function Joined(fb: seq<Block>, size: nat, bs: nat): (r: seq<Byte>)
    requires Full(fb, bs) && Fits(fb, size, bs)
    ensures |r| == size
    ensures forall p :: 0 <= p < size ==> Quot(p, bs) < |fb| && r[p] == fb[Quot(p, bs)][Rem(p, bs)]
  {
    seq(size, p requires 0 <= p < size && Quot(p, bs) < |fb| => fb[Quot(p, bs)][Rem(p, bs)])
  }

  function Spliced<T>(s: seq<T>, at: nat, data: seq<T>): (r: seq<T>)
    requires at + |data| <= |s|
    ensures |r| == |s|
  {
    s[..at] + data + s[at + |data|..]
  }

  // A stretch inside one block, read.
  lemma Piece(fb: seq<Block>, size: nat, bs: nat, pos: nat, n: nat)
    requires Full(fb, bs) && Fits(fb, size, bs) && 0 < n && pos + n <= size && Rem(pos, bs) + n <= bs
    ensures Quot(pos, bs) < |fb|
    ensures Joined(fb, size, bs)[pos..pos + n] == fb[Quot(pos, bs)][Rem(pos, bs)..Rem(pos, bs) + n]
  {
    hide Quot, Rem;
    var b, k, r := Joined(fb, size, bs), Quot(pos, bs), Rem(pos, bs);
    var part := b[pos..pos + n];
    forall j | 0 <= j < n ensures part[j] == fb[k][r..r + n][j] {
      Advance(pos, j, bs);
    }
  }

  lemma SameBlock(pos: nat, p: nat, bs: nat)
    requires bs > 0 && Quot(p, bs) == Quot(pos, bs)
    ensures p - pos == Rem(p, bs) - Rem(pos, bs)
  {
    QuotRem(p, bs);
    QuotRem(pos, bs);
  }

  // A stretch inside one block, written.
  lemma PutPiece(fb: seq<Block>, size: nat, bs: nat, pos: nat, data: seq<Byte>)
    requires Full(fb, bs) && Fits(fb, size, bs) && data != [] && pos + |data| <= size && Rem(pos, bs) + |data| <= bs
    ensures Quot(pos, bs) < |fb|
    ensures var k := Quot(pos, bs);
      var fb' := fb[k := Spliced(fb[k], Rem(pos, bs), data)];
      Full(fb', bs) && Joined(fb', size, bs) == Spliced(Joined(fb, size, bs), pos, data)
  {
    hide Quot, Rem;
    var k, r := Quot(pos, bs), Rem(pos, bs);
    var b := Joined(fb, size, bs);
    var fb' := fb[k := Spliced(fb[k], r, data)];
    var b', c := Joined(fb', size, bs), Spliced(b, pos, data);
    forall p | 0 <= p < size ensures b'[p] == c[p] {
      if pos <= p < pos + |data| {
        Advance(pos, p - pos, bs);
      } else if Quot(p, bs) == k {
        SameBlock(pos, p, bs);
      }
    }
  }

}

// Long names in directory slots: translation between the code page and Unicode, the
// writer fSetLongName and the reader fGetLongName that undoes it.
module LongName {
  import opened Common
  import opened FatCodec
  import opened DirSlots
  import DirEdits

  // A character of the code page: one byte, or a lead byte and a second one times 256.
  type Code = c: nat | c < 0x1_0000

  // The tables of ifslang.c, with their pages laid end to end.
  datatype Codepage = Codepage(lead: seq<bool>, uni: seq<Code>, nls: seq<Code>) {
    predicate Shape() { |lead| == 256 && |uni| == 0x1_0000 && |nls| == 0x1_0000 }
  }

  // ---------------------------------------------------------------- TranslateInit

  // The largest code below `n` with the Unicode character `u`, or the filler.
  ghost function LastCode(uni: seq<Code>, u: Code, n: nat): (c: Code)
    requires n <= |uni| <= 0x1_0000
  {
    if n == 0 then 0x5F5F else if uni[n - 1] == u then n - 1 else LastCode(uni, u, n - 1)
  }

  // TranslateInit inverts the table by a pass over all codes.
  method TranslateInit(uni: seq<Code>) returns (nls: seq<Code>)
    requires |uni| == 0x1_0000
    ensures |nls| == 0x1_0000 && forall u: Code :: nls[u] == LastCode(uni, u, 0x1_0000)
    // The largest code of each character that has one, the filler for the others.
    ensures forall c: Code :: c <= nls[uni[c]] && uni[nls[uni[c]]] == uni[c]
    ensures forall u: Code :: (forall c: Code :: uni[c] != u) ==> nls[u] == 0x5F5F
  {
    var a := new Code[0x1_0000](_ => 0x5F5F);
    var code := 0;
    while code < 0x1_0000
      invariant code <= 0x1_0000 && a.Length == 0x1_0000
      invariant forall u: Code :: a[u] == LastCode(uni, u, code)
    {
      a[uni[code]] := code;
      code := code + 1;
    }
    nls := a[..];
    forall c: Code ensures c <= nls[uni[c]] && uni[nls[uni[c]]] == uni[c] {
      LastCodeOf(uni, uni[c], 0x1_0000);
    }
    forall u: Code | forall c: Code :: uni[c] != u ensures nls[u] == 0x5F5F {
      LastCodeOf(uni, u, 0x1_0000);
    }
  }

  lemma {:induction false} LastCodeOf(uni: seq<Code>, u: Code, n: nat)
    requires n <= |uni| <= 0x1_0000
    ensures forall c: nat :: c < n && uni[c] == u ==> c <= LastCode(uni, u, n) < n && uni[LastCode(uni, u, n)] == u
    ensures (forall c: nat :: c < n ==> uni[c] != u) ==> LastCode(uni, u, n) == 0x5F5F
  {
    if n > 0 {
      LastCodeOf(uni, u, n - 1);
    }
  }

  // A code comes back from the inverted table if and only if no larger code has the
  // same Unicode character.
  lemma InvertsExactly(uni: seq<Code>, c: Code)
    requires |uni| == 0x1_0000
    ensures LastCode(uni, uni[c], 0x1_0000) == c <==> forall d: Code :: d > c ==> uni[d] != uni[c]
  {
    LastCodeIs(uni, uni[c], 0x1_0000, c);
  }

  lemma {:induction false} LastCodeIs(uni: seq<Code>, u: Code, n: nat, c: Code)
    requires c < n <= |uni| <= 0x1_0000 && uni[c] == u
    ensures LastCode(uni, u, n) == c <==> forall d :: c < d < n ==> uni[d] != u
    decreases n
  {
    if uni[n - 1] == u {
    } else {
      LastCodeIs(uni, u, n - 1, c);
    }
  }

  // ---------------------------------------------------------------- characters

  // The bytes of one character, lead byte first.
  function Encode(c: Code): (r: seq<Byte>)
    ensures 1 <= |r| <= 2
  {
    if c < 0x100 then [c] else [c % 0x100, c / 0x100]
  }

  function Pair(lo: Byte, hi: Byte): Code { lo + 0x100 * hi as int }

  function Bytes(cs: seq<Code>): seq<Byte> {
    if cs == [] then [] else Encode(cs[0]) + Bytes(cs[1..])
  }

  // A name byte by byte: a character of one byte, or its lead byte and then the other.
  lemma CharBytes(cp: Codepage, c: Code, rest: seq<Code>)
    requires cp.Shape() && Chars(cp, [c] + rest)
    ensures c < 256 ==> c > 0 && !cp.lead[c] && Bytes([c] + rest) == [c] + Bytes(rest)
    ensures c >= 256 ==>
      c % 256 > 0 && cp.lead[c % 256] && Bytes([c] + rest) == [c % 256, c / 256] + Bytes(rest)
  {
    var cs := [c] + rest;
    assert cs[0] == c && cs[1..] == rest;
  }

  // A character as it may stand in a name.
  predicate IsChar(cp: Codepage, c: Code)
    requires cp.Shape()
  {
    if c < 0x100 then c > 0 && !cp.lead[c] else c % 0x100 > 0 && c / 0x100 > 0 && cp.lead[c % 0x100]
  }

  // It survives the way to Unicode and back: its Unicode character is neither the end
  // mark nor the padding, and the inverted table leads back to it.
  predicate Survives(cp: Codepage, c: Code)
    requires cp.Shape()
  {
    IsChar(cp, c) && cp.uni[c] != 0 && cp.uni[c] != 0xFFFF && cp.nls[cp.uni[c]] == c
  }

  ghost predicate Chars(cp: Codepage, cs: seq<Code>)
    requires cp.Shape()
  {
    forall i :: 0 <= i < |cs| ==> IsChar(cp, cs[i])
  }

  lemma {:induction false} BytesConcat(a: seq<Code>, b: seq<Code>)
    ensures Bytes(a + b) == Bytes(a) + Bytes(b)
    decreases |a|
  {
    if a == [] {
      assert a + b == b;
    } else {
      assert (a + b)[0] == a[0] && (a + b)[1..] == a[1..] + b;
      BytesConcat(a[1..], b);
    }
  }

  lemma {:induction false} BytesSize(cs: seq<Code>)
    ensures |cs| <= |Bytes(cs)| <= 2 * |cs|
  {
    if cs != [] {
      BytesSize(cs[1..]);
    }
  }

  // ---------------------------------------------------------------- translation

  function ToUni(cp: Codepage, cs: seq<Code>): (r: seq<Code>)
    requires cp.Shape()
    ensures |r| == |cs|
  {
    seq(|cs|, i requires 0 <= i < |cs| => cp.uni[cs[i]])
  }

  // Translate2Win: at most `len` characters of the name that starts at `from`.
  method Translate2Win(cp: Codepage, name: seq<Byte>, from: nat, len: nat, ghost cs: seq<Code>)
    returns (units: seq<Code>, processed: nat)
    requires cp.Shape() && Chars(cp, cs) && from <= |name| && name[from..] == Bytes(cs)
    ensures units == ToUni(cp, cs[..Min(len, |cs|)])
    ensures processed == |Bytes(cs[..Min(len, |cs|)])| && from + processed <= |name|
    ensures name[from + processed..] == Bytes(cs[Min(len, |cs|)..])
  {
    hide Bytes, ToUni, Encode, IsChar;
    units, processed := [], 0;
    ghost var i := 0;
    NoBytes();
    var left: nat := len;
    assert cs[..0] == [] && cs[0..] == cs;
    while from + processed < |name| && left > 0
      invariant i <= |cs| && left + i == len && units == ToUni(cp, cs[..i])
      invariant processed == |Bytes(cs[..i])| && from + processed <= |name|
      invariant name[from + processed..] == Bytes(cs[i..])
      decreases left
    {
      NextChar(cp, name, from + processed, cs, i);
      var code: Code := name[from + processed];
      if cp.lead[code] {
        code := Pair(code, name[from + processed + 1]);
        processed := processed + 1;
      }
      units := units + [cp.uni[code]];
      left := left - 1;
      processed := processed + 1;
      i := i + 1;
    }
    BytesSize(cs[i..]);
  }

  // The bytes at `at` are those of character `i`.
  lemma NextChar(cp: Codepage, name: seq<Byte>, at: nat, cs: seq<Code>, i: nat)
    requires cp.Shape() && Chars(cp, cs) && at < |name| && i <= |cs| && name[at..] == Bytes(cs[i..])
    ensures i < |cs|
    ensures cp.lead[name[at]] <==> cs[i] >= 0x100
    ensures cs[i] < 0x100 ==> name[at] == cs[i]
    ensures cs[i] >= 0x100 ==> at + 1 < |name| && Pair(name[at], name[at + 1]) == cs[i]
    ensures |Encode(cs[i])| == if cs[i] >= 0x100 then 2 else 1
    ensures at + |Encode(cs[i])| <= |name| && name[at + |Encode(cs[i])|..] == Bytes(cs[i + 1..])
    ensures |Bytes(cs[..i + 1])| == |Bytes(cs[..i])| + |Encode(cs[i])|
    ensures ToUni(cp, cs[..i + 1]) == ToUni(cp, cs[..i]) + [cp.uni[cs[i]]]
  {
    assert cs[i..] != [];
    var c, rest := cs[i], cs[i..];
    assert rest[0] == c && rest[1..] == cs[i + 1..];
    var b := name[at..];
    assert b == Encode(c) + Bytes(cs[i + 1..]);
    assert b[0] == name[at] && name[at + |Encode(c)|..] == b[|Encode(c)|..];
    if c >= 0x100 { assert b[1] == name[at + 1]; }
    assert cs[..i + 1] == cs[..i] + [c];
    BytesConcat(cs[..i], [c]);
    OneChar(c);
  }

  lemma OneChar(c: Code)
    ensures Bytes([c]) == Encode(c)
  {
    assert [c][1..] == [];
  }

  // The bytes written for a code: the second one only when it is not zero.
  function CodeBytes(c: Code): seq<Byte> {
    if c / 0x100 == 0 then [c % 0x100] else [c % 0x100, c / 0x100]
  }

  // The characters before the first zero, in the code page.
  ghost function Text(cp: Codepage, us: seq<Code>): (r: seq<Byte>)
    requires cp.Shape()
    ensures |r| <= 2 * |us|
  {
    if us == [] || us[0] == 0 then [] else CodeBytes(cp.nls[us[0]]) + Text(cp, us[1..])
  }

  // What one Unicode character becomes: the low byte of its code, and the high one if it
  // is not zero.
  lemma CharText(cp: Codepage, u: Code, rest: seq<Code>)
    requires cp.Shape()
    ensures var c := cp.nls[u];
      Text(cp, [u] + rest) ==
        if u == 0 then [] else (if c < 256 then [c] else [c % 256, c / 256]) + Text(cp, rest)
  {
    var us := [u] + rest;
    assert us[0] == u && us[1..] == rest;
  }

  // The same as long as there is room; the last character may take one byte more.
  ghost function TextWithin(cp: Codepage, us: seq<Code>, room: int): (r: seq<Byte>)
    requires cp.Shape()
  {
    if us == [] || us[0] == 0 || room <= 0 then [] else
      var c := CodeBytes(cp.nls[us[0]]);
      c + TextWithin(cp, us[1..], room - |c|)
  }

  lemma {:induction false} RoomForAll(cp: Codepage, us: seq<Code>, room: int)
    requires cp.Shape() && 2 * |us| <= room
    ensures TextWithin(cp, us, room) == Text(cp, us)
  {
    if us != [] && us[0] != 0 {
      RoomForAll(cp, us[1..], room - |CodeBytes(cp.nls[us[0]])|);
    }
  }

  method Translate2OS2(cp: Codepage, us: seq<Code>, len: nat) returns (name: seq<Byte>)
    requires cp.Shape()
    ensures name == TextWithin(cp, us, len)
  {
    hide TextWithin;
    name := [];
    var i, left: int := 0, len;
    assert us[0..] == us;
    while i < |us| && us[i] != 0 && left > 0
      invariant i <= |us| && TextWithin(cp, us, len) == name + TextWithin(cp, us[i..], left)
      decreases |us| - i
    {
      var code := cp.nls[us[i]];
      TextNext(cp, us, i, left, name);
      name := name + [code % 0x100];
      if code / 0x100 != 0 {
        name := name + [code / 0x100];
        left := left - 1;
      }
      i := i + 1;
      left := left - 1;
    }
    TextEnd(cp, us[i..], left);
    assert name + [] == name;
  }

  lemma TextEnd(cp: Codepage, us: seq<Code>, room: int)
    requires cp.Shape() && (us == [] || us[0] == 0 || room <= 0)
    ensures TextWithin(cp, us, room) == []
  {
  }

  lemma TextNext(cp: Codepage, us: seq<Code>, i: nat, room: int, name: seq<Byte>)
    requires cp.Shape() && i < |us| && us[i] != 0 && room > 0
    ensures var code := cp.nls[us[i]];
      name + TextWithin(cp, us[i..], room) ==
        if code / 0x100 != 0 then name + [code % 0x100] + [code / 0x100] + TextWithin(cp, us[i + 1..], room - 2)
        else name + [code % 0x100] + TextWithin(cp, us[i + 1..], room - 1)
  {
    assert us[i..][1..] == us[i + 1..];
  }

  // Characters that survive come back as their bytes.
  lemma {:induction false} TextBack(cp: Codepage, cs: seq<Code>, tail: seq<Code>)
    requires cp.Shape() && (forall i :: 0 <= i < |cs| ==> Survives(cp, cs[i])) && (tail == [] || tail[0] == 0)
    ensures Text(cp, ToUni(cp, cs) + tail) == Bytes(cs)
    decreases |cs|
  {
    var us := ToUni(cp, cs) + tail;
    hide Survives;
    if cs != [] {
      assert us[0] == cp.uni[cs[0]] && us[1..] == ToUni(cp, cs[1..]) + tail;
      TextBack(cp, cs[1..], tail);
      CodeBack(cp, cs[0]);
    }
  }

  lemma CodeBack(cp: Codepage, c: Code)
    requires cp.Shape() && Survives(cp, c)
    ensures cp.uni[c] != 0 && CodeBytes(cp.nls[cp.uni[c]]) == Encode(c)
  {
  }

  // ---------------------------------------------------------------- slots

  const UNITS: nat := 13

  // Two bytes per character, low byte first.
  function UnitByte(us: seq<Code>, k: nat): Byte
    requires k < 2 * |us|
  {
    if k % 2 == 0 then us[k / 2] % 0x100 else us[k / 2] / 0x100
  }

  function UnitBytes(us: seq<Code>): (r: seq<Byte>)
    ensures |r| == 2 * |us|
    ensures forall k :: 0 <= k < |r| ==> r[k] == UnitByte(us, k)
  {
    seq(2 * |us|, k requires 0 <= k < 2 * |us| => UnitByte(us, k))
  }

  function BytesUnits(b: seq<Byte>, n: nat): (r: seq<Code>)
    requires 2 * n <= |b|
    ensures |r| == n
  {
    seq(n, i requires 0 <= i < n => Pair(b[2 * i], b[2 * i + 1]))
  }

  lemma UnitsBack(us: seq<Code>, tail: seq<Byte>)
    ensures BytesUnits(UnitBytes(us) + tail, |us|) == us
  {
    hide UnitBytes, Pair;
    var u := UnitBytes(us);
    var b := u + tail;
    forall i | 0 <= i < |us| ensures BytesUnits(b, |us|)[i] == us[i] {
      assert b[2 * i] == u[2 * i] == UnitByte(us, 2 * i);
      assert b[2 * i + 1] == u[2 * i + 1] == UnitByte(us, 2 * i + 1);
      PairBack(us[i]);
    }
  }

  lemma PairBack(c: Code)
    ensures Pair(c % 0x100, c / 0x100) == c
  {
  }

  // An LNENTRY: five characters, the attribute, the checksum, six and two characters.
  function LnSlot(number: Byte, check: Byte, us: seq<Code>): Slot
    requires |us| == UNITS
  {
    Slot(number, UnitBytes(us[..5]), FILE_LONGNAME, [0, check] + UnitBytes(us[5..11]) + [0, 0] + UnitBytes(us[11..]))
  }

  function CheckOf(s: Slot): Byte
  {
    s.rest[1]
  }

  function UnitsOf(s: Slot): (r: seq<Code>)
    ensures |r| == UNITS
  {
    BytesUnits(s.name, 5) + BytesUnits(s.rest[2..], 6) + BytesUnits(s.rest[16..], 2)
  }

  // The characters of a slot byte by byte: five, six and two of them, low byte first, then
  // what becomes of them: the padding is dropped.
  lemma SlotCodes(s: Slot, i: nat)
    requires i < 13
    ensures UnitsOf(s)[i] ==
      if i < 5 then s.name[2 * i] as int + 256 * s.name[2 * i + 1] as int
      else if i < 11 then s.rest[2 * i - 8] as int + 256 * s.rest[2 * i - 7] as int
      else s.rest[2 * i - 6] as int + 256 * s.rest[2 * i - 5] as int
  {
  }

  lemma SlotBack(number: Byte, check: Byte, us: seq<Code>)
    requires |us| == UNITS
    ensures var s := LnSlot(number, check, us); CheckOf(s) == check && UnitsOf(s) == us
  {
    hide UnitBytes, BytesUnits;
    var s := LnSlot(number, check, us);
    var b, c := UnitBytes(us[5..11]), UnitBytes(us[11..]);
    UnitsBack(us[..5], []);
    assert s.name + [] == s.name;
    assert UnitBytes(us[..5]) + [] == UnitBytes(us[..5]);
    UnitsBack(us[5..11], [0, 0] + c);
    assert s.rest[2..] == b + ([0, 0] + c);
    UnitsBack(us[11..], []);
    assert s.rest[16..] == c == c + [];
    assert us == us[..5] + us[5..11] + us[11..];
  }

  // A short stretch of characters ends in a zero and is padded with 0xFFFF.
  function Padded(us: seq<Code>): (r: seq<Code>)
    requires |us| <= UNITS
    ensures |r| == UNITS
  {
    seq(UNITS, i requires 0 <= i < UNITS => if i < |us| then us[i] else if i == |us| then 0 else 0xFFFF)
  }

  // The characters before the first one that is zero.
  function BeforeZero(us: seq<Code>): (r: seq<Code>)
    ensures r <= us && (forall i :: 0 <= i < |r| ==> r[i] != 0) && (|r| < |us| ==> us[|r|] == 0)
  {
    if us == [] || us[0] == 0 then [] else [us[0]] + BeforeZero(us[1..])
  }

  // The 13 characters of a slot for the characters `cs` of a name.
  function SlotUnits(cp: Codepage, cs: seq<Code>): (r: seq<Code>)
    requires cp.Shape() && |cs| <= UNITS
    ensures |r| == UNITS
  {
    Padded(BeforeZero(ToUni(cp, cs)))
  }

  // The three loops of fSetLongName that fill a slot, as one over its 13 characters: the
  // pointer moves to the padding once a zero has been copied.
  method Pad(us: seq<Code>) returns (r: seq<Code>)
    requires |us| <= UNITS
    ensures r == Padded(BeforeZero(us))
  {
    hide BeforeZero;
    ghost var z := BeforeZero(us);
    var uniName := us + seq(UNITS - |us|, _ => 0);
    assert forall i :: 0 <= i < |z| ==> z[i] == us[i];
    var atEnd := false;
    r := [];
    while |r| < UNITS
      invariant |r| <= UNITS && atEnd == (|r| > |z|)
      invariant forall i :: 0 <= i < |r| ==> r[i] == Padded(z)[i]
      decreases UNITS - |r|
    {
      var v: Code := if atEnd then 0xFFFF else uniName[|r|];
      if v == 0 {
        atEnd := true;
      }
      r := r + [v];
    }
  }

  // ---------------------------------------------------------------- reading

  // What fGetLongName collects: everything but the padding.
  function Kept(us: seq<Code>): (r: seq<Code>)
    ensures |r| <= |us|
  {
    if us == [] then []
    else
      var rest := Kept(us[..|us| - 1]);
      if us[|us| - 1] == 0xFFFF then rest else rest + [us[|us| - 1]]
  }

  lemma KeptNext(us: seq<Code>, u: Code)
    ensures Kept(us + [u]) == if u == 0xFFFF then Kept(us) else Kept(us) + [u]
  {
    assert (us + [u])[..|us|] == us;
  }

  // strlen: a C string ends before its first zero.
  function CString(s: seq<Byte>): (r: seq<Byte>)
    ensures |r| <= |s|
  {
    if s == [] || s[0] == 0 then [] else [s[0]] + CString(s[1..])
  }

  // The text of one slot.
  ghost function SlotText(cp: Codepage, s: Slot): seq<Byte>
    requires cp.Shape()
  {
    CString(Text(cp, Kept(UnitsOf(s))))
  }

  datatype Reading = Reading(name: seq<Byte>, check: Byte)

  // One slot read: its text goes in front, unless that makes the name too long.
  ghost function ReadSlot(cp: Codepage, r: Reading, s: Slot, max: nat): Reading
    requires cp.Shape()
  {
    var before := if CheckOf(s) == r.check then r.name else [];
    Reading(if |before| + |SlotText(cp, s)| <= max then SlotText(cp, s) + before else before, CheckOf(s))
  }

  // A caller's buffer for the name, with the checksum of the slots read into it.
  class NameBuffer {
    var name: seq<Byte>
    var check: Byte

    constructor ()
      ensures name == [] && check == 0
    {
      name, check := [], 0;
    }

    // fGetLongName
    method GetLongName(cp: Codepage, s: Slot, max: nat) returns (ok: bool)
      requires cp.Shape()
      modifies this
      ensures Reading(name, check) == ReadSlot(cp, Reading(old(name), old(check)), s, max)
      ensures ok <==> |if CheckOf(s) == old(check) then old(name) else []| + |SlotText(cp, s)| <= max
      // A slot with another checksum starts a new name; what was read before stays behind.
      ensures check == s.rest[1]
      ensures var before := if s.rest[1] == old(check) then old(name) else [];
        if ok then |before| <= |name| <= max && name[|name| - |before|..] == before else name == before
    {
      if CheckOf(s) != check {
        name := [];
        check := CheckOf(s);
      }
      var us, uniName, i := UnitsOf(s), [], 0;
      assert us[..0] == [];
      while i < UNITS
        invariant i <= UNITS && uniName == Kept(us[..i])
      {
        assert us[..i + 1][..i] == us[..i];
        if us[i] != 0xFFFF {
          uniName := uniName + [us[i]];
        }
        i := i + 1;
      }
      assert us[..UNITS] == us;
      var text := Translate2OS2(cp, uniName, 30);
      RoomForAll(cp, uniName, 30);
      text := CString(text);
      if |name| + |text| > max {
        return false;
      }
      name := text + name;
      ok := true;
    }
  }

  lemma {:induction false} KeptAll(us: seq<Code>)
    requires forall i :: 0 <= i < |us| ==> us[i] != 0xFFFF
    ensures Kept(us) == us
  {
    if us != [] {
      KeptAll(us[..|us| - 1]);
    }
  }

  lemma {:induction false} KeptPadded(us: seq<Code>, n: nat)
    requires |us| <= n <= UNITS
    ensures Kept(Padded(us)[..n]) == if n == |us| then Kept(us) else Kept(us) + [0]
    decreases n
  {
    var p := Padded(us);
    if n == |us| {
      assert p[..n] == us;
    } else {
      KeptPadded(us, n - 1);
      assert p[..n][..n - 1] == p[..n - 1];
    }
  }

  // The text of a slot, from what was kept of its characters.
  lemma TextOfSlot(cp: Codepage, number: Byte, check: Byte, cs: seq<Code>)
    requires cp.Shape() && |cs| <= UNITS
    ensures var s, us := LnSlot(number, check, SlotUnits(cp, cs)), BeforeZero(ToUni(cp, cs));
      CheckOf(s) == check && SlotText(cp, s) == CString(Text(cp, Kept(us) + if |us| == UNITS then []
          else [0]))
  {
    hide Text, CString, Kept, LnSlot, Padded, UnitsOf, BeforeZero;
    var us := BeforeZero(ToUni(cp, cs));
    SlotBack(number, check, SlotUnits(cp, cs));
    KeptPadded(us, UNITS);
    assert Padded(us)[..UNITS] == Padded(us);
    assert Kept(us) + [] == Kept(us);
  }

  lemma {:induction false} CStringWhole(s: seq<Byte>)
    requires 0 !in s
    ensures CString(s) == s
  {
    if s != [] {
      CStringWhole(s[1..]);
    }
  }

  lemma {:induction false} NoZeroBytes(cp: Codepage, cs: seq<Code>)
    requires cp.Shape() && Chars(cp, cs)
    ensures 0 !in Bytes(cs)
  {
    if cs != [] {
      NoZeroBytes(cp, cs[1..]);
    }
  }

  // A slot written for up to 13 characters gives them back.
  lemma SlotTextBack(cp: Codepage, number: Byte, check: Byte, cs: seq<Code>)
    requires cp.Shape() && |cs| <= UNITS && forall i :: 0 <= i < |cs| ==> Survives(cp, cs[i])
    ensures var s := LnSlot(number, check, SlotUnits(cp, cs));
      CheckOf(s) == check && SlotText(cp, s) == Bytes(cs)
  {
    hide Survives, Text, CString, Kept, LnSlot, SlotUnits, Bytes, BeforeZero;
    SurvivorsAreChars(cp, cs);
    var us := ToUni(cp, cs);
    assert BeforeZero(us) == us;
    TextOfSlot(cp, number, check, cs);
    KeptAll(us);
    TextBack(cp, cs, if |cs| == UNITS then [] else [0]);
    NoZeroBytes(cp, cs);
    CStringWhole(Bytes(cs));
  }

  // A name of one character is read back if and only if the character survives.
  lemma OneCharBack(cp: Codepage, number: Byte, check: Byte, c: Code)
    requires cp.Shape() && IsChar(cp, c)
    ensures SlotText(cp, LnSlot(number, check, SlotUnits(cp, [c]))) == Bytes([c]) <==> Survives(cp, c)
  {
    hide LnSlot, SlotUnits, Bytes, SlotText, CodeBytes, CString;
    OneChar(c);
    OneSlotText(cp, number, check, c);
    if cp.uni[c] != 0 && cp.uni[c] != 0xFFFF {
      OneCode(c, cp.nls[cp.uni[c]]);
    }
  }

  // The text of a slot with one character; nothing, if its Unicode character is the end
  // mark or the padding.
  lemma OneSlotText(cp: Codepage, number: Byte, check: Byte, c: Code)
    requires cp.Shape()
    ensures var s := LnSlot(number, check, SlotUnits(cp, [c]));
      SlotText(cp, s) ==
        if cp.uni[c] == 0 || cp.uni[c] == 0xFFFF then [] else CString(CodeBytes(cp.nls[cp.uni[c]]))
  {
    hide LnSlot, SlotUnits, SlotText, CodeBytes, CString, Text, Kept, BeforeZero;
    var u := cp.uni[c];
    TextOfSlot(cp, number, check, [c]);
    assert ToUni(cp, [c]) == [u];
    OneUnit(u);
    OneText(cp, u);
  }

  lemma OneUnit(u: Code)
    ensures BeforeZero([u]) == if u == 0 then [] else [u]
    ensures Kept([u]) == (if u == 0xFFFF then [] else [u]) && Kept([]) == []
    ensures [] + [0] == [0]
  {
    assert [u][1..] == [] && [u][..0] == [];
  }

  lemma OneText(cp: Codepage, u: Code)
    requires cp.Shape()
    ensures Text(cp, [0]) == [] && CString([]) == []
    ensures u != 0 ==> Text(cp, [u] + [0]) == CodeBytes(cp.nls[u])
  {
    hide CodeBytes;
    assert ([u] + [0])[1..] == [0];
    assert Text(cp, [0]) == [];
  }

  // Another code is another text.
  lemma OneCode(c: Code, d: Code)
    requires c % 0x100 > 0
    ensures CString(CodeBytes(d)) == Encode(c) <==> d == c
  {
    var lo, hi: Byte := d % 0x100, d / 0x100;
    assert [lo][1..] == [] && [lo, hi][1..] == [hi] && [hi][1..] == [];
    assert CString([]) == [];
    assert CString([lo]) == if lo == 0 then [] else [lo];
    assert CString([hi]) == if hi == 0 then [] else [hi];
    assert CString([lo, hi]) == if lo == 0 then [] else [lo] + CString([hi]);
    hide CString;
    assert d == d % 0x100 + 0x100 * (d / 0x100) && c == c % 0x100 + 0x100 * (c / 0x100);
    if CString(CodeBytes(d)) == Encode(c) {
      assert CString(CodeBytes(d))[0] == Encode(c)[0];
      if c >= 0x100 {
        assert CString(CodeBytes(d))[1] == Encode(c)[1];
      }
    }
  }

  // ---------------------------------------------------------------- writing

  const LAST: nat := 0x40     // marks the slot with the end of the name

  // Slots for `n` characters.
  function SlotsFor(n: nat): nat { (n + 12) / 13 }

  // The slots of a name in directory order: the one with its end comes first, the one
  // with its beginning, numbered `number`, last.
  ghost function LongSlots(cp: Codepage, cs: seq<Code>, check: Byte, number: nat): (r: seq<Slot>)
    requires cp.Shape() && cs != [] && number + SlotsFor(|cs|) <= LAST
    ensures |r| == SlotsFor(|cs|)
    decreases |cs|
  {
    if |cs| <= UNITS then [LnSlot(number + LAST, check, SlotUnits(cp, cs))]
    else LongSlots(cp, cs[UNITS..], check, number + 1) + [LnSlot(number, check, SlotUnits(cp, cs[..UNITS]))]
  }

  // DBCSStrlen of the name from `from` on.
  method DbcsStrlen(cp: Codepage, name: seq<Byte>, from: nat, ghost cs: seq<Code>) returns (n: nat)
    requires cp.Shape() && Chars(cp, cs) && from <= |name| && name[from..] == Bytes(cs)
    ensures n == |cs|
  {
    hide ToUni, Bytes, Encode, IsChar;
    n := 0;
    var i := from;
    assert cs[0..] == cs;
    while i < |name|
      invariant from <= i <= |name| && n <= |cs| && name[i..] == Bytes(cs[n..])
      decreases |name| - i
    {
      NextChar(cp, name, i, cs, n);
      if cp.lead[name[i]] {
        i := i + 1;
      }
      n := n + 1;
      i := i + 1;
    }
    BytesSize(cs[n..]);
  }

  // The name goes on from character `from` to before `to`, with no translation that is 0.
  ghost predicate Goes(cp: Codepage, cs: seq<Code>, from: nat, to: nat)
    requires cp.Shape()
  {
    to <= |cs| && forall i :: from <= i < to ==> cp.uni[cs[i]] != 0
  }

  // Character `j` of slot `p` of `n`: the translated one of the name, 13 to a slot from the
  // last slot on, then 0 where the name or a translation ends, then 0xFFFF.
  ghost function UnitAt(cp: Codepage, cs: seq<Code>, n: nat, p: int, j: int): Code
    requires cp.Shape() && 0 <= p < n && 0 <= j
  {
    var from: nat := 13 * (n - 1 - p);
    if Goes(cp, cs, from, from + j + 1) then cp.uni[cs[from + j]]
    else if Goes(cp, cs, from, from + j) then 0 else 0xFFFF
  }

  ghost predicate OnBytes(s: Slot, number: int, last: bool, check: Byte) {
    && s.first as int == number + (if last then 64 else 0) && s.attr == 15
    && s.rest[0] == 0 && s.rest[1] == check && s.rest[14] == 0 && s.rest[15] == 0
  }

  ghost predicate UnitsAre(cp: Codepage, cs: seq<Code>, n: nat, p: int, s: Slot)
    requires cp.Shape() && 0 <= p < n
  {
    var b := s.name + s.rest[2..14] + s.rest[16..20];
    forall j :: 0 <= j < 13 ==>
      b[2 * j] as int == UnitAt(cp, cs, n, p, j) % 0x100 && b[2 * j + 1] as int == UnitAt(cp, cs, n, p, j) / 0x100
  }

  lemma SlotIs(cp: Codepage, cs: seq<Code>, check: Byte, p: nat)
    requires cp.Shape() && cs != [] && p < SlotsFor(|cs|) < LAST
    ensures var n := SlotsFor(|cs|);
      OnBytes(LongSlots(cp, cs, check, 1)[p], n - p, p == 0, check) &&
      UnitsAre(cp, cs, n, p, LongSlots(cp, cs, check, 1)[p])
  {
    hide LongSlots, FrontSlot, OnBytes;
    var n, k := SlotsFor(|cs|), SlotsFor(|cs|) - 1 - p;
    SlotAt(cp, cs, check, 1, k);
    SlotLayout(cp, cs[13 * k..], check, k + 1);
    SlotCharacters(cp, cs, n, p, check);
  }

  // The slots count from the back, one for 13 characters.
  lemma {:induction false} SlotAt(cp: Codepage, cs: seq<Code>, check: Byte, number: nat, k: nat)
    requires cp.Shape() && number + SlotsFor(|cs|) <= LAST && k < SlotsFor(|cs|)
    ensures 13 * k < |cs| && cs != []
    ensures LongSlots(cp, cs, check, number)[SlotsFor(|cs|) - 1 - k] == FrontSlot(cp, cs[13 * k..], check, number + k)
    ensures k == SlotsFor(|cs|) - 1 <==> |cs[13 * k..]| <= 13
    decreases k
  {
    hide LongSlots, FrontSlot;
    SlotsSplit(cp, cs, check, number);
    if k == 0 {
      assert cs[0..] == cs;
    } else {
      var rest := cs[13..];
      SlotAt(cp, rest, check, number + 1, k - 1);
      assert rest[13 * (k - 1)..] == cs[13 * k..];
    }
  }

  lemma SlotLayout(cp: Codepage, cs: seq<Code>, check: Byte, number: nat)
    requires cp.Shape() && 0 < number < LAST
    ensures OnBytes(FrontSlot(cp, cs, check, number), number, |cs| <= 13, check)
  {
    hide UnitBytes;
  }

  lemma SlotCharacters(cp: Codepage, cs: seq<Code>, n: nat, p: nat, check: Byte)
    requires cp.Shape() && p < n < LAST && 13 * (n - 1 - p) <= |cs|
    ensures UnitsAre(cp, cs, n, p, FrontSlot(cp, cs[13 * (n - 1 - p)..], check, n - p))
  {
    hide UnitAt, SlotUnits, LnSlot;
    var from: nat := 13 * (n - 1 - p);
    var rest := cs[from..];
    var part := rest[..Min(UNITS, |rest|)];
    var us := SlotUnits(cp, part);
    LowFirst(n - p + (if |rest| <= UNITS then LAST else 0), check, us);
    forall j | 0 <= j < 13 ensures us[j] == UnitAt(cp, cs, n, p, j) {
      PaddedAt(cp, cs, n, p, part, j);
    }
  }

  lemma PaddedAt(cp: Codepage, cs: seq<Code>, n: nat, p: nat, part: seq<Code>, j: nat)
    requires cp.Shape() && p < n && 13 * (n - 1 - p) <= |cs| && j < 13
    requires var from := 13 * (n - 1 - p); part == cs[from..][..Min(13, |cs| - from)]
    ensures SlotUnits(cp, part)[j] == UnitAt(cp, cs, n, p, j)
  {
    var from: nat := 13 * (n - 1 - p);
    var us := ToUni(cp, part);
    var z := BeforeZero(us);
    forall i | 0 <= i < |part| ensures us[i] == cp.uni[cs[from + i]] {
    }
    if j < |z| {
      forall i | from <= i < from + j + 1 ensures cp.uni[cs[i]] != 0 {
        assert us[i - from] == z[i - from];
      }
    } else {
      assert |z| < |us| ==> us[|z|] == 0 && from + |z| < |cs| && cp.uni[cs[from + |z|]] == 0;
      if j == |z| {
        forall i | from <= i < from + j ensures cp.uni[cs[i]] != 0 {
          assert us[i - from] == z[i - from];
        }
      }
    }
  }

  lemma LowFirst(number: Byte, check: Byte, us: seq<Code>)
    requires |us| == UNITS
    ensures var s := LnSlot(number, check, us);
      var b := s.name + s.rest[2..14] + s.rest[16..20];
      |b| == 26 && forall j :: 0 <= j < 13 ==> b[2 * j] as int == us[j] % 0x100 && b[2 * j + 1] as int == us[j] / 0x100
  {
    hide UnitByte;
    var s := LnSlot(number, check, us);
    var x, y, z := us[..5], us[5..11], us[11..];
    assert s.rest[2..14] == UnitBytes(y) && s.rest[16..20] == UnitBytes(z);
    var b := UnitBytes(x) + UnitBytes(y) + UnitBytes(z);
    forall k | 0 <= k < 26 ensures b[k] == UnitByte(us, k) {
      Shifted(us, x, y, z, k);
    }
    forall j | 0 <= j < 13 ensures b[2 * j] as int == us[j] % 0x100 && b[2 * j + 1] as int == us[j] / 0x100 {
      TwoBytes(us, j);
    }
  }

  lemma Shifted(us: seq<Code>, x: seq<Code>, y: seq<Code>, z: seq<Code>, k: nat)
    requires |us| == 13 && x == us[..5] && y == us[5..11] && z == us[11..] && k < 26
    ensures (UnitBytes(x) + UnitBytes(y) + UnitBytes(z))[k] == UnitByte(us, k)
  {
  }

  lemma TwoBytes(us: seq<Code>, j: nat)
    requires j < |us|
    ensures UnitByte(us, 2 * j) == us[j] % 0x100 && UnitByte(us, 2 * j + 1) == us[j] / 0x100
  {
  }

  // fSetLongName: the slots of the name, written from the back.
  method SetLongName(cp: Codepage, buf: array<Slot>, pos: nat, name: seq<Byte>, check: Byte, ghost cs: seq<Code>)
    returns (ret: nat)
    requires cp.Shape() && name == Bytes(cs) && Chars(cp, cs) && |name| <= 255
    requires pos + SlotsFor(|cs|) <= buf.Length
    modifies buf
    ensures ret == pos + SlotsFor(|cs|)
    ensures 1 + SlotsFor(|cs|) <= LAST
    ensures buf[..] == old(buf[..])[..pos] + (if cs == [] then []
      else LongSlots(cp, cs, check, 1)) + old(buf[..])[ret..]
    // Counted from the back: the number, with the mark of the last one, the attribute of a
    // long name, the checksum and three zeros.
    ensures forall p :: pos <= p < ret ==>
      && buf[p].first as int == ret - p + (if p == pos then 64 else 0) && buf[p].attr == 15
      && buf[p].rest[0] == 0 && buf[p].rest[1] == check && buf[p].rest[14] == 0 && buf[p].rest[15] == 0
    // The 13 characters, low byte first.
    ensures forall p, j :: pos <= p < ret && 0 <= j < 13 ==>
      var b := buf[p].name + buf[p].rest[2..14] + buf[p].rest[16..20];
      b[2 * j] as int == UnitAt(cp, cs, ret - pos, p - pos, j) % 0x100 &&
      b[2 * j + 1] as int == UnitAt(cp, cs, ret - pos, p - pos, j) / 0x100
  {
    hide IsChar, Bytes, LongSlots, UnitAt;
    BytesSize(cs);
    ret := pos;
    if |name| == 0 {
      return;
    }
    assert name[0..] == name;
    var needed := DbcsStrlen(cp, name, 0, cs);
    needed := (needed + 12) / 13;
    ret := pos + needed;
    ghost var before := buf[..];
    WriteSlots(cp, buf, pos, needed, name, check, cs);
    Written(before, buf[..], pos, LongSlots(cp, cs, check, 1));
    forall p: nat | pos <= p < ret
      ensures OnBytes(buf[p], ret - p, p == pos, check) && UnitsAre(cp, cs, needed, p - pos, buf[p])
    {
      SlotIs(cp, cs, check, p - pos);
      assert buf[..][p] == LongSlots(cp, cs, check, 1)[p - pos];
    }
  }

  lemma Written(b: seq<Slot>, r: seq<Slot>, pos: nat, all: seq<Slot>)
    requires pos + |all| <= |b| == |r|
    requires forall j :: 0 <= j < |b| ==> r[j] == if pos <= j < pos + |all| then all[j - pos] else b[j]
    ensures r == b[..pos] + all + b[pos + |all|..]
  {
  }

  // The loop of fSetLongName.
  method WriteSlots(cp: Codepage, buf: array<Slot>, pos: nat, needed: nat, name: seq<Byte>, check: Byte,
                    ghost cs: seq<Code>)
    requires cp.Shape() && name == Bytes(cs) && Chars(cp, cs) && cs != []
    requires needed == SlotsFor(|cs|) && 1 + needed <= LAST && pos + needed <= buf.Length
    modifies buf
    ensures forall j :: 0 <= j < buf.Length ==>
      buf[j] == if pos <= j < pos + needed then LongSlots(cp, cs, check, 1)[j - pos] else old(buf[j])
  {
    hide IsChar, Bytes, LongSlots, FrontSlot, ToUni;
    ghost var all := LongSlots(cp, cs, check, 1);
    var from: nat, k: int, number: nat := 0, pos + needed - 1, 1;
    ghost var i: nat := 0;
    assert cs[0..] == cs && name[0..] == name && all[..|all|] == all;
    while from < |name|
      invariant from <= |name| && i <= |cs| && name[from..] == Bytes(cs[i..])
      invariant 1 <= number && number + SlotsFor(|cs| - i) == 1 + needed && k + 1 == pos + SlotsFor(|cs| - i)
      invariant i < |cs| ==> all[..k + 1 - pos] == LongSlots(cp, cs[i..], check, number)
      invariant forall j :: 0 <= j < buf.Length ==> buf[j] == if k < j < pos + needed then all[j - pos] else old(buf[j])
      decreases |name| - from
    {
      BytesSize(cs[i..]);
      var processed := SetSlot(cp, buf, k, number, name, from, check, cs[i..]);
      ghost var next := i + Min(UNITS, |cs| - i);
      Later(cs, i, next);
      SlotsSplit(cp, cs[i..], check, number);
      LastSlot(all, k - pos, if next == |cs| then [] else LongSlots(cp, cs[next..], check, number + 1),
        FrontSlot(cp, cs[i..], check, number));
      k, number, from, i := k - 1, number + 1, from + processed, next;
    }
    BytesSize(cs[i..]);
  }

  lemma Later(cs: seq<Code>, i: nat, next: nat)
    requires i <= next <= |cs|
    ensures cs[i..][next - i..] == cs[next..]
  {
  }

  lemma LastSlot(all: seq<Slot>, k: nat, rest: seq<Slot>, s: Slot)
    requires k < |all| && all[..k + 1] == rest + [s]
    ensures all[..k] == rest && all[k] == s
  {
    assert all[k] == all[..k + 1][k];
    assert all[..k] == all[..k + 1][..k];
  }

  lemma SurvivorsAreChars(cp: Codepage, cs: seq<Code>)
    requires cp.Shape() && forall i :: 0 <= i < |cs| ==> Survives(cp, cs[i])
    ensures Chars(cp, cs) && forall i :: 0 <= i < |cs| ==> cp.uni[cs[i]] != 0 && cp.uni[cs[i]] != 0xFFFF
  {
  }

  // One round of fSetLongName's loop.
  method SetSlot(cp: Codepage, buf: array<Slot>, k: nat, number: nat, name: seq<Byte>, from: nat, check: Byte,
                 ghost cs: seq<Code>)
    returns (processed: nat)
    requires cp.Shape() && Chars(cp, cs) && cs != []
    requires from <= |name| && name[from..] == Bytes(cs) && k < buf.Length && number < LAST
    modifies buf
    ensures 0 < processed && from + processed <= |name| && name[from + processed..] == Bytes(cs[Min(UNITS, |cs|)..])
    ensures buf[..] == old(buf[..])[k := FrontSlot(cp, cs, check, number)]
  {
    hide Bytes, LnSlot, IsChar, Padded, BeforeZero;
    var left := DbcsStrlen(cp, name, from, cs);
    var units;
    units, processed := Translate2Win(cp, name, from, UNITS, cs);
    BytesSize(cs[..Min(UNITS, |cs|)]);
    var us := Pad(units);
    buf[k] := LnSlot(number + (if left <= UNITS then LAST else 0), check, us);
  }

  // The slot for the first characters of what is left of a name.
  ghost function FrontSlot(cp: Codepage, cs: seq<Code>, check: Byte, number: nat): Slot
    requires cp.Shape() && number < LAST
  {
    LnSlot(number + (if |cs| <= UNITS then LAST else 0), check, SlotUnits(cp, cs[..Min(UNITS, |cs|)]))
  }

  lemma SlotsSplit(cp: Codepage, cs: seq<Code>, check: Byte, number: nat)
    requires cp.Shape() && cs != [] && number + SlotsFor(|cs|) <= LAST
    ensures var rest := cs[Min(UNITS, |cs|)..];
      LongSlots(cp, cs, check, number) ==
        (if rest == [] then [] else LongSlots(cp, rest, check, number + 1)) + [FrontSlot(cp, cs, check, number)]
  {
    if |cs| <= UNITS {
      assert cs[..|cs|] == cs;
    }
  }

  // ---------------------------------------------------------------- the way back

  // The slots of a directory read one after the other.
  ghost function ReadSlots(cp: Codepage, r: Reading, ss: seq<Slot>, max: nat): Reading
    requires cp.Shape()
  {
    if ss == [] then r else ReadSlot(cp, ReadSlots(cp, r, ss[..|ss| - 1], max), ss[|ss| - 1], max)
  }

  lemma {:induction false} AllOk(cp: Codepage, cs: seq<Code>, check: Byte, number: nat)
    requires cp.Shape() && cs != [] && 0 < number && number + SlotsFor(|cs|) <= LAST
    ensures forall i :: 0 <= i < SlotsFor(|cs|) ==> LongSlotOk(LongSlots(cp, cs, check, number)[i], check)
    decreases |cs|
  {
    hide LongSlots, LnSlot;
    SlotsSplit(cp, cs, check, number);
    FrontOk(cp, cs, check, number);
    var rest := cs[Min(UNITS, |cs|)..];
    if rest != [] {
      AllOk(cp, rest, check, number + 1);
    }
  }

  predicate LongSlotOk(s: Slot, check: Byte) { CheckOf(s) == check && LiveLong(s) }

  lemma FrontOk(cp: Codepage, cs: seq<Code>, check: Byte, number: nat)
    requires cp.Shape() && 0 < number < LAST
    ensures LongSlotOk(FrontSlot(cp, cs, check, number), check)
  {
  }

  // Reading the slots of a name, in directory order, gives the name, whatever name and
  // checksum were in the buffer before, as long as a name with the same checksum was
  // not left there.
  lemma {:induction false} RoundTrip(cp: Codepage, cs: seq<Code>, check: Byte, number: nat, r: Reading, max: nat)
    requires cp.Shape() && cs != [] && 0 < number && number + SlotsFor(|cs|) <= LAST
    requires forall i :: 0 <= i < |cs| ==> Survives(cp, cs[i])
    requires |Bytes(cs)| <= max && (r.check == check ==> r.name == [])
    ensures ReadSlots(cp, r, LongSlots(cp, cs, check, number), max) == Reading(Bytes(cs), check)
    decreases |cs|
  {
    hide LongSlots, LnSlot, Survives, SlotText, Bytes, FrontSlot, ReadSlots, LongSlotOk;
    SlotsSplit(cp, cs, check, number);
    var n := Min(UNITS, |cs|);
    var rest, ss := cs[n..], LongSlots(cp, cs, check, number);
    FrontText(cp, cs, check, number);
    BytesConcat(cs[..n], rest);
    assert cs[..n] + rest == cs;
    var front := FrontSlot(cp, cs, check, number);
    if rest == [] {
      ReadLast(cp, r, [], front, max);
      assert Bytes(cs[..n]) + [] == Bytes(cs[..n]);
      NoBytes();
    } else {
      RoundTrip(cp, rest, check, number + 1, r, max);
      ReadLast(cp, r, LongSlots(cp, rest, check, number + 1), front, max);
    }
  }

  // Every name in some characters is read back if and only if each of them survives.
  lemma AllNamesBack(cp: Codepage, chars: iset<Code>, check: Byte, r: Reading, max: nat)
    requires cp.Shape() && (forall c :: c in chars ==> IsChar(cp, c)) && (r.check == check ==> r.name == [])
    requires 255 <= max
    ensures (forall cs: seq<Code> :: ReadsBack(cp, chars, cs, check, r, max)) <==> forall c :: c in chars ==>
      Survives(cp, c)
  {
    hide Survives, IsChar, LongSlots, ReadSlots, Bytes;
    if forall c :: c in chars ==> Survives(cp, c) {
      forall cs: seq<Code> ensures ReadsBack(cp, chars, cs, check, r, max) {
        if IsName(chars, cs) {
          BytesSize(cs);
          RoundTrip(cp, cs, check, 1, r, max);
        }
      }
    }
    if forall cs: seq<Code> :: ReadsBack(cp, chars, cs, check, r, max) {
      forall c | c in chars ensures Survives(cp, c) {
        assert ReadsBack(cp, chars, [c], check, r, max);
        OneNameBack(cp, chars, c, check, r, max);
      }
    }
  }

  ghost predicate IsName(chars: iset<Code>, cs: seq<Code>) {
    cs != [] && |Bytes(cs)| <= 255 && forall i :: 0 <= i < |cs| ==> cs[i] in chars
  }

  ghost predicate ReadsBack(cp: Codepage, chars: iset<Code>, cs: seq<Code>, check: Byte, r: Reading, max: nat)
    requires cp.Shape()
  {
    IsName(chars, cs) ==>
      && 1 + SlotsFor(|cs|) <= LAST
      && ReadSlots(cp, r, LongSlots(cp, cs, check, 1), max) == Reading(Bytes(cs), check)
  }

  lemma OneNameBack(cp: Codepage, chars: iset<Code>, c: Code, check: Byte, r: Reading, max: nat)
    requires cp.Shape() && c in chars && IsChar(cp, c) && (r.check == check ==> r.name == [])
    requires ReadsBack(cp, chars, [c], check, r, max)
    ensures Survives(cp, c)
  {
    hide Survives, IsChar, LnSlot, SlotUnits, Bytes, ReadSlots, SlotText;
    OneChar(c);
    var s := LnSlot(1 + LAST, check, SlotUnits(cp, [c]));
    assert LongSlots(cp, [c], check, 1) == [s];
    TextOfSlot(cp, 1 + LAST, check, [c]);
    ReadLast(cp, r, [], s, max);
    OneCharBack(cp, 1 + LAST, check, c);
    assert SlotText(cp, s) + [] == SlotText(cp, s);
  }

  lemma NoBytes()
    ensures Bytes([]) == []
  {
  }

  lemma ReadLast(cp: Codepage, r: Reading, ss: seq<Slot>, s: Slot, max: nat)
    requires cp.Shape()
    ensures ReadSlots(cp, r, ss + [s], max) == ReadSlot(cp, ReadSlots(cp, r, ss, max), s, max)
    ensures ss == [] ==> ReadSlots(cp, r, ss, max) == r
    ensures [] + [s] == [s]
  {
    assert (ss + [s])[..|ss|] == ss;
  }

  lemma FrontText(cp: Codepage, cs: seq<Code>, check: Byte, number: nat)
    requires cp.Shape() && number < LAST && forall i :: 0 <= i < |cs| ==> Survives(cp, cs[i])
    ensures var s := FrontSlot(cp, cs, check, number);
      CheckOf(s) == check && SlotText(cp, s) == Bytes(cs[..Min(UNITS, |cs|)])
  {
    SlotTextBack(cp, number + (if |cs| <= UNITS then LAST else 0), check, cs[..Min(UNITS, |cs|)]);
  }

  // With a live short entry behind them they are a group, as ModifyDirectory inserts it.
  lemma NameGroup(cp: Codepage, cs: seq<Code>, check: Byte, short: Slot)
    requires cp.Shape() && (cs == [] || 1 + SlotsFor(|cs|) <= LAST) && !Free(short) && !LongAttr(short)
    ensures DirEdits.Group((if cs == [] then [] else LongSlots(cp, cs, check, 1)) + [short])
  {
    if cs != [] {
      AllOk(cp, cs, check, 1);
    }
  }
}

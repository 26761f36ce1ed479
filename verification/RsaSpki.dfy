/**
 The DER encoding of an RSA public key (SubjectPublicKeyInfo, section 4.1.2.7 of RFC 5280): four
 nested lengths are computed first and written later, by another routine. The encoding is proved
 against a strict reader of the distinguished encoding rules (sections 8.1.3, 8.3 and 10.1 of
 ITU-T X.690).
 */
module RsaSpki {
  import opened Common

  /** size_t. */
  const SIZE_MODULUS := 0x1_0000_0000_0000_0000

  const TAG_INTEGER: byte := 0x02
  const TAG_BIT_STRING: byte := 0x03
  const TAG_SEQUENCE: byte := 0x30
  /** rsaEncryption with NULL parameters (appendix A.1 of RFC 8017). */
  const ALG_ID_CONTENT: seq<byte> := [0x06, 0x09, 0x2A, 0x86, 0x48, 0x86, 0xF7, 0x0D, 0x01, 0x01, 0x01, 0x05, 0x00]
  const ALG_ID: seq<byte> := [0x30, 0x0D, 0x06, 0x09, 0x2A, 0x86, 0x48, 0x86, 0xF7, 0x0D, 0x01, 0x01, 0x01, 0x05, 0x00]
  const EXPONENT: seq<byte> := [0x01, 0x00, 0x01]

  // ----- what the encoding is

  /** The bytes of a number, most significant first, without leading zeros. */
  function BigEndian(n: nat): (s: seq<byte>)
    ensures n > 0 ==> s != [] && s[0] != 0
  {
    if n == 0 then [] else BigEndian(n / 0x100) + [n % 0x100]
  }

  function FromBigEndian(s: seq<byte>): nat {
    if s == [] then 0 else 0x100 * FromBigEndian(s[..|s| - 1]) + s[|s| - 1]
  }

  function DerLength(n: nat): (s: seq<byte>)
    requires n < SIZE_MODULUS
    ensures s != []
  {
    if n < 0x80 then [n]
    else BigEndianWidth(n, 8); [0x80 + |BigEndian(n)|] + BigEndian(n)
  }

  function Tlv(tag: byte, content: seq<byte>): seq<byte>
    requires |content| < SIZE_MODULUS
  {
    [tag] + DerLength(|content|) + content
  }

  /** The contents of the INTEGER: a leading zero keeps the number from being read as negative. */
  function ModulusContent(modulus: seq<byte>): (s: seq<byte>)
    requires modulus != []
    ensures |s| <= |modulus| + 1
  {
    if modulus[0] >= 0x80 then [0] + modulus else modulus
  }

  function KeyContent(modulus: seq<byte>): (s: seq<byte>)
    requires modulus != [] && |modulus| + 64 < SIZE_MODULUS
    ensures |s| <= |modulus| + 16
  {
    LengthWidth(|ModulusContent(modulus)|);
    LengthWidth(|EXPONENT|);
    Tlv(TAG_INTEGER, ModulusContent(modulus)) + Tlv(TAG_INTEGER, EXPONENT)
  }

  function BitContent(modulus: seq<byte>): (s: seq<byte>)
    requires modulus != [] && |modulus| + 64 < SIZE_MODULUS
    ensures |s| <= |modulus| + 27
  {
    LengthWidth(|KeyContent(modulus)|);
    [0] + Tlv(TAG_SEQUENCE, KeyContent(modulus))
  }

  function SpkiContent(modulus: seq<byte>): (s: seq<byte>)
    requires modulus != [] && |modulus| + 64 < SIZE_MODULUS
    ensures |s| <= |modulus| + 52
  {
    LengthWidth(|BitContent(modulus)|);
    ALG_ID + Tlv(TAG_BIT_STRING, BitContent(modulus))
  }

  function Spki(modulus: seq<byte>): (s: seq<byte>)
    requires modulus != [] && |modulus| + 64 < SIZE_MODULUS
    ensures |s| < SIZE_MODULUS
  {
    LengthWidth(|SpkiContent(modulus)|);
    Tlv(TAG_SEQUENCE, SpkiContent(modulus))
  }

  function Pow256(k: nat): nat {
    if k == 0 then 1 else 0x100 * Pow256(k - 1)
  }

  lemma {:induction false} BigEndianWidth(n: nat, k: nat)
    requires n < Pow256(k) || (k == 8 && n < SIZE_MODULUS)
    ensures |BigEndian(n)| <= k
    decreases k
  {
    if k == 8 {
      assert Pow256(2) == 0x1_0000 && Pow256(4) == 0x1_0000_0000;
      assert Pow256(6) == 0x1_0000_0000_0000 && Pow256(8) == SIZE_MODULUS;
    }
    if n > 0 {
      if k == 0 {
        assert false;
      } else {
        BigEndianWidth(n / 0x100, k - 1);
      }
    }
  }

  lemma LengthWidth(n: nat)
    requires n < SIZE_MODULUS
    ensures |DerLength(n)| <= 9 && (n < 0x80 ==> |DerLength(n)| == 1)
  {
    BigEndianWidth(n, 8);
  }

  // ----- a strict reader

  datatype Parsed = Parsed(content: seq<byte>, rest: seq<byte>)

  /** The length octets and what follows them; the shortest form only. */
  function ReadLength(s: seq<byte>): Option<(nat, seq<byte>)> {
    if s == [] then None
    else if s[0] < 0x80 then Some((s[0] as nat, s[1..]))
    else
      var k := s[0] - 0x80;
      if k == 0 || |s| < 1 + k || s[1] == 0 || FromBigEndian(s[1..1 + k]) < 0x80 then None
      else Some((FromBigEndian(s[1..1 + k]), s[1 + k..]))
  }

  function ReadTlv(tag: byte, s: seq<byte>): Option<Parsed> {
    if s == [] || s[0] != tag then None
    else
      var length := ReadLength(s[1..]);
      if length.None? || |length.value.1| < length.value.0 then None
      else Some(Parsed(length.value.1[..length.value.0], length.value.1[length.value.0..]))
  }

  /** Contents octets of a non-negative INTEGER: the first nine bits are not all zero. */
  function ReadUnsigned(c: seq<byte>): Option<nat> {
    if c == [] || c[0] >= 0x80 || (|c| > 1 && c[0] == 0 && c[1] < 0x80) then None else Some(FromBigEndian(c))
  }

  datatype PublicKey = PublicKey(modulus: nat, exponent: nat)

  function ReadKey(s: seq<byte>): Option<PublicKey> {
    var n := ReadTlv(TAG_INTEGER, s);
    if n.None? then None
    else
      var e := ReadTlv(TAG_INTEGER, n.value.rest);
      if e.None? || e.value.rest != [] then None
      else
        var modulus, exponent := ReadUnsigned(n.value.content), ReadUnsigned(e.value.content);
        if modulus.None? || exponent.None? then None else Some(PublicKey(modulus.value, exponent.value))
  }

  function ReadSpki(s: seq<byte>): Option<PublicKey> {
    var outer := ReadTlv(TAG_SEQUENCE, s);
    if outer.None? || outer.value.rest != [] then None
    else
      var alg := ReadTlv(TAG_SEQUENCE, outer.value.content);
      if alg.None? || alg.value.content != ALG_ID_CONTENT then None
      else
        var bits := ReadTlv(TAG_BIT_STRING, alg.value.rest);
        if bits.None? || bits.value.rest != [] || bits.value.content == [] || bits.value.content[0] != 0 then None
        else
          var key := ReadTlv(TAG_SEQUENCE, bits.value.content[1..]);
          if key.None? || key.value.rest != [] then None else ReadKey(key.value.content)
  }

  lemma {:induction false} FromBigEndianOf(n: nat)
    ensures FromBigEndian(BigEndian(n)) == n
  {
    if n > 0 {
      FromBigEndianOf(n / 0x100);
      var s := BigEndian(n);
      assert s[..|s| - 1] == BigEndian(n / 0x100);
    }
  }

  lemma {:induction false} LeadingZero(s: seq<byte>)
    ensures FromBigEndian([0] + s) == FromBigEndian(s)
  {
    if s == [] {
      assert ([0] + s)[..0] == [];
    } else {
      LeadingZero(s[..|s| - 1]);
      assert ([0] + s)[..|s|] == [0] + s[..|s| - 1];
    }
  }

  lemma ReadLengthOf(n: nat, rest: seq<byte>)
    requires n < SIZE_MODULUS
    ensures ReadLength(DerLength(n) + rest) == Some((n, rest))
  {
    if n >= 0x80 {
      BigEndianWidth(n, 8);
      FromBigEndianOf(n);
      var s, k := DerLength(n) + rest, |BigEndian(n)|;
      assert s[1..1 + k] == BigEndian(n) && s[1 + k..] == rest;
    }
  }

  /** Reading what was written: the length covers the content exactly. */
  lemma ReadTlvOf(tag: byte, content: seq<byte>, rest: seq<byte>)
    requires |content| < SIZE_MODULUS
    ensures ReadTlv(tag, Tlv(tag, content) + rest) == Some(Parsed(content, rest))
  {
    hide DerLength, ReadLength;
    var s := Tlv(tag, content) + rest;
    ReadLengthOf(|content|, content + rest);
    assert s[0] == tag && s[1..] == DerLength(|content|) + (content + rest);
    var body := content + rest;
    assert body[..|content|] == content && body[|content|..] == rest;
    assert ReadLength(s[1..]) == Some((|content|, body));
  }

  /** A modulus without superfluous leading zeros. */
  ghost predicate Normal(modulus: seq<byte>) {
    |modulus| <= 1 || modulus[0] != 0 || modulus[1] >= 0x80
  }

  lemma ReadModulus(modulus: seq<byte>)
    requires modulus != []
    ensures ReadUnsigned(ModulusContent(modulus)) == if Normal(modulus) then Some(FromBigEndian(modulus)) else None
  {
    LeadingZero(modulus);
  }

  lemma ReadExponent()
    ensures ReadUnsigned(EXPONENT) == Some(65537)
  {
    assert EXPONENT[..2] == [0x01, 0x00] && [0x01 as byte, 0x00][..1] == [0x01] && [0x01 as byte][..0] == [];
    assert FromBigEndian([0x01]) == 1;
    assert FromBigEndian([0x01, 0x00]) == 0x100;
  }

  lemma ReadKeyOf(modulus: seq<byte>)
    requires modulus != [] && |modulus| + 64 < SIZE_MODULUS
    ensures ReadKey(KeyContent(modulus)) ==
            if Normal(modulus) then Some(PublicKey(FromBigEndian(modulus), 65537)) else None
  {
    hide Tlv, ReadTlv, ReadUnsigned, ModulusContent, FromBigEndian;
    ReadTlvOf(TAG_INTEGER, ModulusContent(modulus), Tlv(TAG_INTEGER, EXPONENT));
    ReadTlvOf(TAG_INTEGER, EXPONENT, []);
    assert Tlv(TAG_INTEGER, EXPONENT) + [] == Tlv(TAG_INTEGER, EXPONENT);
    ReadModulus(modulus);
    ReadExponent();
  }

  /** The round trip: the reader recovers modulus and exponent from the encoding exactly when the
      modulus has no superfluous leading zeros; otherwise its INTEGER is not distinguished. */
  lemma SpkiRoundTrip(modulus: seq<byte>)
    requires modulus != [] && |modulus| + 64 < SIZE_MODULUS
    ensures ReadSpki(Spki(modulus)) ==
            if Normal(modulus) then Some(PublicKey(FromBigEndian(modulus), 65537)) else None
  {
    hide Tlv, ReadTlv, ReadKey, KeyContent, BitContent, SpkiContent, Spki, FromBigEndian, Normal, DerLength;
    var key, bits, outer := KeyContent(modulus), BitContent(modulus), SpkiContent(modulus);
    SpkiIs(modulus);
    ReadTlvOf(TAG_SEQUENCE, outer, []);
    ReadAlgId(Tlv(TAG_BIT_STRING, bits));
    ReadTlvOf(TAG_BIT_STRING, bits, []);
    ReadTlvOf(TAG_SEQUENCE, key, []);
    ReadKeyOf(modulus);
  }

  /** A modulus with a superfluous zero is encoded, but not as DER. */
  lemma LeadingZeroIsRefused()
    ensures ReadSpki(Spki([0, 1])) == None && |Spki([0, 1])| <= 800
  {
    SpkiRoundTrip([0, 1]);
    LengthWidth(|SpkiContent([0, 1])|);
  }

  lemma SpkiIs(modulus: seq<byte>)
    requires modulus != [] && |modulus| + 64 < SIZE_MODULUS
    ensures var key, bits, outer := KeyContent(modulus), BitContent(modulus), SpkiContent(modulus);
            && Spki(modulus) == Tlv(TAG_SEQUENCE, outer) + []
            && outer == ALG_ID + (Tlv(TAG_BIT_STRING, bits) + [])
            && Tlv(TAG_BIT_STRING, bits) == Tlv(TAG_BIT_STRING, bits) + []
            && bits != [] && bits[0] == 0 && bits[1..] == Tlv(TAG_SEQUENCE, key) + []
  {
    hide Tlv, KeyContent;
  }

  lemma ReadAlgId(rest: seq<byte>)
    ensures ReadTlv(TAG_SEQUENCE, ALG_ID + rest) == Some(Parsed(ALG_ID_CONTENT, rest))
  {
    assert Tlv(TAG_SEQUENCE, ALG_ID_CONTENT) == ALG_ID;
    ReadTlvOf(TAG_SEQUENCE, ALG_ID_CONTENT, rest);
  }

  // ----- the encoder

  method DerLenBytes(length: nat) returns (r: nat)
    requires length < SIZE_MODULUS
    ensures r == |DerLength(length)|
  {
    if length < 0x80 {
      return 1;
    }
    BigEndianWidth(length, 8);
    var n, rest := 0, length;
    while rest > 0
      invariant n + |BigEndian(rest)| == |BigEndian(length)|
    {
      n := n + 1;
      rest := rest / 0x100;
    }
    return 1 + n;
  }

  /** Appends the length octets at pos, if they fit. */
  method DerWriteLen(out: array<byte>, pos: nat, length: nat) returns (ok: bool, end: nat)
    requires length < SIZE_MODULUS && pos <= out.Length
    modifies out
    ensures ok == (pos + |DerLength(length)| <= out.Length)
    ensures ok ==> end == pos + |DerLength(length)| && out[..] == Overwrite(old(out[..]), pos, DerLength(length))
    ensures !ok ==> out[..] == old(out[..])
  {
    if pos >= out.Length {
      return false, pos;
    }
    if length < 0x80 {
      out[pos] := length;
      return true, pos + 1;
    }
    var lenBytes, lenLen := LowBytesFirst(length);
    if lenLen > 8 || pos + 1 + lenLen > out.Length {
      return false, pos;
    }
    end := WriteReversed(out, pos, 0x80 + lenLen, lenBytes, lenLen);
    return true, end;
  }

  /** The bytes of the length, least significant first; a length of eight bytes always has room. */
  method LowBytesFirst(length: nat) returns (lenBytes: array<byte>, lenLen: nat)
    requires length < SIZE_MODULUS
    ensures fresh(lenBytes) && lenLen <= lenBytes.Length == 8
    ensures Reversed(lenBytes[..lenLen]) == BigEndian(length)
  {
    BigEndianWidth(length, 8);
    hide BigEndian, Reversed;
    lenBytes := new byte[8](_ => 0);
    lenLen := 0;
    var rest := length;
    NoDigits();
    AppendNothing(BigEndian(length));
    assert lenBytes[..0] == [];
    while rest > 0
      invariant 0 <= lenLen <= 8
      invariant BigEndian(length) == BigEndian(rest) + Reversed(lenBytes[..lenLen])
    {
      ghost var collected := lenBytes[..lenLen];
      DigitStep(rest, collected);
      lenBytes[lenLen] := rest % 0x100;
      lenLen := lenLen + 1;
      assert lenBytes[..lenLen] == collected + [rest % 0x100];
      rest := rest / 0x100;
    }
    AppendNothing(Reversed(lenBytes[..lenLen]));
  }

  /** The first length octet and then the collected bytes, last one first. */
  method WriteReversed(out: array<byte>, pos: nat, first: byte, lenBytes: array<byte>, lenLen: nat) returns (end: nat)
    requires out != lenBytes && lenLen <= lenBytes.Length && pos + 1 + lenLen <= out.Length
    modifies out
    ensures end == pos + 1 + lenLen
    ensures out[..] == Overwrite(old(out[..]), pos, [first] + Reversed(lenBytes[..lenLen]))
  {
    ghost var before := out[..];
    ghost var be := Reversed(lenBytes[..lenLen]);
    out[pos] := first;
    end := pos + 1;
    var i := 0;
    while i < lenLen
      invariant 0 <= i <= lenLen && end == pos + 1 + i
      invariant out[pos] == first
      invariant forall k :: 0 <= k < i ==> out[pos + 1 + k] == be[k]
      invariant forall k :: 0 <= k < pos || end <= k < out.Length ==> out[k] == before[k]
    {
      out[end] := lenBytes[lenLen - 1 - i];
      end := end + 1;
      i := i + 1;
    }
    assert out[..] == Overwrite(before, pos, [first] + be);
  }

  lemma NoDigits()
    ensures BigEndian(0) == [] && Reversed([]) == []
  {}

  lemma AppendNothing(s: seq<byte>)
    ensures s + [] == s && [] + s == s
  {}

  /** Moving the lowest digit of the rest to the collected bytes. */
  lemma DigitStep(rest: nat, collected: seq<byte>)
    requires rest > 0
    ensures BigEndian(rest) + Reversed(collected) == BigEndian(rest / 0x100) + Reversed(collected + [rest % 0x100])
    ensures |BigEndian(rest)| > 0
    ensures |Reversed(collected)| == |collected|
  {
    ReversedSnoc(collected, rest % 0x100);
    AppendAssoc(BigEndian(rest / 0x100), [rest % 0x100], Reversed(collected));
  }

  method DerWriteTagLen(out: array<byte>, pos: nat, tag: byte, length: nat) returns (ok: bool, end: nat)
    requires length < SIZE_MODULUS && pos <= out.Length
    modifies out
    ensures ok == (pos + 1 + |DerLength(length)| <= out.Length)
    ensures ok ==> end == pos + 1 + |DerLength(length)|
    ensures ok ==> out[..] == Overwrite(old(out[..]), pos, [tag] + DerLength(length))
  {
    if pos + 1 > out.Length {
      return false, pos;
    }
    ghost var before := out[..];
    out[pos] := tag;
    assert out[..] == Overwrite(before, pos, [tag]);
    ok, end := DerWriteLen(out, pos + 1, length);
    if ok {
      OverwriteTwice(before, pos, [tag], DerLength(length));
    }
  }

  lemma OverwriteTwice(s: seq<byte>, at: nat, a: seq<byte>, b: seq<byte>)
    requires at + |a| + |b| <= |s|
    ensures Overwrite(Overwrite(s, at, a), at + |a|, b) == Overwrite(s, at, a + b)
  {}

  /** All of "total" but "rest" stands at the start of the buffer, the remainder is as before. */
  ghost predicate Progress(now: seq<byte>, pos: nat, before: seq<byte>, total: seq<byte>, rest: seq<byte>) {
    && |total| <= |before| == |now| && pos + |rest| == |total|
    && total[pos..] == rest
    && now == Overwrite(before, 0, total[..pos])
  }

  method PutTagLen(out: array<byte>, pos: nat, tag: byte, length: nat,
                   ghost before: seq<byte>, ghost total: seq<byte>, ghost rest: seq<byte>)
    returns (ok: bool, end: nat)
    requires length < SIZE_MODULUS && Progress(out[..], pos, before, total, ([tag] + DerLength(length)) + rest)
    modifies out
    ensures ok && Progress(out[..], end, before, total, rest)
  {
    ok, end := DerWriteTagLen(out, pos, tag, length);
    ghost var piece := [tag] + DerLength(length);
    hide DerLength;
    Advance(before, total, pos, piece, rest);
  }

  method PutBytes(out: array<byte>, pos: nat, bytes: seq<byte>,
                  ghost before: seq<byte>, ghost total: seq<byte>, ghost rest: seq<byte>)
    returns (end: nat)
    requires Progress(out[..], pos, before, total, bytes + rest)
    modifies out
    ensures Progress(out[..], end, before, total, rest)
  {
    CopyTo(out, pos, bytes);
    Advance(before, total, pos, bytes, rest);
    return pos + |bytes|;
  }

  lemma Advance(before: seq<byte>, total: seq<byte>, pos: nat, piece: seq<byte>, rest: seq<byte>)
    requires |total| <= |before| && pos + |piece| + |rest| == |total| && total[pos..] == piece + rest
    ensures Progress(Overwrite(Overwrite(before, 0, total[..pos]), pos, piece), pos + |piece|, before, total, rest)
  {
    OverwriteTwice(before, 0, total[..pos], piece);
    assert total[pos..][|piece|..] == total[pos + |piece|..];
    assert total[..pos + |piece|] == total[..pos] + piece;
  }

  lemma Start(before: seq<byte>, total: seq<byte>)
    requires |total| <= |before|
    ensures Progress(before, 0, before, total, total)
  {}

  lemma Done(now: seq<byte>, pos: nat, before: seq<byte>, total: seq<byte>)
    requires Progress(now, pos, before, total, [])
    ensures pos == |total| <= |before| && now == Overwrite(before, 0, total)
  {
    assert total[..pos] == total;
  }

  /** The lengths of the nested fields, from the inside out. */
  method NestedLengths(modulus: seq<byte>)
    returns (modValLen: nat, rsaContentLen: nat, bitContentLen: nat, spkiContentLen: nat, spkiSeqLen: nat)
    requires modulus != [] && |modulus| + 64 < SIZE_MODULUS
    ensures modValLen == |ModulusContent(modulus)| && rsaContentLen == |KeyContent(modulus)|
    ensures bitContentLen == |BitContent(modulus)| && spkiContentLen == |SpkiContent(modulus)|
    ensures spkiSeqLen == |Spki(modulus)|
  {
    Layers(modulus);
    hide DerLength, Tlv, Spki, SpkiContent, BitContent, KeyContent, ModulusContent;
    var modNeedsZero := modulus[0] >= 0x80;
    modValLen := |modulus| + if modNeedsZero then 1 else 0;
    var modTlvLen := TlvLength(modValLen, TAG_INTEGER, ModulusContent(modulus));
    var expTlvLen := TlvLength(|EXPONENT|, TAG_INTEGER, EXPONENT);
    rsaContentLen := modTlvLen + expTlvLen;
    var rsaSeqLen := TlvLength(rsaContentLen, TAG_SEQUENCE, KeyContent(modulus));
    bitContentLen := 1 + rsaSeqLen;
    var bitTlvLen := TlvLength(bitContentLen, TAG_BIT_STRING, BitContent(modulus));
    spkiContentLen := |ALG_ID| + bitTlvLen;
    spkiSeqLen := TlvLength(spkiContentLen, TAG_SEQUENCE, SpkiContent(modulus));
  }

  /** Tag, length octets and contents. */
  method TlvLength(length: nat, ghost tag: byte, ghost content: seq<byte>) returns (r: nat)
    requires length == |content| < SIZE_MODULUS
    ensures r == |Tlv(tag, content)|
  {
    var k := DerLenBytes(length);
    r := 1 + k + length;
  }

  /** Succeeds exactly when the modulus is not empty and the encoding fits; then the encoding stands
      at the start of the buffer and nothing behind it has changed. */
  method BuildRsaSpkiDer(modulus: seq<byte>, out: array<byte>) returns (ok: bool, outWritten: nat)
    requires |modulus| + 64 < SIZE_MODULUS
    modifies out
    ensures ok <==> modulus != [] && |Spki(modulus)| <= out.Length
    ensures ok ==> outWritten == |Spki(modulus)| && out[..] == Overwrite(old(out[..]), 0, Spki(modulus))
    ensures !ok ==> out[..] == old(out[..])
  {
    if |modulus| == 0 {
      return false, 0;
    }
    var modValLen, rsaContentLen, bitContentLen, spkiContentLen, spkiSeqLen := NestedLengths(modulus);
    if spkiSeqLen > out.Length {
      return false, 0;
    }
    Layers(modulus);
    hide Progress, DerLength, Tlv, Overwrite, Spki, SpkiContent, BitContent, KeyContent, ModulusContent;
    ghost var total, before := Spki(modulus), out[..];
    ghost var exponent := Tlv(TAG_INTEGER, EXPONENT);
    Start(before, total);
    var pos := 0;
    ok, pos := PutTagLen(out, pos, TAG_SEQUENCE, spkiContentLen, before, total, SpkiContent(modulus));
    pos := PutBytes(out, pos, ALG_ID, before, total, Tlv(TAG_BIT_STRING, BitContent(modulus)));
    ok, pos := PutTagLen(out, pos, TAG_BIT_STRING, bitContentLen, before, total, BitContent(modulus));
    pos := PutBytes(out, pos, [0], before, total, Tlv(TAG_SEQUENCE, KeyContent(modulus)));
    ok, pos := PutTagLen(out, pos, TAG_SEQUENCE, rsaContentLen, before, total, KeyContent(modulus));
    ok, pos := PutTagLen(out, pos, TAG_INTEGER, modValLen, before, total, ModulusContent(modulus) + exponent);
    if modulus[0] >= 0x80 {
      AppendAssoc([0], modulus, exponent);
      pos := PutBytes(out, pos, [0], before, total, modulus + exponent);
    }
    pos := PutBytes(out, pos, modulus, before, total, exponent);
    ok, pos := PutTagLen(out, pos, TAG_INTEGER, |EXPONENT|, before, total, EXPONENT);
    AppendNothing(EXPONENT);
    pos := PutBytes(out, pos, EXPONENT, before, total, []);
    Done(out[..], pos, before, total);
    return true, pos;
  }

  /** Each level as its tag and length in front of its content. */
  lemma Layers(modulus: seq<byte>)
    requires modulus != [] && |modulus| + 64 < SIZE_MODULUS
    ensures var exponent := Tlv(TAG_INTEGER, EXPONENT);
            var m := ModulusContent(modulus);
            && Spki(modulus) == ([TAG_SEQUENCE] + DerLength(|SpkiContent(modulus)|)) + SpkiContent(modulus)
            && Spki(modulus) == [] + Spki(modulus)
            && SpkiContent(modulus) == ALG_ID + Tlv(TAG_BIT_STRING, BitContent(modulus))
            && Tlv(TAG_BIT_STRING, BitContent(modulus)) ==
               ([TAG_BIT_STRING] + DerLength(|BitContent(modulus)|)) + BitContent(modulus)
            && BitContent(modulus) == [0] + Tlv(TAG_SEQUENCE, KeyContent(modulus))
            && Tlv(TAG_SEQUENCE, KeyContent(modulus)) ==
               ([TAG_SEQUENCE] + DerLength(|KeyContent(modulus)|)) + KeyContent(modulus)
            && KeyContent(modulus) == ([TAG_INTEGER] + DerLength(|m|)) + (m + exponent)
            && exponent == ([TAG_INTEGER] + DerLength(|EXPONENT|)) + EXPONENT
            && m == if modulus[0] >= 0x80 then [0] + modulus else modulus
  {
    AppendAssoc([TAG_INTEGER] + DerLength(|ModulusContent(modulus)|), ModulusContent(modulus),
                Tlv(TAG_INTEGER, EXPONENT));
  }

  const RSA_NUM_BYTES := 512

  /** Any key of 512 bytes fits the buffer of 800 bytes it is encoded into. */
  lemma KeyFitsBuffer(modulus: seq<byte>)
    requires |modulus| == RSA_NUM_BYTES
    ensures |Spki(modulus)| <= 550
  {
    LengthOfTwoBytes(|ModulusContent(modulus)|);
    LengthWidth(|EXPONENT|);
    LengthOfTwoBytes(|KeyContent(modulus)|);
    LengthOfTwoBytes(|BitContent(modulus)|);
    LengthOfTwoBytes(|SpkiContent(modulus)|);
  }

  lemma LengthOfTwoBytes(n: nat)
    requires 0x100 <= n < 0x1_0000
    ensures DerLength(n) == [0x82, n / 0x100, n % 0x100]
  {
    assert n / 0x100 / 0x100 == 0;
    assert BigEndian(n / 0x100) == [] + [n / 0x100 % 0x100];
    assert BigEndian(n) == [n / 0x100] + [n % 0x100];
  }

  /** The octets of a key of 512 bytes: a SEQUENCE of the algorithm, rsaEncryption (1.2.840.113549.1.1.1)
      with NULL, and a BIT STRING of the SEQUENCE of two INTEGERs. */
  lemma KeyOctets(modulus: seq<byte>)
    requires |modulus| == RSA_NUM_BYTES
    ensures modulus[0] >= 0x80 ==>
              Spki(modulus) ==
              [0x30, 0x82, 0x02, 0x22] +
              ([0x30, 0x0D, 0x06, 0x09, 0x2A, 0x86, 0x48, 0x86, 0xF7, 0x0D, 0x01, 0x01, 0x01, 0x05, 0x00] +
               ([0x03, 0x82, 0x02, 0x0F, 0x00, 0x30, 0x82, 0x02, 0x0A] +
                ([0x02, 0x82, 0x02, 0x01, 0x00] + modulus + [0x02, 0x03, 0x01, 0x00, 0x01])))
    ensures modulus[0] < 0x80 ==>
              Spki(modulus) ==
              [0x30, 0x82, 0x02, 0x21] +
              ([0x30, 0x0D, 0x06, 0x09, 0x2A, 0x86, 0x48, 0x86, 0xF7, 0x0D, 0x01, 0x01, 0x01, 0x05, 0x00] +
               ([0x03, 0x82, 0x02, 0x0E, 0x00, 0x30, 0x82, 0x02, 0x09] +
                ([0x02, 0x82, 0x02, 0x00] + modulus + [0x02, 0x03, 0x01, 0x00, 0x01])))
  {
    hide Spki, Tlv, ModulusContent;
    KeyContentOctets(modulus);
    var n := |KeyContent(modulus)|;
    hide KeyContent;
    OuterOctets(modulus, n);
  }

  lemma KeyContentOctets(modulus: seq<byte>)
    requires |modulus| == RSA_NUM_BYTES
    ensures KeyContent(modulus) ==
            (if modulus[0] >= 0x80 then [0x02, 0x82, 0x02, 0x01, 0x00] else [0x02, 0x82, 0x02, 0x00])
            + modulus + [0x02, 0x03, 0x01, 0x00, 0x01]
  {
    LengthOfTwoBytes(|ModulusContent(modulus)|);
    hide DerLength;
    ExponentOctets();
    if modulus[0] >= 0x80 {
      assert [0x02] + [0x82, 0x02, 0x01] + ([0] + modulus) == [0x02, 0x82, 0x02, 0x01, 0x00] + modulus;
    } else {
      assert [0x02] + [0x82, 0x02, 0x00] + modulus == [0x02, 0x82, 0x02, 0x00] + modulus;
    }
  }

  lemma ExponentOctets()
    ensures Tlv(TAG_INTEGER, EXPONENT) == [0x02, 0x03, 0x01, 0x00, 0x01]
  {}

  /** What stands in front of contents of n octets, from 512 to 600. */
  lemma OuterOctets(modulus: seq<byte>, n: nat)
    requires modulus != [] && |modulus| + 64 < SIZE_MODULUS && |KeyContent(modulus)| == n && 512 <= n < 600
    ensures Spki(modulus) ==
            [0x30, 0x82, (n + 24) / 0x100, (n + 24) % 0x100] +
            ([0x30, 0x0D, 0x06, 0x09, 0x2A, 0x86, 0x48, 0x86, 0xF7, 0x0D, 0x01, 0x01, 0x01, 0x05, 0x00] +
             ([0x03, 0x82, (n + 5) / 0x100, (n + 5) % 0x100, 0x00, 0x30, 0x82, n / 0x100, n % 0x100] +
              KeyContent(modulus)))
  {
    hide KeyContent, BitContent, DerLength;
    BitOctets(modulus, n);
    var bits, key := BitContent(modulus), KeyContent(modulus);
    TwoByteTlv(TAG_BIT_STRING, bits);
    AppendAssoc([0x03, 0x82, (n + 5) / 0x100, (n + 5) % 0x100], [0x00, 0x30, 0x82, n / 0x100, n % 0x100], key);
    hide Tlv;
    assert |SpkiContent(modulus)| == n + 24;
    TwoByteTlv(TAG_SEQUENCE, SpkiContent(modulus));
  }

  lemma TwoByteTlv(tag: byte, content: seq<byte>)
    requires 0x100 <= |content| < 0x1_0000
    ensures Tlv(tag, content) == [tag, 0x82, |content| / 0x100, |content| % 0x100] + content
  {
    hide DerLength;
    LengthOfTwoBytes(|content|);
  }

  lemma BitOctets(modulus: seq<byte>, n: nat)
    requires modulus != [] && |modulus| + 64 < SIZE_MODULUS && |KeyContent(modulus)| == n && 512 <= n < 600
    ensures BitContent(modulus) == [0x00, 0x30, 0x82, n / 0x100, n % 0x100] + KeyContent(modulus)
  {
    hide KeyContent, DerLength;
    LengthOfTwoBytes(n);
  }

  function Reversed(s: seq<byte>): (r: seq<byte>)
    ensures |r| == |s|
    ensures forall i :: 0 <= i < |s| ==> r[i] == s[|s| - 1 - i]
  {
    if s == [] then [] else [s[|s| - 1]] + Reversed(s[..|s| - 1])
  }

  lemma ReversedSnoc(s: seq<byte>, x: byte)
    ensures Reversed(s + [x]) == [x] + Reversed(s)
  {
    assert (s + [x])[..|s|] == s;
  }
}

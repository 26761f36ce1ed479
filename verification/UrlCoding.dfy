/**
 Percent-encoding of C strings (sections 2.1 and 2.3 of RFC 3986) into a bounded buffer, decoding in
 place, and the hexadecimal text both are built on.
 */
module UrlCoding {
  import opened Common

  const NUL: byte := 0
  const SPACE: byte := 32
  const PLUS: byte := 43
  const PERCENT: byte := 37

  // ----- hexadecimal text

  function HexDigit(n: int): byte
    requires 0 <= n < 16
  {
    if n < 10 then 48 + n else 55 + n
  }

  /** Anything that is no hexadecimal digit counts as 0. */
  function HexValue(c: byte): (n: nat)
    ensures n < 16
  {
    if 65 <= c <= 70 then c - 55
    else if 97 <= c <= 102 then c - 87
    else if 48 <= c <= 57 then c - 48
    else 0
  }

  function HexPair(c: byte): (s: seq<byte>)
    ensures |s| == 2
  {
    [HexDigit(c / 16), HexDigit(c % 16)]
  }

  /** The bytes in hexadecimal, a separator between them unless it is NUL. */
  function HexText(s: seq<byte>, separator: byte): seq<byte> {
    if s == [] then []
    else HexText(s[..|s| - 1], separator)
         + (if |s| > 1 && separator != NUL then [separator] else []) + HexPair(s[|s| - 1])
  }

  function HexNumber(s: seq<byte>): nat {
    if s == [] then 0 else 16 * HexNumber(s[..|s| - 1]) + HexValue(s[|s| - 1])
  }

  lemma HexPairRoundTrip(c: byte)
    ensures HexNumber(HexPair(c)) == c && forall h <- HexPair(c) :: h != NUL && h != PERCENT
  {
    var s := HexPair(c);
    assert s[..1] == [s[0]] && [s[0]][..0] == [];
    assert HexNumber([s[0]]) == HexValue(s[0]);
  }

  /** Writes the text and a NUL behind it at the given place; returns the length of the text. */
  method GenerateHexString(input: seq<byte>, output: array<byte>, at: nat, separator: byte) returns (n: nat)
    requires at + |HexText(input, separator)| < output.Length
    modifies output
    ensures n == |HexText(input, separator)|
    ensures output[..] == Overwrite(old(output[..]), at, HexText(input, separator) + [NUL])
  {
    hide Overwrite, HexText;
    ghost var before := output[..];
    ghost var text := [];
    n := 0;
    NoText(before, at, separator);
    var i := 0;
    assert input[..0] == [];
    while i < |input|
      invariant 0 <= i <= |input| && text == HexText(input[..i], separator) && n == |text|
      invariant n <= |HexText(input, separator)|
      invariant output[..] == Overwrite(before, at, text)
    {
      HexTextGrows(input, i + 1, separator);
      HexTextStep(input, i, separator);
      if i > 0 && separator != NUL {
        Put(output, at + n, separator, before, at, text);
        n, text := n + 1, text + [separator];
      }
      Put(output, at + n, HexDigit(input[i] / 16), before, at, text);
      n, text := n + 1, text + [HexDigit(input[i] / 16)];
      Put(output, at + n, HexDigit(input[i] % 16), before, at, text);
      n, text := n + 1, text + [HexDigit(input[i] % 16)];
      i := i + 1;
    }
    assert input[..i] == input;
    Put(output, at + n, NUL, before, at, text);
  }

  /** One more byte behind the text written so far. */
  method Put(output: array<byte>, end: nat, c: byte, ghost before: seq<byte>, ghost at: nat, ghost text: seq<byte>)
    requires end == at + |text| < output.Length == |before|
    requires output[..] == Overwrite(before, at, text)
    modifies output
    ensures output[..] == Overwrite(before, at, text + [c])
  {
    output[end] := c;
  }

  lemma NoText(before: seq<byte>, at: nat, separator: byte)
    requires at <= |before|
    ensures Overwrite(before, at, []) == before && HexText([], separator) == []
  {}

  lemma HexTextStep(s: seq<byte>, i: nat, separator: byte)
    requires i < |s|
    ensures var text := HexText(s[..i], separator);
            var h, l := HexDigit(s[i] / 16), HexDigit(s[i] % 16);
            HexText(s[..i + 1], separator) ==
            if i > 0 && separator != NUL then text + [separator] + [h] + [l] else text + [h] + [l]
  {
    assert s[..i + 1][..i] == s[..i];
  }

  lemma {:induction false} HexTextGrows(s: seq<byte>, k: nat, separator: byte)
    requires k <= |s|
    ensures |HexText(s[..k], separator)| <= |HexText(s, separator)|
    decreases |s|
  {
    if k == |s| {
      assert s[..k] == s;
    } else {
      HexTextGrows(s[..|s| - 1], k, separator);
      assert s[..|s| - 1][..k] == s[..k];
    }
  }

  /** The number in 32 bits. */
  method HexStringToInt(s: seq<byte>) returns (r: u32)
    ensures r == HexNumber(s) % U32_MODULUS
  {
    r := 0;
    var i := 0;
    while i < |s|
      invariant 0 <= i <= |s| && r == HexNumber(s[..i]) % U32_MODULUS
    {
      assert s[..i + 1][..i] == s[..i];
      HexStep(HexNumber(s[..i]), HexValue(s[i]));
      if i > 0 {
        r := r * 16 % U32_MODULUS;
      }
      r := (r + HexValue(s[i])) % U32_MODULUS;
      i := i + 1;
    }
    assert s[..i] == s;
  }

  lemma HexStep(n: nat, d: nat)
    ensures ((n % U32_MODULUS) * 16 % U32_MODULUS + d) % U32_MODULUS == (16 * n + d) % U32_MODULUS
    ensures n == 0 ==> (n % U32_MODULUS + d) % U32_MODULUS == (16 * n + d) % U32_MODULUS
  {}

  // ----- the encoding

  predicate Unreserved(c: byte) {
    48 <= c <= 57 || 65 <= c <= 90 || 97 <= c <= 122 || c == 45 || c == 95 || c == 46 || c == 126
  }

  function EncodeByte(c: byte): (s: seq<byte>)
    ensures |s| == if Unreserved(c) then 1 else 3
  {
    if Unreserved(c) then [c] else [PERCENT] + HexPair(c)
  }

  function Encode(s: seq<byte>): seq<byte> {
    if s == [] then [] else EncodeByte(s[0]) + Encode(s[1..])
  }

  /** How many bytes of a string fit when encoded whole, byte by byte, into the room. */
  function FitLength(s: seq<byte>, room: int): (k: nat)
    ensures k <= |s|
  {
    if s == [] || |EncodeByte(s[0])| > room then 0 else 1 + FitLength(s[1..], room - |EncodeByte(s[0])|)
  }

  lemma {:induction false} EncodeAppend(a: seq<byte>, b: seq<byte>)
    ensures Encode(a + b) == Encode(a) + Encode(b)
  {
    if a == [] {
      assert a + b == b;
    } else {
      assert (a + b)[1..] == a[1..] + b;
      EncodeAppend(a[1..], b);
      AppendAssoc(EncodeByte(a[0]), Encode(a[1..]), Encode(b));
    }
  }

  /** It is the longest prefix whose encoding fits; all of the string exactly when that fits. */
  lemma {:induction false} FitLengthMaximal(s: seq<byte>, room: nat, k: nat)
    requires k <= |s|
    ensures |Encode(s[..k])| <= room <==> k <= FitLength(s, room)
    decreases |s|
  {
    if k > 0 {
      assert s[..k][1..] == s[1..][..k - 1];
      var rest := room - |EncodeByte(s[0])|;
      if rest >= 0 {
        FitLengthMaximal(s[1..], rest, k - 1);
      }
    }
  }

  /** Writes the encoding of the longest prefix that fits, and a NUL: never a part of an escape. */
  method UrlEncode(input: seq<byte>, output: array<byte>, outputMaxSize: nat) returns (n: nat)
    requires NUL !in input && 1 <= outputMaxSize <= output.Length
    modifies output
    ensures var prefix := input[..FitLength(input, outputMaxSize - 1)];
            && n == |Encode(prefix)| < outputMaxSize
            && output[..] == Overwrite(old(output[..]), 0, Encode(prefix) + [NUL])
  {
    ghost var before, k := output[..], FitLength(input, outputMaxSize - 1);
    var last := outputMaxSize - 1;
    n := 0;
    var p := 0;
    hide Encode, EncodeByte, FitLength, Overwrite, HexPair, HexText, Unreserved, Stands;
    EncodeStart(input, before);
    while p < |input| && n < last
      invariant 0 <= p <= |input| && n <= last
      invariant n == |Encode(input[..p])|
      invariant Stands(output[..], before, Encode(input[..p]))
      invariant k == p + FitLength(input[p..], last - n)
    {
      EncodeStep(input, p, last - n);
      var done;
      done, n := PutByte(output, n, last, input[p], before, Encode(input[..p]));
      if !done {
        break;
      }
      p := p + 1;
    }
    FitEnd(input, p, last - n);
    Terminate(output, n, before, Encode(input[..p]));
  }

  /** The text stands at the start of the buffer; what follows, but for one byte, is as before. */
  ghost predicate Stands(now: seq<byte>, before: seq<byte>, text: seq<byte>) {
    && |now| == |before| && |text| < |now|
    && now[..|text|] == text
    && now[|text| + 1..] == before[|text| + 1..]
  }

  /** The byte as it is or as an escape, if that still fits in front of the last place. */
  method PutByte(output: array<byte>, n: nat, last: nat, c: byte, ghost before: seq<byte>, ghost text: seq<byte>)
    returns (done: bool, end: nat)
    requires Stands(output[..], before, text) && n == |text| < last < output.Length
    modifies output
    ensures done == (|text + EncodeByte(c)| <= last)
    ensures end == |text + if done then EncodeByte(c) else []|
    ensures Stands(output[..], before, text + if done then EncodeByte(c) else [])
  {
    hide HexPair, HexText, Unreserved, Stands;
    if Unreserved(c) {
      PutStanding(output, n, c, before, text);
      return true, n + 1;
    }
    if n + 3 <= last {
      PutEscape(output, n, c, before, text);
      return true, n + 3;
    }
    assert text + [] == text;
    return false, n;
  }

  method PutStanding(output: array<byte>, n: nat, c: byte, ghost before: seq<byte>, ghost text: seq<byte>)
    requires Stands(output[..], before, text) && n == |text| && n + 1 < output.Length
    modifies output
    ensures Stands(output[..], before, text + [c])
  {
    ghost var now := output[..];
    output[n] := c;
    assert output[..n + 1] == text + [c];
    assert output[n + 2..] == now[n + 1..][1..] == before[n + 1..][1..];
  }

  /** The percent sign and two digits; the NUL behind them is overwritten later. */
  method PutEscape(output: array<byte>, n: nat, c: byte, ghost before: seq<byte>, ghost text: seq<byte>)
    requires Stands(output[..], before, text) && n == |text| && n + 3 < output.Length
    modifies output
    ensures Stands(output[..], before, text + ([PERCENT] + HexPair(c)))
  {
    hide HexPair, HexText;
    PutStanding(output, n, PERCENT, before, text);
    HexTextOne(c);
    ghost var sofar := output[..];
    var m := GenerateHexString([c], output, n + 1, NUL);
    AddBytes(output[..], sofar, before, text + [PERCENT], HexPair(c));
    AppendAssoc(text, [PERCENT], HexPair(c));
  }

  method Terminate(output: array<byte>, n: nat, ghost before: seq<byte>, ghost text: seq<byte>)
    requires Stands(output[..], before, text) && n == |text|
    modifies output
    ensures output[..] == Overwrite(before, 0, text + [NUL])
  {
    ghost var now := output[..];
    output[n] := NUL;
    assert output[..] == now[..n] + [NUL] + now[n + 1..];
  }

  lemma AddBytes(now: seq<byte>, sofar: seq<byte>, before: seq<byte>, text: seq<byte>, bytes: seq<byte>)
    requires |text| + |bytes| < |sofar| && Stands(sofar, before, text)
    requires now == Overwrite(sofar, |text|, bytes + [NUL])
    ensures Stands(now, before, text + bytes)
  {
    assert now[..|text| + |bytes|] == text + bytes;
    assert now[|text| + |bytes| + 1..] == sofar[|text| + 1..][|bytes|..];
    assert before[|text| + |bytes| + 1..] == before[|text| + 1..][|bytes|..];
  }

  lemma HexTextOne(c: byte)
    ensures HexText([c], NUL) == HexPair(c)
  {
    assert [c][..0] == [];
  }

  lemma EncodeStart(input: seq<byte>, before: seq<byte>)
    ensures Encode(input[..0]) == [] && input[0..] == input
    ensures before != [] ==> Stands(before, before, [])
  {}

  /** One byte more in front, one less to come. */
  lemma EncodeStep(input: seq<byte>, p: nat, room: nat)
    requires p < |input|
    ensures Encode(input[..p + 1]) == Encode(input[..p]) + EncodeByte(input[p])
    ensures EncodeByte(input[p]) == if Unreserved(input[p]) then [input[p]] else [PERCENT] + HexPair(input[p])
    ensures FitLength(input[p..], room) ==
            if |EncodeByte(input[p])| > room then 0 else 1 + FitLength(input[p + 1..], room - |EncodeByte(input[p])|)
  {
    EncodeAppend(input[..p], [input[p]]);
    assert input[..p + 1] == input[..p] + [input[p]];
    assert Encode([input[p]]) == EncodeByte(input[p]) + [];
    assert input[p..][1..] == input[p + 1..];
  }

  lemma FitEnd(input: seq<byte>, p: nat, room: nat)
    requires p <= |input|
    ensures p == |input| || room == 0 ==> FitLength(input[p..], room) == 0
  {}

  // ----- decoding

  function Decode(s: seq<byte>): (d: seq<byte>)
    ensures |d| <= |s|
    decreases |s|
  {
    if s == [] || s[0] == NUL then []
    else if s[0] == PLUS then [SPACE] + Decode(s[1..])
    else if s[0] == PERCENT then
      if |s| > 2 then [16 * HexValue(s[1]) + HexValue(s[2])] + Decode(s[3..]) else [NUL]
    else [s[0]] + Decode(s[1..])
  }

  /** The part of the buffer in front of ins is decoded, that behind it untouched; from p on is still
      to be decoded (nothing is, once p has passed the end). */
  ghost predicate Decoding(now: seq<byte>, before: seq<byte>, size: nat, ins: nat, p: nat) {
    && size <= |now| == |before| && ins <= p <= size + 1 && ins <= |now|
    && now[ins..] == before[ins..]
    && Decode(before[..size]) == now[..ins] + if p <= size then Decode(before[p..size]) else []
  }

  lemma DecodeStep(now: seq<byte>, before: seq<byte>, size: nat, ins: nat, p: nat)
    requires Decoding(now, before, size, ins, p) && p < size && now[p] != NUL
    ensures now[p] == PERCENT && p + 2 < size ==>
              Decoding(now[ins := 16 * HexValue(now[p + 1]) + HexValue(now[p + 2])], before, size, ins + 1, p + 3)
    ensures now[p] == PERCENT && p + 2 >= size ==> Decoding(now[ins := NUL], before, size, ins + 1, size + 1)
    ensures now[p] != PERCENT ==>
              Decoding(now[ins := if now[p] == PLUS then SPACE else now[p]], before, size, ins + 1, p + 1)
  {
    hide Decode, HexValue;
    Ahead(now, before, ins, p);
    DecodeFirst(before, p, size);
    if now[p] != PERCENT {
      DecodedByte(now, before, size, ins, p, p + 1, if now[p] == PLUS then SPACE else now[p]);
    } else if p + 2 < size {
      Ahead(now, before, ins, p + 1);
      Ahead(now, before, ins, p + 2);
      DecodedByte(now, before, size, ins, p, p + 3, 16 * HexValue(now[p + 1]) + HexValue(now[p + 2]));
    } else {
      DecodedByte(now, before, size, ins, p, size + 1, NUL);
    }
  }

  lemma Ahead(now: seq<byte>, before: seq<byte>, ins: nat, p: nat)
    requires ins <= p < |now| == |before| && now[ins..] == before[ins..]
    ensures now[p] == before[p]
  {
    assert now[p] == now[ins..][p - ins] == before[ins..][p - ins] == before[p];
  }

  function From(before: seq<byte>, q: nat, size: nat): seq<byte>
    requires size <= |before|
  {
    if q <= size then Decode(before[q..size]) else []
  }

  /** One step of the decoder, by what stands at p. */
  lemma DecodeFirst(before: seq<byte>, p: nat, size: nat)
    requires p < size <= |before| && before[p] != NUL
    ensures Decode(before[p..size]) ==
            if before[p] == PLUS then [SPACE] + From(before, p + 1, size)
            else if before[p] != PERCENT then [before[p]] + From(before, p + 1, size)
            else if p + 2 < size then
              [16 * HexValue(before[p + 1]) + HexValue(before[p + 2])] + From(before, p + 3, size)
            else [NUL] + From(before, size + 1, size)
  {
    hide HexValue;
    var s := before[p..size];
    assert s[0] == before[p] && s[1..] == before[p + 1..size];
    if p + 2 < size {
      assert s[1] == before[p + 1] && s[2] == before[p + 2] && s[3..] == before[p + 3..size];
    }
  }

  /** Storing the decoded byte c in front of what is still to come. */
  lemma DecodedByte(now: seq<byte>, before: seq<byte>, size: nat, ins: nat, p: nat, q: nat, c: byte)
    requires Decoding(now, before, size, ins, p) && p < size && p < q <= size + 1
    requires Decode(before[p..size]) == [c] + From(before, q, size)
    ensures Decoding(now[ins := c], before, size, ins + 1, q)
  {
    hide Decode;
    assert now[ins := c][ins + 1..] == now[ins..][1..] && before[ins + 1..] == before[ins..][1..];
    assert now[ins := c][..ins + 1] == now[..ins] + [c];
    AppendAssoc(now[..ins], [c], From(before, q, size));
  }

  lemma DecodeEnd(now: seq<byte>, before: seq<byte>, size: nat, ins: nat, p: nat)
    requires Decoding(now, before, size, ins, p)
    requires p >= size || now[p] == NUL
    ensures ins == |Decode(before[..size])|
    ensures ins < |now| ==> now[ins := NUL] == Overwrite(before, 0, Decode(before[..size]) + [NUL])
  {
    if p < size {
      assert now[p] == now[ins..][p - ins] == before[ins..][p - ins] == before[p..size][0];
    }
    assert now[..ins] == Decode(before[..size]);
    if ins < |now| {
      assert now[ins := NUL] == now[..ins] + [NUL] + now[ins..][1..];
      assert before[ins + 1..] == before[ins..][1..];
    }
  }

  lemma DecodeBegin(before: seq<byte>, size: nat)
    requires size <= |before|
    ensures Decoding(before, before, size, 0, 0)
  {
    assert before[0..size] == before[..size];
    assert before[..0] + Decode(before[..size]) == Decode(before[..size]);
  }

  lemma HexOfTwo(a: byte, b: byte)
    ensures HexNumber([a, b]) == 16 * HexValue(a) + HexValue(b)
  {
    assert [a, b][..1] == [a] && [a][..0] == [];
    assert HexNumber([a]) == HexValue(a);
  }

  /** Some byte ends the text, or is a percent sign with another byte behind it. */
  predicate Shrinks(s: seq<byte>) {
    NUL in s || (s != [] && PERCENT in s[..|s| - 1])
  }

  /** Exactly when the decoded text is shorter, so that a NUL fits in the place of the text. */
  lemma {:induction false} ShorterIffShrinks(s: seq<byte>)
    ensures |Decode(s)| < |s| <==> Shrinks(s)
    decreases |s|
  {
    if |s| > 1 && s[0] != NUL && s[0] != PERCENT {
      ShorterIffShrinks(s[1..]);
      assert s == [s[0]] + s[1..];
      assert s[..|s| - 1] == [s[0]] + s[1..][..|s| - 2];
    } else if |s| > 1 && s[0] == PERCENT {
      assert s[..|s| - 1][0] == PERCENT;
    }
  }

  /** Decodes the first "size" bytes and ends the result with a NUL; an escape cut off by the end of
      the buffer ends it. The result needs a byte more than it has characters. */
  method UrlDecodeInplace(buffer: array<byte>, size: nat)
    requires size < buffer.Length || (size == buffer.Length && Shrinks(buffer[..size]))
    modifies buffer
    ensures var d := Decode(old(buffer[..size]));
            |d| < buffer.Length && buffer[..] == Overwrite(old(buffer[..]), 0, d + [NUL])
  {
    hide Decode, HexNumber, Decoding, Overwrite;
    ghost var before := buffer[..];
    assert before[..size] == buffer[..size];
    ShorterIffShrinks(before[..size]);
    var ins, p := 0, 0;
    DecodeBegin(before, size);
    while p < size && buffer[p] != NUL
      invariant 0 <= ins <= p && Decoding(buffer[..], before, size, ins, p)
      decreases size - p
    {
      DecodeStep(buffer[..], before, size, ins, p);
      ghost var now := buffer[..];
      var c := buffer[p];
      if c == PLUS {
        c := SPACE;
      } else if c == PERCENT {
        p := p + 1;
        if p + 1 < size {
          assert buffer[p..p + 2] == [buffer[p], buffer[p + 1]];
          HexOfTwo(buffer[p], buffer[p + 1]);
          c := HexStringToInt(buffer[p..p + 2]);
          p := p + 1;
        } else {
          c := NUL;
          p := size;
        }
      }
      buffer[ins] := c;
      assert buffer[..] == now[ins := c];
      ins := ins + 1;
      p := p + 1;
    }
    DecodeEnd(buffer[..], before, size, ins, p);
    ghost var now := buffer[..];
    buffer[ins] := NUL;
    assert buffer[..] == now[ins := NUL];
  }

  // ----- the alphabet

  const HEX := "0123456789ABCDEF"

  /** The two digits are those of section 2.1 of RFC 3986, in upper case, high digit first. */
  lemma HexPairLaw(c: byte)
    ensures HexPair(c) == [HEX[c / 16] as int, HEX[c % 16] as int]
  {
    HexDigitLaw(c / 16);
    HexDigitLaw(c % 16);
  }

  lemma HexDigitLaw(n: int)
    requires 0 <= n < 16
    ensures HexDigit(n) == HEX[n] as int && HexValue(HexDigit(n)) == n
  {
    assert n == 0 || n == 1 || n == 2 || n == 3 || n == 4 || n == 5 || n == 6 || n == 7
           || n == 8 || n == 9 || n == 10 || n == 11 || n == 12 || n == 13 || n == 14 || n == 15;
  }

  /** Lower-case digits have the values of upper-case ones, other characters have none. */
  lemma HexValueLaw(c: byte)
    ensures 'a' <= c as char <= 'f' ==> HexValue(c) == HexValue(c - 32) == c - 87
    ensures 'A' <= c as char <= 'F' ==> HEX[HexValue(c)] as int == c
    ensures '0' <= c as char <= '9' ==> HEX[HexValue(c)] as int == c
    ensures !('a' <= c as char <= 'f' || 'A' <= c as char <= 'F' || '0' <= c as char <= '9') ==> HexValue(c) == 0
  {
    HexDigitLaw(HexValue(c));
  }

  /** Letters, digits and the four marks of section 2.3 of RFC 3986 stand for themselves, every other byte
      is escaped. */
  lemma EncodeLaw(c: byte)
    ensures var ch := c as char;
            var kept := 'A' <= ch <= 'Z' || 'a' <= ch <= 'z' || '0' <= ch <= '9'
                        || ch == '-' || ch == '.' || ch == '_' || ch == '~';
            EncodeByte(c) == if kept then [c] else ['%' as int, HEX[c / 16] as int, HEX[c % 16] as int]
  {
    HexPairLaw(c);
  }

  /** Hexadecimal text: two digits for each byte, and a separator between two bytes unless it is NUL. */
  lemma {:induction false} HexTextLaw(s: seq<byte>, separator: byte)
    ensures var step := if separator == 0 then 2 else 3;
            var t := HexText(s, separator);
            && |t| == (if s == [] then 0 else step * |s| - (step - 2))
            && (forall i :: 0 <= i < |s| ==> t[step * i..step * i + 2] == HexPair(s[i]))
            && (separator != 0 ==> forall i :: 0 < i < |s| ==> t[3 * i - 1] == separator)
  {
    hide HexPair;
    if s != [] {
      var n := |s| - 1;
      HexTextLaw(s[..n], separator);
      var step, u := if separator == 0 then 2 else 3, HexText(s[..n], separator);
      var t := HexText(s, separator);
      assert t[..|u|] == u;
      forall i | 0 <= i < |s| ensures t[step * i..step * i + 2] == HexPair(s[i]) {
        if i < n {
          assert t[step * i..step * i + 2] == u[step * i..step * i + 2];
        }
      }
      forall i | separator != 0 && 0 < i < |s| ensures t[3 * i - 1] == separator {
        if i < n {
          assert t[3 * i - 1] == u[3 * i - 1];
        }
      }
    }
  }

  /** Text without escapes, plus signs and NUL decodes to itself. */
  lemma {:induction false} PlainText(s: seq<byte>)
    requires forall c <- s :: c != '%' as int && c != '+' as int && c != 0
    ensures Decode(s) == s
  {
    if s != [] {
      assert s[0] in s && s == [s[0]] + s[1..];
      assert forall c <- s[1..] :: c in s;
      PlainText(s[1..]);
    }
  }

  /** A plus sign stands for a space, a NUL ends the text, an escape cut off by the end gives a NUL. */
  lemma SpecialText(rest: seq<byte>, c: byte)
    ensures Decode(['+' as int] + rest) == [' ' as int] + Decode(rest)
    ensures Decode([0] + rest) == []
    ensures Decode(['%' as int]) == [0] && Decode(['%' as int, c]) == [0]
  {
    assert (['+' as int] + rest)[1..] == rest;
  }

  /** An escape stands for its byte, in digits of either case. */
  lemma EscapedText(c: byte, high: byte, low: byte, rest: seq<byte>)
    requires high == HEX[c / 16] as int || (c / 16 >= 10 && high == HEX[c / 16] as int + 32)
    requires low == HEX[c % 16] as int || (c % 16 >= 10 && low == HEX[c % 16] as int + 32)
    ensures Decode(['%' as int, high, low] + rest) == [c] + Decode(rest)
  {
    HexDigitLaw(c / 16);
    HexDigitLaw(c % 16);
    assert HexValue(high) == c / 16 && HexValue(low) == c % 16;
    var s := ['%' as int, high, low] + rest;
    assert s[3..] == rest;
  }

  // ----- round trip

  lemma DecodeByte(c: byte, rest: seq<byte>)
    requires c != NUL
    ensures Decode(EncodeByte(c) + rest) == [c] + Decode(rest)
  {
    var s := EncodeByte(c) + rest;
    if Unreserved(c) {
      assert s[1..] == rest;
    } else {
      HexPairRoundTrip(c);
      HexOfTwo(s[1], s[2]);
      assert [s[1], s[2]] == HexPair(c) && s[3..] == rest;
    }
  }

  lemma {:induction false} DecodeOfEncode(s: seq<byte>, rest: seq<byte>)
    requires NUL !in s
    ensures Decode(Encode(s) + [NUL] + rest) == s
  {
    hide EncodeByte, Unreserved;
    if s != [] {
      DecodeByte(s[0], Encode(s[1..]) + [NUL] + rest);
      assert Encode(s) + [NUL] + rest == EncodeByte(s[0]) + (Encode(s[1..]) + [NUL] + rest);
      DecodeOfEncode(s[1..], rest);
    } else {
      assert ([] + [NUL] + rest)[0] == NUL;
    }
  }

  /** Decoding the buffer an encoding was written to gives back the encoded prefix, which is the whole
      string exactly when its encoding fits. */
  lemma UrlRoundTrip(input: seq<byte>, before: seq<byte>, size: nat)
    requires NUL !in input && 1 <= size <= |before|
    ensures var prefix := input[..FitLength(input, size - 1)];
            && |Encode(prefix)| < size
            && Decode(Overwrite(before, 0, Encode(prefix) + [NUL])[..size]) == prefix
            && (prefix == input <==> |Encode(input)| < size)
  {
    var k := FitLength(input, size - 1);
    var prefix := input[..k];
    FitLengthMaximal(input, size - 1, k);
    FitLengthMaximal(input, size - 1, |input|);
    assert input[..|input|] == input;
    var n := |Encode(prefix)|;
    var buffer := Overwrite(before, 0, Encode(prefix) + [NUL]);
    assert buffer[..size] == Encode(prefix) + [NUL] + before[n + 1..size];
    DecodeOfEncode(prefix, before[n + 1..size]);
  }
}

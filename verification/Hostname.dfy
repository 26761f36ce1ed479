/**
 The host name of a device, made from its configured name: upper case, digits and single hyphens, cut
 so that a part of the MAC address can be appended. Dropping a doubled hyphen makes room for one
 more character of the name, so the end of the loop moves.
 */
module Hostname {
  import opened Common

  const BUFFER_SIZE := 32
  const HYPHEN: byte := 45
  /** "OH!", "SUPLA-" and "SUPLA-DEVICE". */
  const OH: seq<byte> := [79, 72, 33]
  const SUPLA: seq<byte> := [83, 85, 80, 76, 65, 45]
  const SUPLA_DEVICE: seq<byte> := [83, 85, 80, 76, 65, 45, 68, 69, 86, 73, 67, 69]

  /** What a character of the name becomes; some vanish. */
  function MapChar(c: byte): Option<byte> {
    if c < 32 then None
    else if c < 48 then Some(HYPHEN)
    else if c < 58 then Some(c)
    else if c < 65 then Some(HYPHEN)
    else if c < 91 then Some(c)
    else if c < 97 then Some(HYPHEN)
    else if c < 123 then Some(c - 32)
    else None
  }

  /** A hyphen at the start or behind another one is dropped. */
  predicate Dropped(d: seq<byte>, c: byte) {
    c == HYPHEN && (d == [] || d[|d| - 1] == HYPHEN)
  }

  /** The whole of a text, appended to what is there already. */
  function Sanitize(d: seq<byte>, s: seq<byte>): seq<byte>
    decreases |s|
  {
    if s == [] then d
    else
      var m := MapChar(s[0]);
      Sanitize(if m.None? || Dropped(d, m.value) then d else d + [m.value], s[1..])
  }

  datatype Progress = Progress(i: nat, name: seq<byte>, skip: nat)

  function Step(s: seq<byte>, p: Progress): Progress
    requires p.i < |s|
  {
    var m := MapChar(s[p.i]);
    if m.None? then p.(i := p.i + 1)
    else if Dropped(p.name, m.value) then Progress(p.i + 1, p.name, if p.skip > 0 then p.skip - 1 else 0)
    else Progress(p.i + 1, p.name + [m.value], p.skip)
  }

  /** The loop: the last "skip" characters of the name are left out. */
  function Loop(s: seq<byte>, p: Progress): Progress
    decreases |s| - p.i
  {
    if p.i >= |s| - p.skip then p else Loop(s, Step(s, p))
  }

  lemma LoopStep(s: seq<byte>, p: Progress)
    requires p.i < |s| - p.skip
    ensures Loop(s, p) == Loop(s, Step(s, p))
  {}

  lemma LoopEnd(s: seq<byte>, p: Progress)
    requires p.i >= |s| - p.skip
    ensures Loop(s, p) == p
  {}

  // ----- what is true of the result

  predicate Allowed(c: byte) {
    65 <= c <= 90 || 48 <= c <= 57 || c == HYPHEN
  }

  ghost predicate WellFormed(d: seq<byte>) {
    && (forall c <- d :: Allowed(c))
    && (d != [] ==> d[0] != HYPHEN)
    && forall i :: 0 < i < |d| ==> d[i - 1] != HYPHEN || d[i] != HYPHEN
  }

  /** The space taken and still to be taken. */
  function Reach(s: seq<byte>, p: Progress): int {
    |p.name| + Max(0, |s| - p.skip - p.i)
  }

  /** Moving the end never makes the name longer than planned. */
  lemma StepKeeps(s: seq<byte>, p: Progress)
    requires p.i < |s| - p.skip && WellFormed(p.name)
    ensures WellFormed(Step(s, p).name) && Reach(s, Step(s, p)) <= Reach(s, p)
  {}

  lemma {:induction false} LoopKeeps(s: seq<byte>, p: Progress)
    requires WellFormed(p.name)
    ensures WellFormed(Loop(s, p).name) && |Loop(s, p).name| <= Reach(s, p)
    decreases |s| - p.i
  {
    if p.i < |s| - p.skip {
      hide Step, WellFormed;
      StepKeeps(s, p);
      LoopKeeps(s, Step(s, p));
    }
  }

  /** The loop sanitizes a prefix of the name: all of it when nothing has to be skipped, otherwise all
      but the characters still to be skipped at the end. */
  lemma {:induction false} LoopIsSanitize(s: seq<byte>, p: Progress)
    requires p.i + p.skip <= |s|
    ensures var r := Loop(s, p);
            && p.i <= r.i == |s| - r.skip && r.skip <= p.skip
            && r.name == Sanitize(p.name, s[p.i..r.i])
    decreases |s| - p.i
  {
    if p.i < |s| - p.skip {
      LoopIsSanitize(s, Step(s, p));
      var r := Loop(s, p);
      assert s[p.i..r.i][1..] == s[p.i + 1..r.i];
    } else {
      assert s[p.i..p.i] == [];
    }
  }

  function Letters(d: seq<byte>): seq<byte> {
    if d == [] then [] else Letters(d[..|d| - 1]) + if d[|d| - 1] == HYPHEN then [] else [d[|d| - 1]]
  }

  function MappedLetters(s: seq<byte>): seq<byte> {
    if s == [] then []
    else
      var m := MapChar(s[0]);
      (if m.None? || m.value == HYPHEN then [] else [m.value]) + MappedLetters(s[1..])
  }

  lemma LettersSnoc(d: seq<byte>, c: byte)
    ensures Letters(d + [c]) == Letters(d) + if c == HYPHEN then [] else [c]
  {
    assert (d + [c])[..|d|] == d;
  }

  /** No letter or digit is lost, added or moved. */
  lemma {:induction false} SanitizeKeepsLetters(d: seq<byte>, s: seq<byte>)
    ensures Letters(Sanitize(d, s)) == Letters(d) + MappedLetters(s)
    decreases |s|
  {
    if s != [] {
      var m := MapChar(s[0]);
      var next := if m.None? || Dropped(d, m.value) then d else d + [m.value];
      SanitizeKeepsLetters(next, s[1..]);
      if m.Some? {
        LettersSnoc(d, m.value);
      }
      var c := if m.None? || m.value == HYPHEN then [] else [m.value];
      assert Letters(next) == Letters(d) + c;
      AppendAssoc(Letters(d), c, MappedLetters(s[1..]));
    }
  }

  // ----- the routine

  function AppendixSize(macSize: int): nat {
    if macSize <= 0 then 0 else 1 + 2 * Min(macSize, 6)
  }

  function SourceName(prefix: Option<seq<byte>>, deviceName: seq<byte>): seq<byte> {
    if prefix.Some? && prefix.value != [] then prefix.value else deviceName
  }

  /** Where the loop starts: a name that begins with OH! gets another beginning. */
  function Start(name: seq<byte>, macSize: int): Progress {
    var oh := |name| >= 3 && name[..3] == OH;
    var target := |name| + if oh then 3 else 0;
    Progress(if oh then 3 else 0, if oh then SUPLA else [], Max(0, target + AppendixSize(macSize) - 31))
  }

  function HostName(prefix: Option<seq<byte>>, deviceName: seq<byte>, macSize: int): seq<byte> {
    var name := SourceName(prefix, deviceName);
    Loop(if name == [] then SUPLA_DEVICE else name, Start(name, macSize)).name
  }

  lemma StartFits(name: seq<byte>, macSize: int)
    ensures var s := if name == [] then SUPLA_DEVICE else name;
            var p := Start(name, macSize);
            && WellFormed(p.name) && Reach(s, p) <= 31 - AppendixSize(macSize)
            && p.i + p.skip <= |s|
  {}

  /** The laws of the host name: length, alphabet, hyphens, and the letters of a prefix of the name. */
  lemma HostNameLaws(prefix: Option<seq<byte>>, deviceName: seq<byte>, macSize: int)
    ensures var name := SourceName(prefix, deviceName);
            var s := if name == [] then SUPLA_DEVICE else name;
            var p := Start(name, macSize);
            var h := HostName(prefix, deviceName, macSize);
            && |h| <= 31 - AppendixSize(macSize) && WellFormed(h)
            && exists e :: p.i <= e <= |s| && e >= |s| - p.skip
                           && h == Sanitize(p.name, s[p.i..e])
                           && Letters(h) == Letters(p.name) + MappedLetters(s[p.i..e])
  {
    var name := SourceName(prefix, deviceName);
    var s := if name == [] then SUPLA_DEVICE else name;
    var p := Start(name, macSize);
    StartFits(name, macSize);
    LoopKeeps(s, p);
    LoopIsSanitize(s, p);
    var e := Loop(s, p).i;
    SanitizeKeepsLetters(p.name, s[p.i..e]);
  }

  // ----- names as a reader sees them

  predicate IsAlnum(c: byte) {
    var ch := c as char;
    '0' <= ch <= '9' || 'A' <= ch <= 'Z' || 'a' <= ch <= 'z'
  }

  /** The letters and digits of a text, letters in upper case. */
  function UpperAlnum(s: seq<byte>): (u: seq<byte>)
    ensures |u| <= |s|
  {
    if s == [] then []
    else
      var ch := s[0] as char;
      (if 'a' <= ch <= 'z' then [s[0] - 'a' as int + 'A' as int] else if IsAlnum(s[0]) then [s[0]] else [])
      + UpperAlnum(s[1..])
  }

  lemma AllowedLaw(c: byte)
    ensures Allowed(c) <==> c as char == '-' || (IsAlnum(c) && !('a' <= c as char <= 'z'))
  {}

  /** These are what is kept: letters in upper case, digits as they are. */
  lemma {:induction false} MappedLettersLaw(s: seq<byte>)
    ensures MappedLetters(s) == UpperAlnum(s)
  {
    if s != [] {
      MappedLettersLaw(s[1..]);
    }
  }

  /** Control characters and what stands behind z vanish; any other character between letters becomes one
      hyphen, at the start and next to a hyphen none. */
  lemma OtherCharacters(d: seq<byte>, c: byte, s: seq<byte>)
    requires !IsAlnum(c)
    ensures Sanitize(d, [c] + s) ==
            if c as char < ' ' || c as char > 'z' || d == [] || d[|d| - 1] as char == '-' then Sanitize(d, s)
            else Sanitize(d + ['-' as int], s)
  {
    assert ([c] + s)[1..] == s;
  }

  /** A text of letters and digits only loses nothing and gains nothing. */
  lemma {:induction false} SanitizeAlnum(d: seq<byte>, s: seq<byte>)
    requires forall c <- s :: IsAlnum(c)
    ensures Sanitize(d, s) == d + UpperAlnum(s) && |UpperAlnum(s)| == |s|
    decreases |s|
  {
    if s == [] {
      assert d + [] == d;
    } else {
      assert s[0] in s && forall c <- s[1..] :: c in s;
      var u := UpperAlnum([s[0]]);
      assert u == [if 'a' <= s[0] as char then s[0] - 32 else s[0]] by {
        assert [s[0]][1..] == [];
      }
      assert Sanitize(d, s) == Sanitize(d + u, s[1..]);
      SanitizeAlnum(d + u, s[1..]);
      AppendAssoc(d, u, UpperAlnum(s[1..]));
      assert UpperAlnum(s) == u + UpperAlnum(s[1..]);
    }
  }

  /** The end of the loop does not move over such a text. */
  lemma {:induction false} LoopAlnum(s: seq<byte>, p: Progress)
    requires p.i + p.skip <= |s| && forall c <- s[p.i..] :: IsAlnum(c)
    ensures Loop(s, p).skip == p.skip
    decreases |s| - p.i
  {
    if p.i < |s| - p.skip {
      assert s[p.i] == s[p.i..][0] && s[p.i] in s[p.i..];
      assert forall c <- s[p.i + 1..] :: c in s[p.i..] by {
        assert s[p.i..][1..] == s[p.i + 1..];
      }
      LoopAlnum(s, Step(s, p));
    }
  }

  /** What is taken of a name of letters and digits: all of it, or what leaves room for the appendix of a
      hyphen and two digits for each byte of the MAC address, up to six. */
  lemma PlainHostName(prefix: Option<seq<byte>>, deviceName: seq<byte>, macSize: int)
    requires var name := SourceName(prefix, deviceName); name != [] && forall c <- name :: IsAlnum(c)
    ensures var name := SourceName(prefix, deviceName);
            var room := 31 - if macSize <= 0 then 0 else if macSize >= 6 then 13 else 1 + 2 * macSize;
            HostName(prefix, deviceName, macSize) == UpperAlnum(name[..Min(|name|, room)])
  {
    var name := SourceName(prefix, deviceName);
    var p := Start(name, macSize);
    NoExclamation(name);
    LoopOfAlnum(name, p);
    var room := 31 - if macSize <= 0 then 0 else if macSize >= 6 then 13 else 1 + 2 * macSize;
    assert name[0..|name| - p.skip] == name[..Min(|name|, room)];
    assert [] + UpperAlnum(name[..Min(|name|, room)]) == UpperAlnum(name[..Min(|name|, room)]);
  }

  lemma NoExclamation(name: seq<byte>)
    requires forall c <- name :: IsAlnum(c)
    ensures |name| >= 3 ==> name[..3] != OH
  {
    if |name| >= 3 {
      assert name[..3][2] == name[2] && name[2] in name;
    }
  }

  lemma LoopOfAlnum(s: seq<byte>, p: Progress)
    requires p.i + p.skip <= |s| && forall c <- s[p.i..] :: IsAlnum(c)
    ensures Loop(s, p).name == p.name + UpperAlnum(s[p.i..|s| - p.skip])
  {
    LoopIsSanitize(s, p);
    LoopAlnum(s, p);
    var t := s[p.i..|s| - p.skip];
    assert forall c <- t :: c in s[p.i..] by {
      assert t == s[p.i..][..|t|];
    }
    SanitizeAlnum(p.name, t);
  }

  /** OH! at the start becomes SUPLA-, and a device without a name is SUPLA-DEVICE. */
  lemma SpecialHostNames(prefix: Option<seq<byte>>, deviceName: seq<byte>, macSize: int, rest: seq<byte>)
    requires SourceName(prefix, deviceName) == ['O' as int, 'H' as int, '!' as int] + rest
    requires forall c <- rest :: IsAlnum(c)
    ensures var room := 31 - if macSize <= 0 then 0 else if macSize >= 6 then 13 else 1 + 2 * macSize;
            HostName(prefix, deviceName, macSize) ==
            ['S' as int, 'U' as int, 'P' as int, 'L' as int, 'A' as int, '-' as int]
            + UpperAlnum(rest[..Min(|rest|, room - 6)])
  {
    var name := SourceName(prefix, deviceName);
    var p := Start(name, macSize);
    var room := 31 - if macSize <= 0 then 0 else if macSize >= 6 then 13 else 1 + 2 * macSize;
    assert name[..3] == OH && name[3..] == rest;
    LoopOfAlnum(name, p);
    assert name[3..|name| - p.skip] == rest[..Min(|rest|, room - 6)];
  }

  lemma NamelessHostName(prefix: Option<seq<byte>>, macSize: int)
    requires prefix.None? || prefix.value == []
    ensures HostName(prefix, [], macSize) ==
            ['S' as int, 'U' as int, 'P' as int, 'L' as int, 'A' as int, '-' as int,
             'D' as int, 'E' as int, 'V' as int, 'I' as int, 'C' as int, 'E' as int]
  {
    hide Sanitize, Loop;
    var p := Progress(0, [], 0);
    assert Start([], macSize) == p;
    LoopIsSanitize(SUPLA_DEVICE, p);
    LoopEndsAtEnd(SUPLA_DEVICE, p);
    assert SUPLA_DEVICE[0..12] == SUPLA_DEVICE;
    SuplaDeviceStays();
  }

  lemma SuplaDeviceStays()
    ensures Sanitize([], SUPLA_DEVICE) == SUPLA_DEVICE
  {
    hide Sanitize, UpperAlnum;
    var supla, device: seq<byte> := [83, 85, 80, 76, 65], [68, 69, 86, 73, 67, 69];
    assert SUPLA_DEVICE == supla + ([45] + device);
    SanitizeSplit([], supla, [45] + device);
    SanitizeAlnum([], supla);
    UpperIs(supla);
    assert [] + supla == supla;
    OtherCharacters(supla, 45, device);
    SanitizeAlnum(supla + [45], device);
    UpperIs(device);
    assert supla + [45] + device == SUPLA_DEVICE;
  }

  /** Without anything to skip the loop goes to the end. */
  lemma {:induction false} LoopEndsAtEnd(s: seq<byte>, p: Progress)
    requires p.skip == 0 && p.i <= |s|
    ensures Loop(s, p).i == |s|
    decreases |s| - p.i
  {
    if p.i < |s| {
      LoopEndsAtEnd(s, Step(s, p));
    }
  }

  lemma {:induction false} SanitizeSplit(d: seq<byte>, s: seq<byte>, t: seq<byte>)
    ensures Sanitize(d, s + t) == Sanitize(Sanitize(d, s), t)
    decreases |s|
  {
    if s == [] {
      assert s + t == t;
    } else {
      assert (s + t)[1..] == s[1..] + t;
      var m := MapChar(s[0]);
      SanitizeSplit(if m.None? || Dropped(d, m.value) then d else d + [m.value], s[1..], t);
    }
  }

  lemma {:induction false} UpperIs(s: seq<byte>)
    requires forall c <- s :: 'A' <= c as char <= 'Z'
    ensures UpperAlnum(s) == s
  {
    if s != [] {
      assert s[0] in s && forall c <- s[1..] :: c in s;
      UpperIs(s[1..]);
    }
  }

  /** Writes the name and zeros into the 32 bytes of the buffer; returns its length with the NUL. */
  method GenerateHostname(buf: array<byte>, macSize: int, customPrefix: Option<seq<byte>>, deviceName: seq<byte>)
    returns (n: nat)
    requires buf.Length >= BUFFER_SIZE
    modifies buf
    ensures var h := HostName(customPrefix, deviceName, macSize);
            && n == |h| + 1 <= BUFFER_SIZE
            && buf[..] == Overwrite(old(buf[..]), 0, h + Zeros(BUFFER_SIZE - |h|))
  {
    hide Loop, Reach, WellFormed, Start;
    var name := new byte[BUFFER_SIZE](_ => 0);
    var srcName := deviceName;
    if customPrefix.Some? && |customPrefix.value| > 0 {
      srcName := customPrefix.value;
    }
    ghost var p := Start(srcName, macSize);
    StartFits(srcName, macSize);
    var destIdx, i, skipBytes := Prepare(srcName, macSize, name);
    if |srcName| == 0 {
      srcName := SUPLA_DEVICE;
    }
    destIdx := FillName(srcName, name, destIdx, i, skipBytes, AppendixSize(macSize));
    LoopKeeps(srcName, p);
    CopyName(buf, name, destIdx);
    return destIdx + 1;
  }

  /** The beginning of the name, where to go on in the source, and how much of it to leave out. */
  method Prepare(srcName: seq<byte>, macSize: int, name: array<byte>) returns (destIdx: nat, i: nat, skipBytes: nat)
    requires name.Length == BUFFER_SIZE
    modifies name
    ensures destIdx < BUFFER_SIZE && Progress(i, name[..destIdx], skipBytes) == Start(srcName, macSize)
  {
    var mac := macSize;
    if mac < 0 {
      mac := 0;
    }
    if mac > 6 {
      mac := 6;
    }
    var appendixSize := 0;
    if mac > 0 {
      appendixSize := 1 + 2 * mac;
    }
    var targetNameLength := |srcName|;
    destIdx, i := 0, 0;
    if |srcName| >= 3 && srcName[..3] == OH {
      CopyTo(name, 0, SUPLA);
      destIdx, i := 6, 3;
      targetNameLength := targetNameLength + 3;
      assert name[..6] == SUPLA;
    }
    skipBytes := 0;
    if targetNameLength + appendixSize > 31 {
      skipBytes := targetNameLength + appendixSize - 31;
    }
  }

  /** Ends the name with a NUL and copies it; the copy stops at the NUL and fills up with zeros,
      whatever stood behind it. */
  method CopyName(buf: array<byte>, name: array<byte>, n: nat)
    requires buf != name && buf.Length >= name.Length == BUFFER_SIZE && n < BUFFER_SIZE
    modifies name, buf
    ensures buf[..] == Overwrite(old(buf[..]), 0, old(name[..n]) + Zeros(BUFFER_SIZE - n))
  {
    ghost var h := name[..n];
    name[n] := 0;
    forall k | n <= k < BUFFER_SIZE {
      name[k] := 0;
    }
    assert name[..] == h + Zeros(BUFFER_SIZE - n);
    ghost var before := buf[..];
    CopyTo(buf, 0, name[..]);
    ghost var now := buf[..];
    buf[31] := 0;
    assert now[31] == 0;
    assert buf[..] == now;
  }

  /** The loop over the name. All writes stay inside the array. */
  method FillName(s: seq<byte>, name: array<byte>, dest: nat, start: nat, skip: nat, ghost appendixSize: nat)
    returns (n: nat)
    requires name.Length == BUFFER_SIZE && dest < BUFFER_SIZE && WellFormed(name[..dest])
    requires Reach(s, Progress(start, name[..dest], skip)) <= 31 - appendixSize
    modifies name
    ensures n < BUFFER_SIZE && name[..n] == Loop(s, Progress(start, old(name[..dest]), skip)).name
  {
    hide Loop, WellFormed;
    ghost var p0 := Progress(start, name[..dest], skip);
    n := dest;
    var i, skipBytes := start, skip;
    while i < |s| - skipBytes
      invariant n < BUFFER_SIZE && 0 <= skipBytes
      invariant WellFormed(name[..n])
      invariant Reach(s, Progress(i, name[..n], skipBytes)) <= 31 - appendixSize
      invariant Loop(s, Progress(i, name[..n], skipBytes)) == Loop(s, p0)
      decreases |s| - i
    {
      ghost var d := name[..n];
      StepKeeps(s, Progress(i, d, skipBytes));
      LoopStep(s, Progress(i, d, skipBytes));
      var c := s[i];
      i := i + 1;
      if c < 32 {
        continue;
      } else if c < 48 {
        name[n] := HYPHEN;
      } else if c < 58 {
        name[n] := c;
      } else if c < 65 {
        name[n] := HYPHEN;
      } else if c < 91 {
        name[n] := c;
      } else if c < 97 {
        name[n] := HYPHEN;
      } else if c < 123 {
        name[n] := c - 32;
      } else {
        continue;
      }
      n := n + 1;
      assert name[..n] == d + [name[n - 1]];
      if n == 1 {
        if name[0] == HYPHEN {
          if skipBytes > 0 {
            skipBytes := skipBytes - 1;
          }
          n := n - 1;
        }
      } else if name[n - 2] == HYPHEN && name[n - 1] == HYPHEN {
        if skipBytes > 0 {
          skipBytes := skipBytes - 1;
        }
        n := n - 1;
      }
      assert name[..n] == d || name[..n] == d + [name[n - 1]];
    }
    LoopEnd(s, Progress(i, name[..n], skipBytes));
  }
}

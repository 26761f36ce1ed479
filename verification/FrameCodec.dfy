/**
 The SUPLA wire format and the parser of one receive buffer, as functions of the bytes.

 A frame is the packed packet structure cut after its payload, followed by the tag again.
 The classes in Proto.dfy do this in place, on buffers that grow and shrink; their contracts
 refer to ScanFrame and Drain, and what the protocol promises is proved here about these.
 */
module FrameCodec {
  import opened Common

  const TAG: seq<byte> := [83, 85, 80, 76, 65]  // "SUPLA"
  const TAG_SIZE := 5
  /** Tag, version, rr_id, call_id and data_size: the packet structure without its payload array. */
  const HEADER_SIZE := 18
  const PROTO_VERSION_MIN := 1
  const PROTO_VERSION := 28

  /** The sizes that the build fixes by preprocessor symbols. */
  datatype Build = Build(maxData: nat, bufferMin: nat, bufferMax: nat, readSize: nat)
  {
    ghost predicate Valid() {
      && bufferMin < bufferMax
      && HEADER_SIZE + maxData + TAG_SIZE < bufferMax <= U32_MODULUS / 2
      && 0 < readSize < U32_MODULUS / 2
    }
  }

  const DEVICE := Build(600, 512, 2048, 1024)
  const DEFAULT := Build(10240, 0, 131072, 32768)

  datatype Message = Message(version: byte, rrId: u32, callId: u32, data: seq<byte>)

  predicate Sendable(b: Build, m: Message) {
    && PROTO_VERSION_MIN <= m.version <= PROTO_VERSION
    && |m.data| <= b.maxData
    && HEADER_SIZE + b.maxData + TAG_SIZE < U32_MODULUS
  }

  function Header(m: Message): (s: seq<byte>)
    ensures |s| == HEADER_SIZE
  {
    TAG + [m.version] + Le32(m.rrId) + Le32(m.callId) + Le32(|m.data| % U32_MODULUS)
  }

  function Frame(m: Message): (s: seq<byte>)
    ensures |s| == HEADER_SIZE + |m.data| + TAG_SIZE
  {
    Header(m) + m.data + TAG
  }

  /** The bytes of one frame, by their places: tag, version, request id, call id and payload size, lowest
      byte first, payload, tag. */
  lemma FrameBytes(m: Message)
    requires |m.data| < U32_MODULUS
    ensures var s := Frame(m);
            var n := |m.data|;
            && |s| == n + 23
            && s[..5] == [83, 85, 80, 76, 65] && s[5] == m.version
            && s[6] as int + 0x100 * s[7] as int + 0x1_0000 * s[8] as int + 0x100_0000 * s[9] as int == m.rrId
            && s[10] as int + 0x100 * s[11] as int + 0x1_0000 * s[12] as int + 0x100_0000 * s[13] as int == m.callId
            && s[14] as int + 0x100 * s[15] as int + 0x1_0000 * s[16] as int + 0x100_0000 * s[17] as int == n
            && s[18..18 + n] == m.data && s[18 + n..] == [83, 85, 80, 76, 65]
  {
    var s := Frame(m);
    HeaderFields(m, m.data + TAG);
    assert s == Header(m) + (m.data + TAG);
    assert s[..5] == TAG;
  }

  // ----- the packet structure in memory

  predicate IsImage(b: Build, s: seq<byte>) {
    |s| == HEADER_SIZE + b.maxData
  }

  function DataSizeField(s: seq<byte>): u32
    requires |s| >= HEADER_SIZE
  {
    FromLe32(s[14..18])
  }

  /** What the receiver of a packet structure sees in it. A size field beyond the payload array
      (possible only when header and size wrapped around 32 bits) shows the whole array. */
  function ReadImage(s: seq<byte>): Message
    requires |s| >= HEADER_SIZE
  {
    Message(s[5], FromLe32(s[6..10]), FromLe32(s[10..14]),
            s[HEADER_SIZE..Min(HEADER_SIZE + DataSizeField(s), |s|)])
  }

  lemma HeaderFields(m: Message, rest: seq<byte>)
    requires |m.data| < U32_MODULUS
    ensures var s := Header(m) + rest;
            && s[..TAG_SIZE] == TAG && s[5] == m.version
            && FromLe32(s[6..10]) == m.rrId && FromLe32(s[10..14]) == m.callId
            && DataSizeField(s) == |m.data|
  {
    hide Le32, FromLe32;
    var s := Header(m) + rest;
    assert s[6..10] == Le32(m.rrId);
    assert s[10..14] == Le32(m.callId);
    assert s[14..18] == Le32(|m.data|);
    Le32RoundTrip(m.rrId);
    Le32RoundTrip(m.callId);
    Le32RoundTrip(|m.data|);
  }

  /** A packet structure whose first bytes are header and payload reads back as that message. */
  lemma ReadImageOfMessage(m: Message, tail: seq<byte>)
    requires |m.data| < U32_MODULUS
    ensures ReadImage(Header(m) + m.data + tail) == m
  {
    HeaderFields(m, m.data + tail);
    assert Header(m) + m.data + tail == Header(m) + (m.data + tail);
  }

  // ----- one attempt to take a packet out of the receive buffer

  datatype Scan = NeedMore | DataError | VersionError(version: byte) | Packet(length: nat)

  /** Packet(n): the first n bytes are the packet and n + TAG_SIZE bytes leave the buffer. The sum
      of header size and declared payload size is computed in 32 bits. */
  function ScanFrame(b: Build, s: seq<byte>): (r: Scan)
    ensures r.Packet? ==> |s| >= HEADER_SIZE + TAG_SIZE
    ensures r.Packet? ==> TAG_SIZE <= r.length + TAG_SIZE <= |s| && r.length <= HEADER_SIZE + b.maxData
  {
    if |s| < TAG_SIZE then NeedMore
    else if s[..TAG_SIZE] != TAG then DataError
    else if |s| - TAG_SIZE < HEADER_SIZE then NeedMore
    else if s[5] > PROTO_VERSION || s[5] < PROTO_VERSION_MIN then VersionError(s[5])
    else
      var n := (HEADER_SIZE + DataSizeField(s)) % U32_MODULUS;
      if n > HEADER_SIZE + b.maxData then DataError
      else if n + TAG_SIZE > |s| then NeedMore
      else if s[n..n + TAG_SIZE] != TAG then DataError
      else Packet(n)
  }

  /** The buffer and the packet structure after the attempt: an error empties the buffer, a packet
      overwrites the front of the structure and leaves the buffer together with its closing tag. */
  datatype Popped = Popped(scan: Scan, rest: seq<byte>, image: seq<byte>)

  function PopPacket(b: Build, s: seq<byte>, image: seq<byte>): (p: Popped)
    requires IsImage(b, image)
    ensures IsImage(b, p.image)
    ensures p.scan.Packet? ==> |p.rest| + TAG_SIZE <= |s|
  {
    var scan := ScanFrame(b, s);
    match scan
    case NeedMore => Popped(scan, s, image)
    case DataError => Popped(scan, [], image)
    case VersionError(v) => Popped(scan, [], image[5 := v])
    case Packet(n) => Popped(scan, s[n + TAG_SIZE..], s[..n] + image[n..])
  }

  /** Exactly which buffers are given up, and for what: no tag at the beginning; a version outside 1 to 28;
      otherwise a size beyond the payload array, or something else where the closing tag belongs. */
  lemma ErrorsIff(b: Build, s: seq<byte>)
    ensures var scan := ScanFrame(b, s);
            var tagged := |s| >= 5 && s[..5] == [83, 85, 80, 76, 65];
            var headed := tagged && |s| >= 23;
            var known := headed && 1 <= s[5] <= 28;
            && (scan.VersionError? <==> headed && !(1 <= s[5] <= 28))
            && (scan.VersionError? ==> scan.version == s[5])
            && (scan.DataError? <==>
                  || (|s| >= 5 && !tagged)
                  || (known &&
                      var n := (18 + DataSizeField(s)) % 0x1_0000_0000;
                      n > 18 + b.maxData || (n + 5 <= |s| && s[n..n + 5] != [83, 85, 80, 76, 65])))
  {
    hide DataSizeField;
  }

  /** What an error leaves behind: nothing in the buffer, and in the packet structure no change but the
      version that was not understood. */
  lemma ErrorLeaves(b: Build, s: seq<byte>, image: seq<byte>)
    requires IsImage(b, image)
    ensures var p := PopPacket(b, s, image);
            && (p.scan.VersionError? || p.scan.DataError? ==> p.rest == [])
            && (p.scan.VersionError? ==>
                  |s| >= 23 && forall i :: 0 <= i < |image| ==> p.image[i] == if i == 5 then s[5] else image[i])
            && (p.scan.DataError? || p.scan.NeedMore? ==> p.image == image)
            && (p.scan.NeedMore? ==> p.rest == s)
            && (p.scan.Packet? ==>
                  forall i :: 0 <= i < |image| ==> p.image[i] == if i < p.scan.length then s[i] else image[i])
  {
    ErrorsIff(b, s);
    hide DataSizeField, ScanFrame;
  }

  /** A buffer that waits for more bytes is short: fewer bytes than the largest frame. */
  lemma ResidualBound(b: Build, s: seq<byte>)
    ensures ScanFrame(b, s).NeedMore? ==> |s| < HEADER_SIZE + b.maxData + TAG_SIZE
  {}

  /** A verdict reached on a prefix of the stream is the verdict on every longer prefix. */
  lemma ScanStable(b: Build, s: seq<byte>, t: seq<byte>)
    requires !ScanFrame(b, s).NeedMore?
    ensures ScanFrame(b, s + t) == ScanFrame(b, s)
  {
    assert (s + t)[..TAG_SIZE] == s[..TAG_SIZE];
    if |s| >= HEADER_SIZE + TAG_SIZE {
      assert (s + t)[14..18] == s[14..18];
      var n := (HEADER_SIZE + DataSizeField(s)) % U32_MODULUS;
      if n + TAG_SIZE <= |s| {
        assert (s + t)[n..n + TAG_SIZE] == s[n..n + TAG_SIZE];
      }
    }
  }

  lemma ScanOfFrame(b: Build, m: Message, rest: seq<byte>)
    requires Sendable(b, m)
    ensures ScanFrame(b, Frame(m) + rest) == Packet(HEADER_SIZE + |m.data|)
  {
    hide Header, DataSizeField, FromLe32, Le32;
    var s := Frame(m) + rest;
    var tail := m.data + TAG + rest;
    HeaderFields(m, tail);
    assert s == Header(m) + tail;
    var n := HEADER_SIZE + |m.data|;
    assert s[n..n + TAG_SIZE] == tail[|m.data|..|m.data| + TAG_SIZE] == TAG;
  }

  /** Nothing short of the whole frame makes the parser report anything. */
  lemma ScanOfFramePrefix(b: Build, m: Message, k: nat)
    requires Sendable(b, m) && k < |Frame(m)|
    ensures ScanFrame(b, Frame(m)[..k]).NeedMore?
  {
    var p := Frame(m)[..k];
    if !ScanFrame(b, p).NeedMore? {
      assert p + Frame(m)[k..] == Frame(m) == Frame(m) + [];
      ScanStable(b, p, Frame(m)[k..]);
      ScanOfFrame(b, m, []);
    }
  }

  lemma HeaderOfFields(s: seq<byte>, data: seq<byte>)
    requires |s| >= HEADER_SIZE && s[..TAG_SIZE] == TAG && |data| == DataSizeField(s)
    ensures Header(Message(s[5], FromLe32(s[6..10]), FromLe32(s[10..14]), data)) == s[..HEADER_SIZE]
  {
    FromLe32RoundTrip(s[6..10]);
    FromLe32RoundTrip(s[10..14]);
    FromLe32RoundTrip(s[14..18]);
    assert s[..HEADER_SIZE] == s[..TAG_SIZE] + [s[5]] + s[6..10] + s[10..14] + s[14..18];
  }

  lemma AcceptedIsFrame(b: Build, s: seq<byte>)
    requires HEADER_SIZE + b.maxData + TAG_SIZE < U32_MODULUS
    requires ScanFrame(b, s).Packet? && HEADER_SIZE + DataSizeField(s) < U32_MODULUS
    ensures ScanFrame(b, s).length == HEADER_SIZE + DataSizeField(s)
    ensures var n := ScanFrame(b, s).length;
            var m := Message(s[5], FromLe32(s[6..10]), FromLe32(s[10..14]), s[HEADER_SIZE..n]);
            Sendable(b, m) && Frame(m) == s[..n + TAG_SIZE]
  {
    hide Header, FromLe32;
    var n := HEADER_SIZE + DataSizeField(s);
    HeaderOfFields(s, s[HEADER_SIZE..n]);
    ThreeParts(s, HEADER_SIZE, n, n + TAG_SIZE);
  }

  lemma ThreeParts<T>(s: seq<T>, i: nat, j: nat, k: nat)
    requires i <= j <= k <= |s|
    ensures s[..k] == s[..i] + s[i..j] + s[j..k]
  {}

  /** Exactly when the parser accepts, for every declared size whose sum with the header does not
      wrap around 32 bits: the buffer starts with the frame of a message that may be sent. */
  lemma AcceptedIffFrame(b: Build, s: seq<byte>)
    requires HEADER_SIZE + b.maxData + TAG_SIZE < U32_MODULUS
    requires |s| >= HEADER_SIZE ==> HEADER_SIZE + DataSizeField(s) < U32_MODULUS
    ensures ScanFrame(b, s).Packet? <==> exists m :: Sendable(b, m) && Frame(m) <= s
  {
    hide FromLe32, Frame, DataSizeField;
    if ScanFrame(b, s).Packet? {
      AcceptedIsFrame(b, s);
    }
    forall m | Sendable(b, m) && Frame(m) <= s ensures ScanFrame(b, s).Packet? {
      ScanOfFrame(b, m, s[|Frame(m)|..]);
      assert Frame(m) + s[|Frame(m)|..] == s;
    }
  }

  /** Without that condition the equivalence fails: if the sum wraps, the buffer starts with no frame
      of a message that may be sent, whatever the parser says. */
  lemma WrappedSizeIsNoFrame(b: Build, s: seq<byte>, m: Message)
    requires |s| >= HEADER_SIZE && HEADER_SIZE + DataSizeField(s) >= U32_MODULUS
    requires Sendable(b, m)
    ensures !(Frame(m) <= s)
  {
    if Frame(m) <= s {
      FrameDeclaresSize(m, s);
    }
  }

  lemma FrameDeclaresSize(m: Message, s: seq<byte>)
    requires |m.data| < U32_MODULUS && Frame(m) <= s
    ensures DataSizeField(s) == |m.data|
  {
    var rest := m.data + TAG + s[|Frame(m)|..];
    HeaderFields(m, rest);
    assert s == Header(m) + rest;
  }

  /** For all buffers: there is a frame exactly when a packet is reported and the sum does not wrap. */
  lemma FrameIffAccepted(b: Build, s: seq<byte>)
    requires HEADER_SIZE + b.maxData + TAG_SIZE < U32_MODULUS
    ensures (exists m :: Sendable(b, m) && Frame(m) <= s) <==>
            ScanFrame(b, s).Packet? && HEADER_SIZE + DataSizeField(s) < U32_MODULUS
  {
    hide FromLe32, Frame, DataSizeField;
    if |s| < HEADER_SIZE || HEADER_SIZE + DataSizeField(s) < U32_MODULUS {
      AcceptedIffFrame(b, s);
    } else {
      forall m | Sendable(b, m) ensures !(Frame(m) <= s) {
        WrappedSizeIsNoFrame(b, s, m);
      }
    }
  }

  /** Exactly which buffers with a sum that wraps pass for a packet: the wrapped length is 0, or it
      points to a tag among the ids of the header. */
  lemma WrappedAcceptedIff(b: Build, s: seq<byte>)
    requires |s| >= HEADER_SIZE + TAG_SIZE && HEADER_SIZE + DataSizeField(s) >= U32_MODULUS
    requires s[..TAG_SIZE] == TAG && PROTO_VERSION_MIN <= s[5] <= PROTO_VERSION
    ensures var n := HEADER_SIZE + DataSizeField(s) - U32_MODULUS;
            && n < HEADER_SIZE
            && (ScanFrame(b, s).Packet? <==> n == 0 || (6 <= n <= 9 && s[n..n + TAG_SIZE] == TAG))
  {
    var n := HEADER_SIZE + DataSizeField(s) - U32_MODULUS;
    WrappedSizeBytes(s);
    if s[n..n + TAG_SIZE] == TAG {
      TagStandsAt(s, n);
    }
  }

  /** Only a size field with these bytes makes the sum wrap. */
  lemma WrappedSizeBytes(s: seq<byte>)
    requires |s| >= HEADER_SIZE && HEADER_SIZE + DataSizeField(s) >= U32_MODULUS
    ensures s[14] >= 0xEE && s[15] == s[16] == s[17] == 0xFF
  {
    var f := s[14..18];
    assert f[0] == s[14] && f[1] == s[15] && f[2] == s[16] && f[3] == s[17];
  }

  lemma TagStandsAt(s: seq<byte>, n: nat)
    requires n < HEADER_SIZE && |s| >= HEADER_SIZE + TAG_SIZE && s[n..n + TAG_SIZE] == TAG && s[..TAG_SIZE] == TAG
    requires PROTO_VERSION_MIN <= s[5] <= PROTO_VERSION
    requires s[14] >= 0xEE && s[15] == s[16] == s[17] == 0xFF
    ensures n == 0 || 6 <= n <= 9
  {
    forall k | 0 <= k < TAG_SIZE ensures s[n + k] == TAG[k] && s[k] == TAG[k] {
      assert s[n..n + TAG_SIZE][k] == s[n + k] && s[..TAG_SIZE][k] == s[k];
    }
    assert s[n + 0] == TAG[0];
  }

  /** And it may say that there is a packet: a header that declares 2^32 - 18 bytes. */
  lemma WrappedSizeAccepted(b: Build)
    ensures var s := TAG + [PROTO_VERSION] + Zeros(8) + Le32(U32_MODULUS - HEADER_SIZE) + TAG;
            ScanFrame(b, s) == Packet(0)
  {
    var s := TAG + [PROTO_VERSION] + Zeros(8) + Le32(U32_MODULUS - HEADER_SIZE) + TAG;
    assert s[14..18] == Le32(U32_MODULUS - HEADER_SIZE);
    Le32RoundTrip(U32_MODULUS - HEADER_SIZE);
  }

  // ----- draining the buffer, as the device does after every read

  /** log: the packets handed to the application; rest: what stays buffered; image: the packet
      structure the last packet was copied into. */
  datatype Drained = Drained(log: seq<Message>, rest: seq<byte>, image: seq<byte>, outcome: Scan)

  function Prepend(log: seq<Message>, d: Drained): Drained {
    d.(log := log + d.log)
  }

  function Drain(b: Build, s: seq<byte>, image: seq<byte>): (d: Drained)
    requires IsImage(b, image)
    ensures IsImage(b, d.image) && !d.outcome.Packet?
    ensures d.outcome.NeedMore? ==> ScanFrame(b, d.rest).NeedMore?
    ensures !d.outcome.NeedMore? ==> d.rest == []
    decreases |s|
  {
    var p := PopPacket(b, s, image);
    if p.scan.Packet? then Prepend([ReadImage(p.image)], Drain(b, p.rest, p.image))
    else Drained([], p.rest, p.image, p.scan)
  }

  /** The reads of one connection: the buffer is drained after each; the first error ends it. */
  function Receive(b: Build, s: seq<byte>, image: seq<byte>, chunks: seq<seq<byte>>): Drained
    requires IsImage(b, image)
    decreases |chunks|
  {
    if chunks == [] then Drained([], s, image, NeedMore)
    else
      var d := Drain(b, s + chunks[0], image);
      if d.outcome.NeedMore? then Prepend(d.log, Receive(b, d.rest, d.image, chunks[1..])) else d
  }

  /** One read of a connection, behind those that came before. */
  lemma ReceiveStep(b: Build, log: seq<Message>, s: seq<byte>, image: seq<byte>, chunks: seq<seq<byte>>)
    requires IsImage(b, image) && chunks != []
    ensures var d := Drain(b, s + chunks[0], image);
            Prepend(log, Receive(b, s, image, chunks)) ==
            if d.outcome.NeedMore? then Prepend(log + d.log, Receive(b, d.rest, d.image, chunks[1..]))
            else Prepend(log, d)
  {
    var d := Drain(b, s + chunks[0], image);
    if d.outcome.NeedMore? {
      PrependTwice(log, d.log, Receive(b, d.rest, d.image, chunks[1..]));
    }
  }

  lemma PrependTwice(a: seq<Message>, c: seq<Message>, d: Drained)
    ensures Prepend(a, Prepend(c, d)) == Prepend(a + c, d)
  {
    assert a + (c + d.log) == (a + c) + d.log;
  }

  /** Taking one packet off the front commutes with more bytes arriving at the back. */
  lemma PopStable(b: Build, s: seq<byte>, t: seq<byte>, image: seq<byte>)
    requires IsImage(b, image) && !ScanFrame(b, s).NeedMore?
    ensures var p := PopPacket(b, s, image);
            PopPacket(b, s + t, image) == if p.scan.Packet? then p.(rest := p.rest + t) else p
  {
    ScanStable(b, s, t);
    if ScanFrame(b, s).Packet? {
      var n := ScanFrame(b, s).length;
      assert (s + t)[..n] == s[..n];
      assert (s + t)[n + TAG_SIZE..] == s[n + TAG_SIZE..] + t;
    }
  }

  lemma {:induction false} DrainSplit(b: Build, s: seq<byte>, t: seq<byte>, image: seq<byte>)
    requires IsImage(b, image)
    ensures var d := Drain(b, s, image);
            Drain(b, s + t, image) ==
            if d.outcome.NeedMore? then Prepend(d.log, Drain(b, d.rest + t, d.image)) else d
    decreases |s|
  {
    var p := PopPacket(b, s, image);
    if p.scan.Packet? {
      var d := Drain(b, p.rest, p.image);
      PopStable(b, s, t, image);
      DrainSplit(b, p.rest, t, p.image);
      if d.outcome.NeedMore? {
        PrependTwice([ReadImage(p.image)], d.log, Drain(b, d.rest + t, d.image));
      }
    } else if !p.scan.NeedMore? {
      PopStable(b, s, t, image);
    }
  }

  /** However the network cuts the stream, the application sees the same packets, the same first
      error and the same leftover as if everything had arrived in one read. Any bytes, valid or not. */
  lemma {:induction false} ChunkingIndependence(b: Build, s: seq<byte>, image: seq<byte>, chunks: seq<seq<byte>>)
    requires IsImage(b, image) && ScanFrame(b, s).NeedMore?
    ensures Receive(b, s, image, chunks) == Drain(b, s + Concat(chunks), image)
    decreases |chunks|
  {
    if chunks == [] {
      assert s + Concat(chunks) == s;
    } else {
      DrainSplit(b, s + chunks[0], Concat(chunks[1..]), image);
      assert s + Concat(chunks) == (s + chunks[0]) + Concat(chunks[1..]);
      var d := Drain(b, s + chunks[0], image);
      if d.outcome.NeedMore? {
        ChunkingIndependence(b, d.rest, d.image, chunks[1..]);
      }
    }
  }

  function Frames(ms: seq<Message>): seq<byte>
  {
    if ms == [] then [] else Frame(ms[0]) + Frames(ms[1..])
  }

  lemma {:induction false} FramesAppend(a: seq<Message>, c: seq<Message>)
    ensures Frames(a + c) == Frames(a) + Frames(c)
  {
    if a == [] {
      assert a + c == c;
    } else {
      assert (a + c)[1..] == a[1..] + c;
      FramesAppend(a[1..], c);
    }
  }

  lemma {:induction false} DrainOfFrames(b: Build, ms: seq<Message>, image: seq<byte>)
    requires IsImage(b, image)
    requires forall m <- ms :: Sendable(b, m)
    ensures var d := Drain(b, Frames(ms), image); d.log == ms && d.rest == [] && d.outcome.NeedMore?
    decreases |ms|
  {
    if ms != [] {
      hide ScanFrame, ReadImage, Header, DataSizeField;
      var m, n := ms[0], HEADER_SIZE + |ms[0].data|;
      var s := Frames(ms);
      ScanOfFrame(b, m, Frames(ms[1..]));
      assert s[..n] == Header(m) + m.data;
      assert s[n + TAG_SIZE..] == Frames(ms[1..]);
      ReadImageOfMessage(m, image[n..]);
      DrainOfFrames(b, ms[1..], s[..n] + image[n..]);
    }
  }

  /** End to end: frames cut into any reads arrive as exactly the messages sent, in order, with no
      error, nothing left over. */
  lemma EndToEnd(b: Build, ms: seq<Message>, image: seq<byte>, chunks: seq<seq<byte>>)
    requires IsImage(b, image)
    requires forall m <- ms :: Sendable(b, m)
    requires Concat(chunks) == Frames(ms)
    ensures var d := Receive(b, [], image, chunks); d.log == ms && d.rest == [] && d.outcome.NeedMore?
  {
    ChunkingIndependence(b, [], image, chunks);
    assert [] + Concat(chunks) == Frames(ms);
    DrainOfFrames(b, ms, image);
  }

  // ----- streams in which no declared size wraps

  /** No packet that is taken out declares a size whose sum with the header wraps. */
  ghost predicate NoWrap(b: Build, s: seq<byte>)
    decreases |s|
  {
    var r := ScanFrame(b, s);
    r.Packet? ==> HEADER_SIZE + DataSizeField(s) < U32_MODULUS && NoWrap(b, s[r.length + TAG_SIZE..])
  }

  /** Draining into a structure without an earlier packet in it. */
  function DrainFresh(b: Build, s: seq<byte>): Drained {
    Drain(b, s, Zeros(HEADER_SIZE + b.maxData))
  }

  lemma ImageOfPacket(b: Build, s: seq<byte>, i: seq<byte>, j: seq<byte>)
    requires IsImage(b, i) && IsImage(b, j)
    requires ScanFrame(b, s).Packet? && HEADER_SIZE + DataSizeField(s) < U32_MODULUS
    ensures ReadImage(PopPacket(b, s, i).image) == ReadImage(PopPacket(b, s, j).image)
  {
    FrontDecides(b, s, i);
    FrontDecides(b, s, j);
  }

  lemma FrontDecides(b: Build, s: seq<byte>, i: seq<byte>)
    requires IsImage(b, i)
    requires ScanFrame(b, s).Packet? && HEADER_SIZE + DataSizeField(s) < U32_MODULUS
    ensures HEADER_SIZE + DataSizeField(s) <= |s|
    ensures ReadImage(PopPacket(b, s, i).image) ==
            Message(s[5], FromLe32(s[6..10]), FromLe32(s[10..14]), s[HEADER_SIZE..HEADER_SIZE + DataSizeField(s)])
  {
    hide FromLe32;
    var n := HEADER_SIZE + DataSizeField(s);
    var t := s[..n] + i[n..];
    assert t[6..10] == s[6..10] && t[10..14] == s[10..14] && t[14..18] == s[14..18];
    assert t[HEADER_SIZE..n] == s[HEADER_SIZE..n];
  }

  /** What was in the packet structure before makes no difference then. */
  lemma {:induction false} DrainIgnoresImage(b: Build, s: seq<byte>, i: seq<byte>, j: seq<byte>)
    requires IsImage(b, i) && IsImage(b, j) && NoWrap(b, s)
    ensures var d, e := Drain(b, s, i), Drain(b, s, j);
            d.log == e.log && d.rest == e.rest && d.outcome == e.outcome
    decreases |s|
  {
    hide ScanFrame, ReadImage;
    if ScanFrame(b, s).Packet? {
      ImageOfPacket(b, s, i, j);
      DrainIgnoresImage(b, PopPacket(b, s, i).rest, PopPacket(b, s, i).image, PopPacket(b, s, j).image);
    }
  }

  /** With a sum that wraps to 0 it decides everything: the packet handled before is seen again. */
  lemma WrappedShowsImage(b: Build, image: seq<byte>)
    requires IsImage(b, image)
    ensures var s := TAG + [PROTO_VERSION] + Zeros(8) + Le32(U32_MODULUS - HEADER_SIZE) + TAG;
            PopPacket(b, s, image).scan == Packet(0) && PopPacket(b, s, image).image == image
  {
    WrappedSizeAccepted(b);
    hide ScanFrame;
  }

  lemma {:induction false} NoWrapPrefix(b: Build, s: seq<byte>, t: seq<byte>)
    requires NoWrap(b, s + t)
    ensures NoWrap(b, s)
    decreases |s|
  {
    if ScanFrame(b, s).Packet? {
      var n := ScanFrame(b, s).length + TAG_SIZE;
      NoWrapStep(b, s, t);
      NoWrapPrefix(b, s[n..], t);
    }
  }

  lemma NoWrapStep(b: Build, s: seq<byte>, t: seq<byte>)
    requires NoWrap(b, s + t) && ScanFrame(b, s).Packet?
    ensures HEADER_SIZE + DataSizeField(s) < U32_MODULUS
    ensures NoWrap(b, s[ScanFrame(b, s).length + TAG_SIZE..] + t)
  {
    ScanStable(b, s, t);
    var n := ScanFrame(b, s).length + TAG_SIZE;
    hide ScanFrame;
    assert (s + t)[n..] == s[n..] + t;
    assert (s + t)[14..18] == s[14..18];
  }

  lemma {:induction false} NoWrapRest(b: Build, s: seq<byte>, t: seq<byte>, image: seq<byte>)
    requires IsImage(b, image) && NoWrap(b, s + t) && Drain(b, s, image).outcome.NeedMore?
    ensures NoWrap(b, Drain(b, s, image).rest + t)
    decreases |s|
  {
    hide ScanFrame, ReadImage;
    if ScanFrame(b, s).Packet? {
      NoWrapStep(b, s, t);
      NoWrapRest(b, PopPacket(b, s, image).rest, t, PopPacket(b, s, image).image);
    }
  }

  lemma {:induction false} FramesDoNotWrap(b: Build, ms: seq<Message>)
    requires forall m <- ms :: Sendable(b, m)
    ensures NoWrap(b, Frames(ms))
    decreases |ms|
  {
    if ms != [] {
      hide ScanFrame, Header, DataSizeField;
      var m, rest := ms[0], Frames(ms[1..]);
      ScanOfFrame(b, m, rest);
      FrameDeclaresSize(m, Frames(ms));
      assert Frames(ms)[HEADER_SIZE + |m.data| + TAG_SIZE..] == rest;
      FramesDoNotWrap(b, ms[1..]);
    }
  }

  // ----- one packet at a time

  /** What has been delivered and what will be once s is drained is what draining all bytes delivers. */
  ghost predicate OnTheWay(b: Build, log: seq<Message>, all: seq<byte>, delivered: seq<Message>, s: seq<byte>) {
    var d, e := DrainFresh(b, all), DrainFresh(b, s);
    log + d.log == delivered + e.log && d.rest == e.rest && d.outcome == e.outcome
  }

  lemma {:induction false} DrainIsShort(b: Build, s: seq<byte>, image: seq<byte>)
    requires IsImage(b, image)
    ensures |Drain(b, s, image).log| <= |s|
    decreases |s|
  {
    var p := PopPacket(b, s, image);
    if p.scan.Packet? {
      hide PopPacket;
      DrainIsShort(b, p.rest, p.image);
    }
  }

  /** No part of a stream of frames reads as an error. */
  lemma FramesPrefix(b: Build, ms: seq<Message>, s: seq<byte>, t: seq<byte>)
    requires (forall m <- ms :: Sendable(b, m)) && s + t == Frames(ms)
    ensures DrainFresh(b, s).outcome.NeedMore?
    ensures t == [] ==> DrainFresh(b, s).log == ms && DrainFresh(b, s).rest == []
  {
    var blank := Zeros(HEADER_SIZE + b.maxData);
    DrainOfFrames(b, ms, blank);
    DrainSplit(b, s, t, blank);
    assert t == [] ==> s == s + t;
  }

  lemma FreshSplit(b: Build, s: seq<byte>, t: seq<byte>)
    requires NoWrap(b, s + t)
    ensures var d := DrainFresh(b, s);
            var w := DrainFresh(b, s + t);
            if d.outcome.NeedMore? then
              var e := DrainFresh(b, d.rest + t);
              w.log == d.log + e.log && w.rest == e.rest && w.outcome == e.outcome
            else w == d
  {
    hide Drain, NoWrap, ScanFrame, Zeros;
    var blank := Zeros(HEADER_SIZE + b.maxData);
    DrainSplit(b, s, t, blank);
    var d := DrainFresh(b, s);
    if d.outcome.NeedMore? {
      NoWrapRest(b, s, t, blank);
      DrainIgnoresImage(b, d.rest + t, d.image, blank);
    }
  }

  /** More bytes arrive. */
  lemma MoreOnTheWay(b: Build, log: seq<Message>, all: seq<byte>, delivered: seq<Message>, s: seq<byte>, t: seq<byte>)
    requires OnTheWay(b, log, all, delivered, s) && NoWrap(b, all + t) && NoWrap(b, s + t)
    ensures OnTheWay(b, log, all + t, delivered, s + t)
  {
    hide DrainFresh;
    FreshSplit(b, all, t);
    FreshSplit(b, s, t);
    var e := DrainFresh(b, DrainFresh(b, s).rest + t);
    AppendAssoc(log, DrainFresh(b, all).log, e.log);
    AppendAssoc(delivered, DrainFresh(b, s).log, e.log);
  }

  /** One packet is taken out, or none is there. */
  lemma OneOnTheWay(b: Build, log: seq<Message>, all: seq<byte>, delivered: seq<Message>, s: seq<byte>,
                    image: seq<byte>)
    requires OnTheWay(b, log, all, delivered, s) && NoWrap(b, s) && IsImage(b, image)
    ensures var p := PopPacket(b, s, image);
            if p.scan.Packet? then
              && OnTheWay(b, log, all, delivered + [ReadImage(p.image)], p.rest)
              && DrainFresh(b, s).log == [ReadImage(p.image)] + DrainFresh(b, p.rest).log
            else
              && DrainFresh(b, s).log == [] && DrainFresh(b, all).outcome == p.scan
              && delivered == log + DrainFresh(b, all).log && DrainFresh(b, all).rest == p.rest
  {
    hide ScanFrame, ReadImage;
    var blank := Zeros(HEADER_SIZE + b.maxData);
    var p, q := PopPacket(b, s, image), PopPacket(b, s, blank);
    if p.scan.Packet? {
      ImageOfPacket(b, s, image, blank);
      DrainIgnoresImage(b, p.rest, q.image, blank);
      AppendAssoc(delivered, [ReadImage(p.image)], DrainFresh(b, p.rest).log);
    } else {
      assert delivered + [] == delivered;
    }
  }
}

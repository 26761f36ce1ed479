/**
 The remote-call object of srpc.c as the default build compiles it: accepted calls wait in a
 bounded queue, received packets in another, and each srpc_iterate reads once, takes at most one
 packet out of the input buffer and moves at most one queued packet to the network.
 */
module SrpcServer {
  import opened Common
  import opened FrameCodec
  import opened Proto
  import opened SrpcQueue
  import opened SrpcDevice

  const QUEUE_SIZE := 10
  const QUEUE_MIN_ALLOC := 0

  /** Any frame fits one write. */
  ghost predicate OneWritePerFrame(b: Build) {
    b.Valid() && b.bufferMin == 0 && HEADER_SIZE + b.maxData + TAG_SIZE <= b.readSize
  }

  lemma DefaultBuildFits()
    ensures OneWritePerFrame(DEFAULT)
    ensures HEADER_SIZE + DEFAULT.maxData + TAG_SIZE == 10263
    ensures DEFAULT.readSize == 32768 && DEFAULT.bufferMax == 131072
  {}

  /** The queued packet structures hold these messages. */
  ghost predicate Hold(build: Build, queued: seq<seq<byte>>, ms: seq<Message>) {
    && |queued| == |ms|
    && forall i :: 0 <= i < |ms| ==> |ms[i].data| <= build.maxData && queued[i] == PacketImage(build, ms[i])
  }

  /** Each write was one whole frame of these messages. */
  ghost predicate OnWire(written: seq<seq<byte>>, ms: seq<Message>) {
    && |written| == |ms|
    && forall i :: 0 <= i < |ms| ==> written[i] == Frame(ms[i])
  }

  /** Among queued messages: the packet with an id is that of the first message with the id. */
  lemma FirstMatchHeld(build: Build, queued: seq<seq<byte>>, ms: seq<Message>, rrId: u32)
    requires Hold(build, queued, ms) && build.maxData < U32_MODULUS
    ensures Packets(queued)
    ensures var k := FirstMatch(queued, rrId);
            && (k < |ms| ==> ReadImage(queued[k]) == ms[k])
            && (rrId == 0 ==> k == 0)
            && (rrId != 0 ==> (forall i :: 0 <= i < k ==> ms[i].rrId != rrId) && (k < |ms| ==> ms[k].rrId == rrId))
  {
    forall i | 0 <= i < |ms| ensures |queued[i]| >= HEADER_SIZE && ReadImage(queued[i]) == ms[i] {
      ReadImageOfMessage(ms[i], Zeros(build.maxData - |ms[i].data|));
    }
    hide ReadImage, FirstMatch;
    FirstMatchMeaning(queued, rrId);
  }

  lemma HoldPush(build: Build, queued: seq<seq<byte>>, ms: seq<Message>, m: Message)
    requires Hold(build, queued, ms) && |m.data| <= build.maxData
    ensures Hold(build, queued + [PacketImage(build, m)], ms + [m])
  {}

  lemma HoldHead(build: Build, queued: seq<seq<byte>>, ms: seq<Message>)
    requires Hold(build, queued, ms)
    ensures |queued| == |ms|
    ensures ms != [] ==>
              && |ms[0].data| <= build.maxData && queued[0] == PacketImage(build, ms[0])
              && Hold(build, queued[1..], ms[1..]) && IsImage(build, queued[0])
  {}

  /** What is written for a message, unless memory has been missing now or before. */
  lemma OnWirePush(written: seq<seq<byte>>, ms: seq<Message>, m: Message, data: seq<byte>, starved: bool, memory: bool)
    requires !starved ==> OnWire(written, ms)
    requires memory ==> data == Frame(m) && data != []
    ensures !starved && memory ==> OnWire(written + [data], ms + [m]) && |data| != 0
  {
    hide Frame;
  }

  /** The receiving side: bytes buffered, packets announced to the application, packets in the queue. */
  datatype Inbox = Inbox(buffered: seq<byte>, delivered: seq<Message>, queued: seq<seq<byte>>)

  function BytesOf(read: Read): seq<byte> {
    if read.Data? then read.bytes else []
  }

  function Arrive(x: Inbox, read: Read): Inbox {
    x.(buffered := x.buffered + BytesOf(read))
  }

  lemma ArriveIs(x: Inbox, read: Read)
    ensures Arrive(x, read) == x.(buffered := x.buffered + if read.Data? then read.bytes else [])
  {}

  /** At most one packet is taken out of the bytes; it is announced if the queue takes it. */
  function TakeOne(b: Build, x: Inbox, image: seq<byte>, room: bool): Inbox
    requires IsImage(b, image)
  {
    var p := PopPacket(b, x.buffered, image);
    if p.scan.Packet? && room then Inbox(p.rest, x.delivered + [ReadImage(p.image)], x.queued + [p.image])
    else x.(buffered := p.rest)
  }

  /** A malformed stream and a packet without room end the call. */
  predicate GoesOn(b: Build, s: seq<byte>, room: bool) {
    var scan := ScanFrame(b, s);
    scan.NeedMore? || (scan.Packet? && room)
  }

  lemma TakeOneIs(b: Build, x: Inbox, image: seq<byte>, room: bool)
    requires IsImage(b, image)
    ensures var p := PopPacket(b, x.buffered, image);
            var queued := p.scan.Packet? && room;
            && GoesOn(b, x.buffered, room) == (p.scan.NeedMore? || queued)
            && TakeOne(b, x, image, room) ==
               Inbox(p.rest, x.delivered + (if queued then [ReadImage(p.image)] else []),
                     x.queued + if queued then [p.image] else [])
  {
    hide ReadImage;
    assert x.delivered + [] == x.delivered && x.queued + [] == x.queued;
  }

  /** The packet that is queued is the message that is announced. */
  lemma QueuedIsAnnounced(b: Build, x: Inbox, image: seq<byte>, room: bool)
    requires IsImage(b, image)
    ensures var y := TakeOne(b, x, image, room);
            if ScanFrame(b, x.buffered).Packet? && room then
              && |y.queued| == |x.queued| + 1 && |y.delivered| == |x.delivered| + 1
              && y.queued[..|x.queued|] == x.queued && y.delivered[..|x.delivered|] == x.delivered
              && |y.queued[|x.queued|]| == HEADER_SIZE + b.maxData
              && ReadImage(y.queued[|x.queued|]) == y.delivered[|x.delivered|]
            else
              y.queued == x.queued && y.delivered == x.delivered
  {
    hide ScanFrame, ReadImage;
  }

  /** Closed connection, or more bytes than the input buffer may ever hold. */
  predicate Refused(b: Build, buffered: seq<byte>, read: Read) {
    read.Closed? || |buffered| + |BytesOf(read)| >= b.bufferMax
  }

  /** TakeOne with an application that empties the queue. */
  function Announce(b: Build, x: Inbox, image: seq<byte>): Inbox
    requires IsImage(b, image)
  {
    TakeOne(b, x, image, true).(queued := [])
  }

  /** The packet announced, and it alone, is in the queue under its id. */
  lemma AnnounceIs(b: Build, x: Inbox, image: seq<byte>)
    requires IsImage(b, image) && x.queued == []
    ensures var y := TakeOne(b, x, image, true);
            && |x.delivered| <= |y.delivered| && Packets(y.queued)
            && Announce(b, x, image) == y.(queued := [])
            && if |y.delivered| > |x.delivered| then
                 var id := y.delivered[|y.delivered| - 1].rrId;
                 FirstMatch(y.queued, id) < |y.queued| && Without(y.queued, FirstMatch(y.queued, id)) == []
               else y.queued == []
  {}

  function AllBytes(rs: seq<Read>): seq<byte> {
    if rs == [] then [] else BytesOf(rs[0]) + AllBytes(rs[1..])
  }

  lemma {:induction false} AllBytesSplit(rs: seq<Read>, i: nat)
    requires i <= |rs|
    ensures AllBytes(rs) == AllBytes(rs[..i]) + AllBytes(rs[i..])
    decreases i
  {
    if i > 0 {
      AllBytesSplit(rs[1..], i - 1);
      assert rs[1..][..i - 1] == rs[..i][1..] && rs[1..][i - 1..] == rs[i..];
      AppendAssoc(BytesOf(rs[0]), AllBytes(rs[..i][1..]), AllBytes(rs[i..]));
    } else {
      assert [] + AllBytes(rs) == AllBytes(rs);
    }
  }

  lemma StartOnTheWay(b: Build, log: seq<Message>, c: seq<byte>, rs: seq<Read>)
    ensures OnTheWay(b, log, c + AllBytes(rs[..0]), log, c) && AllBytes(rs[0..]) == AllBytes(rs)
  {
    assert c + [] == c && rs[0..] == rs;
  }

  /** The i-th read: what came before it, it, and what is still to come. */
  lemma AllBytesAt(c: seq<byte>, rs: seq<Read>, i: nat)
    requires i < |rs|
    ensures var t, rest := BytesOf(rs[i]), AllBytes(rs[i + 1..]);
            && c + AllBytes(rs[..i + 1]) == (c + AllBytes(rs[..i])) + t
            && c + AllBytes(rs) == (c + AllBytes(rs[..i + 1])) + rest
            && AllBytes(rs[i..]) == t + rest
  {
    hide AllBytes;
    AllBytesSplit(rs, i + 1);
    AllBytesSnoc(rs, i);
    AllBytesHead(rs, i);
    AppendAssoc(c, AllBytes(rs[..i]), BytesOf(rs[i]));
    AppendAssoc(c, AllBytes(rs[..i + 1]), AllBytes(rs[i + 1..]));
  }

  lemma AllBytesSnoc(rs: seq<Read>, i: nat)
    requires i < |rs|
    ensures AllBytes(rs[..i + 1]) == AllBytes(rs[..i]) + BytesOf(rs[i])
  {
    AllBytesSplit(rs[..i + 1], i);
    assert rs[..i + 1][..i] == rs[..i] && rs[..i + 1][i..] == [rs[i]];
    assert AllBytes([rs[i]]) == BytesOf(rs[i]) + [];
  }

  lemma AllBytesHead(rs: seq<Read>, i: nat)
    requires i < |rs|
    ensures AllBytes(rs[i..]) == BytesOf(rs[i]) + AllBytes(rs[i + 1..])
  {
    assert rs[i..][1..] == rs[i + 1..];
  }

  /** Over one iteration the packets delivered and those on the way are still the packets of the stream. */
  lemma StepOnTheWay(b: Build, log: seq<Message>, all: seq<byte>, x: Inbox, image: seq<byte>, read: Read,
                     rest: seq<byte>)
    requires IsImage(b, image) && OnTheWay(b, log, all, x.delivered, x.buffered)
    requires NoWrap(b, all + BytesOf(read)) && NoWrap(b, x.buffered + (BytesOf(read) + rest))
    ensures var t := BytesOf(read);
            var y := Announce(b, Arrive(x, read), image);
            var d := DrainFresh(b, all + t);
            if GoesOn(b, Arrive(x, read).buffered, true) then
              OnTheWay(b, log, all + t, y.delivered, y.buffered) && NoWrap(b, y.buffered + rest)
            else
              y.delivered == log + d.log && y.buffered == [] && !d.outcome.NeedMore?
  {
    hide OnTheWay, NoWrap, DrainFresh, PopPacket, ReadImage, ScanFrame;
    var t := BytesOf(read);
    var s := x.buffered + t;
    AppendAssoc(x.buffered, t, rest);
    NoWrapPrefix(b, s, rest);
    MoreOnTheWay(b, log, all, x.delivered, x.buffered, t);
    OneOnTheWay(b, log, all + t, x.delivered, s, image);
    TakeOneIs(b, Arrive(x, read), image, true);
    PopKinds(b, s, image);
    if ScanFrame(b, s).Packet? {
      NoWrapStep(b, s, rest);
    }
  }

  /** An iteration with nothing to read announces the next packet, if one is buffered. */
  lemma SettleStep(b: Build, x: Inbox, image: seq<byte>)
    requires IsImage(b, image) && NoWrap(b, x.buffered) && DrainFresh(b, x.buffered).outcome.NeedMore?
    ensures var y := Announce(b, Arrive(x, Nothing), image);
            var d, e := DrainFresh(b, x.buffered), DrainFresh(b, y.buffered);
            && NoWrap(b, y.buffered) && d.rest == e.rest && d.outcome == e.outcome
            && x.delivered + d.log == y.delivered + e.log
            && |e.log| == if d.log == [] then 0 else |d.log| - 1
  {
    hide NoWrap, DrainFresh, PopPacket, ReadImage, ScanFrame;
    assert x.buffered + [] == x.buffered && x.buffered + ([] + []) == x.buffered;
    Still(b, x);
    StepOnTheWay(b, x.delivered, x.buffered, x, image, Nothing, []);
    OneOnTheWay(b, x.delivered, x.buffered, x.delivered, x.buffered, image);
    TakeOneIs(b, x, image, true);
    PopKinds(b, x.buffered, image);
    var y := Announce(b, x, image);
    assert y.buffered + [] == y.buffered;
    assert Arrive(x, Nothing) == x;
  }

  lemma Still(b: Build, x: Inbox)
    ensures OnTheWay(b, x.delivered, x.buffered, x.delivered, x.buffered)
  {}

  lemma SettleEnd(b: Build, s: seq<byte>)
    requires DrainFresh(b, s).log == [] && DrainFresh(b, s).outcome.NeedMore?
    ensures DrainFresh(b, s).rest == s
  {}

  lemma FewPackets(b: Build, s: seq<byte>)
    ensures |DrainFresh(b, s).log| <= |s|
  {
    hide Drain, Zeros;
    DrainIsShort(b, s, Zeros(HEADER_SIZE + b.maxData));
  }

  lemma PopKinds(b: Build, s: seq<byte>, image: seq<byte>)
    requires IsImage(b, image)
    ensures var p := PopPacket(b, s, image);
            && p.scan == ScanFrame(b, s)
            && p.rest == if p.scan.Packet? then s[p.scan.length + TAG_SIZE..] else if p.scan.NeedMore? then s else []
  {
    hide ScanFrame;
  }

  class Server {
    const build: Build
    const proto: Sproto
    const inQueue: Queue
    const outQueue: Queue
    var sdp: seq<byte>
    var delivered: seq<Message>
    var written: seq<seq<byte>>
    /** The accepted calls: those that left the queue and those that wait in it. */
    ghost var sent: seq<Message>
    ghost var waiting: seq<Message>
    /** Whether an allocation has failed on the way out. */
    ghost var starved: bool

    ghost predicate QueuesValid()
      reads inQueue, inQueue.item, inQueue.cells, outQueue, outQueue.item, outQueue.cells
      ensures QueuesValid() ==> inQueue.Valid() && outQueue.Valid()
    {
      && inQueue != outQueue && inQueue.item != outQueue.item
      && inQueue.cells !! outQueue.cells
      && inQueue.Valid() && outQueue.Valid()
      && inQueue.minAlloc == outQueue.minAlloc == QUEUE_MIN_ALLOC
      && inQueue.capacity == outQueue.capacity == QUEUE_SIZE
    }

    ghost predicate ProtoValid()
      reads proto, proto.inp, proto.inp.buffer, proto.out
      ensures ProtoValid() ==> proto.inp.Valid() && proto.build == build
    {
      proto.Valid() && proto.build == build && proto.out.dataSize == 0
    }

    ghost function View(): Inbox
      reads `delivered, proto, proto.inp, proto.inp.buffer, proto.out
      reads inQueue, inQueue.item, inQueue.cells, outQueue, outQueue.item, outQueue.cells
      requires ProtoValid() && QueuesValid()
    {
      Inbox(proto.inp.Contents(), delivered, inQueue.Contents())
    }

    /** The accepted calls are the frames written, one write each, followed by the queued packets;
        the output buffer is empty. */
    ghost predicate Valid()
      reads this, proto, proto.inp, proto.inp.buffer, proto.out
      reads inQueue, inQueue.item, inQueue.cells, outQueue, outQueue.item, outQueue.cells
      ensures Valid() ==> ProtoValid() && QueuesValid() && IsImage(build, sdp)
    {
      && OneWritePerFrame(build) && IsImage(build, sdp)
      && ProtoValid() && QueuesValid()
      && Hold(build, outQueue.Contents(), waiting)
      && (!starved ==> OnWire(written, sent))
    }

    constructor (b: Build)
      requires OneWritePerFrame(b)
      ensures Valid() && build == b && written == [] && sent == [] && waiting == [] && !starved
      ensures fresh(proto) && fresh(proto.inp) && fresh(proto.inp.buffer) && fresh(proto.out) && fresh(proto.out.buffer)
      ensures fresh(inQueue) && fresh(inQueue.item) && fresh(outQueue) && fresh(outQueue.item)
      ensures inQueue.cells == {} && outQueue.cells == {}
    {
      build := b;
      proto := new Sproto(b);
      inQueue := new Queue(QUEUE_SIZE, QUEUE_MIN_ALLOC);
      outQueue := new Queue(QUEUE_SIZE, QUEUE_MIN_ALLOC);
      sdp, delivered, written := Zeros(HEADER_SIZE + b.maxData), [], [];
      sent, waiting, starved := [], [], false;
    }

    /** Queues one call: it is accepted exactly when its payload fits, the queue has room and memory
        for the packet can be had. */
    method AsyncCall(allowed: bool, callId: u32, data: seq<byte>, version: Option<byte>, memory: bool)
      returns (rrId: u32)
      requires Valid()
      modifies this`sdp, this`waiting, proto`nextRrId, outQueue, outQueue.item, outQueue.cells
      ensures Valid() && fresh(outQueue.cells - old(outQueue.cells))
      ensures proto.nextRrId ==
              if !allowed then old(proto.nextRrId)
              else if old(proto.nextRrId) == 0xFFFF_FFFF then 1 else old(proto.nextRrId) + 1
      ensures var m := Message(if version.Some? then version.value else proto.version, proto.nextRrId, callId, data);
              var room := allowed && |data| <= build.maxData && |old(waiting)| < outQueue.capacity;
              && rrId == (if room && memory then proto.nextRrId else 0)
              && waiting == if rrId == 0 then old(waiting) else old(waiting) + [m]
    {
      hide OneWritePerFrame, Build.Valid, Header, Zeros, AppendResult, NeededSize, IsImage, QueuesValid, ProtoValid,
           Queue.Valid, Queue.Contents, SprotoBuffer.Valid, Hold, OnWire, PacketImage;
      if !allowed {
        return 0;
      }
      var ok, packet := NewPacket(callId, data, version);
      sdp := packet;
      if !ok {
        return 0;
      }
      ghost var m := Message(if version.Some? then version.value else proto.version, proto.nextRrId, callId, data);
      var queued := Accept(packet, m, memory);
      return if queued then proto.nextRrId else 0;
    }

    /** Calls one after the other: of fewer than 2^32 no two return the same id, and 0 says that a call
        was refused. */
    method CallAll(calls: seq<Call>, memory: seq<bool>) returns (ids: seq<u32>)
      requires Valid() && |calls| == |memory| < U32_MODULUS
      modifies this`sdp, this`waiting, proto`nextRrId, outQueue, outQueue.item, outQueue.cells
      ensures Valid() && fresh(outQueue.cells - old(outQueue.cells)) && |ids| == |calls|
      ensures forall i, j :: 0 <= i < j < |ids| && ids[i] != 0 ==> ids[i] != ids[j]
      ensures old(waiting) <= waiting
      ensures forall m <- waiting[|old(waiting)|..] :: m.rrId != 0 && m.rrId in ids
    {
      hide *;
      ghost var x := proto.nextRrId;
      ghost var places: seq<nat>, last: nat := [], 0;
      ids := [];
      NoneInTurn(x);
      var i := 0;
      while i < |calls|
        invariant 0 <= i == |ids| <= |calls| && Valid() && last <= i
        invariant fresh(outQueue.cells - old(outQueue.cells)) && old(waiting) <= waiting
        invariant forall m <- waiting[|old(waiting)|..] :: m.rrId != 0 && m.rrId in ids
        invariant proto.nextRrId == if last == 0 then x else NthId(x, last)
        invariant InTurn(x, ids, places, last)
      {
        FirstId(x);
        if last > 0 {
          IdBehind(x, last);
        }
        var id := AsyncCall(calls[i].allowed, calls[i].callId, calls[i].data, calls[i].version, memory[i]);
        ghost var now := if calls[i].allowed then last + 1 else last;
        InTurnNext(x, ids, places, last, id, now);
        ids, places, last := ids + [id], places + [now], now;
        i := i + 1;
      }
      IdsInTurnDiffer(x, ids, places, last);
    }

    /** The packet joins those that wait. */
    method Accept(packet: seq<byte>, ghost m: Message, memory: bool) returns (queued: bool)
      requires QueuesValid() && Hold(build, outQueue.Contents(), waiting)
      requires |m.data| <= build.maxData && packet == PacketImage(build, m)
      modifies this`waiting, outQueue, outQueue.item, outQueue.cells
      ensures QueuesValid() && Hold(build, outQueue.Contents(), waiting)
      ensures fresh(outQueue.cells - old(outQueue.cells))
      ensures queued == (memory && |old(waiting)| < outQueue.capacity)
      ensures waiting == old(waiting) + if queued then [m] else []
    {
      hide *;
      ghost var c := outQueue.Contents();
      HoldHead(build, c, waiting);
      queued := QueueSdp(packet, memory);
      if queued {
        HoldPush(build, c, waiting, m);
        waiting := waiting + [m];
      }
    }

    /** Proto.Sproto.NewPacket, with what it leaves alone. */
    method NewPacket(callId: u32, data: seq<byte>, version: Option<byte>) returns (ok: bool, packet: seq<byte>)
      requires ProtoValid()
      modifies proto`nextRrId
      ensures ProtoValid() && IsImage(build, packet)
      ensures proto.nextRrId == if old(proto.nextRrId) == 0xFFFF_FFFF then 1 else old(proto.nextRrId) + 1
      ensures ok == (|data| <= build.maxData)
      ensures var v := if version.Some? then version.value else proto.version;
              ok ==> packet == PacketImage(build, Message(v, proto.nextRrId, callId, data))
    {
      ok, packet := proto.NewPacket(callId, data, version);
    }

    /** srpc_out_queue_push with a queue. */
    method QueueSdp(packet: seq<byte>, memory: bool) returns (queued: bool)
      requires QueuesValid() && IsImage(build, packet)
      modifies outQueue, outQueue.item, outQueue.cells
      ensures QueuesValid() && fresh(outQueue.cells - old(outQueue.cells))
      ensures queued == (memory && |old(outQueue.Contents())| < outQueue.capacity)
      ensures outQueue.Contents() == if queued then old(outQueue.Contents()) + [packet] else old(outQueue.Contents())
    {
      outQueue.NoSpare();
      queued := outQueue.Push(packet, memory);
    }

    /** srpc_out_queue_pop without an id. */
    method NextQueued() returns (ok: bool, packet: seq<byte>)
      requires QueuesValid()
      modifies outQueue, outQueue.item
      ensures QueuesValid() && outQueue.cells == old(outQueue.cells)
      ensures inQueue.Contents() == old(inQueue.Contents())
      ensures ok == (old(outQueue.Contents()) != [])
      ensures if ok then
                packet == old(outQueue.Contents())[0] && outQueue.Contents() == old(outQueue.Contents())[1..]
              else
                outQueue.Contents() == []
    {
      ghost var c := outQueue.Contents();
      ok, packet := outQueue.Pop(0);
      assert c != [] ==> FirstMatch(c, 0) == 0 && Without(c, 0) == c[1..];
    }

    /** srpc_in_queue_push. */
    method QueueReceived(packet: seq<byte>, memory: bool) returns (queued: bool)
      requires QueuesValid() && IsImage(build, packet)
      modifies inQueue, inQueue.item, inQueue.cells
      ensures QueuesValid() && fresh(inQueue.cells - old(inQueue.cells))
      ensures outQueue.Contents() == old(outQueue.Contents())
      ensures queued == (memory && |old(inQueue.Contents())| < inQueue.capacity)
      ensures inQueue.Contents() == if queued then old(inQueue.Contents()) + [packet] else old(inQueue.Contents())
    {
      inQueue.NoSpare();
      queued := inQueue.Push(packet, memory);
    }

    /** Whether data_read gave something to work on, and whether it could be buffered. */
    ghost predicate Readable(read: Read, memory: bool)
      reads proto.inp
    {
      && !read.Closed?
      && (read.Data? ==> AppendResult(build, proto.inp.size, proto.inp.dataSize, |read.bytes|, memory).True?)
    }

    method ReadIn(read: Read, memory: bool) returns (ok: bool)
      requires ProtoValid() && (read.Data? ==> 0 < |read.bytes| <= build.readSize) && OneWritePerFrame(build)
      modifies proto.inp, proto.inp.buffer
      ensures ProtoValid() && (proto.inp.buffer == old(proto.inp.buffer) || fresh(proto.inp.buffer))
      ensures ok == old(Readable(read, memory))
      ensures proto.inp.Contents() ==
              old(proto.inp.Contents()) + if ok && read.Data? then read.bytes else []
    {
      if read.Closed? {
        return false;
      }
      if read.Data? {
        var appended := proto.InAppend(read.bytes, memory);
        return appended == True;
      }
      return true;
    }

    /** The first half of srpc_iterate: a read, then one packet into the queue of received packets.
        The call goes on to the second half unless the connection is closed, the input buffer is
        full, the stream is malformed or the queue is full. */
    method IterateIn(read: Read, memory: bool) returns (proceed: bool)
      requires Valid()
      requires read.Data? ==> 0 < |read.bytes| <= build.readSize
      modifies this`sdp, this`delivered, proto`beginTag, proto.inp, proto.inp.buffer
      modifies inQueue, inQueue.item, inQueue.cells
      ensures Valid() && (proto.inp.buffer == old(proto.inp.buffer) || fresh(proto.inp.buffer))
      ensures fresh(inQueue.cells - old(inQueue.cells))
      ensures outQueue.cells == old(outQueue.cells) && proto.out.buffer == old(proto.out.buffer)
      ensures if !old(Readable(read, memory)) then
                !proceed && View() == old(View()) && sdp == old(sdp)
              else
                var x, room := Arrive(old(View()), read), memory && |old(inQueue.Contents())| < inQueue.capacity;
                && View() == TakeOne(build, x, old(sdp), room) && proceed == GoesOn(build, x.buffered, room)
                && sdp == PopPacket(build, x.buffered, old(sdp)).image
    {
      hide *;
      ValidParts();
      Apart();
      ViewIs();
      var ok := ReadIn(read, memory);
      ViewIs();
      ArriveIs(old(View()), read);
      if !ok {
        ValidAgain();
        return false;
      }
      proceed := TakeIn(memory);
      ValidAgain();
    }

    /** One packet from the input buffer to the queue of received packets and to the application. */
    method TakeIn(memory: bool) returns (proceed: bool)
      requires ProtoValid() && QueuesValid() && IsImage(build, sdp)
      modifies this`sdp, this`delivered, proto`beginTag, proto.inp, proto.inp.buffer
      modifies inQueue, inQueue.item, inQueue.cells
      ensures ProtoValid() && QueuesValid() && IsImage(build, sdp)
      ensures proto.inp.buffer == old(proto.inp.buffer) || fresh(proto.inp.buffer)
      ensures fresh(inQueue.cells - old(inQueue.cells))
      ensures outQueue.Contents() == old(outQueue.Contents())
      ensures var x, room := old(View()), memory && |old(inQueue.Contents())| < inQueue.capacity;
              && View() == TakeOne(build, x, old(sdp), room) && proceed == GoesOn(build, x.buffered, room)
              && sdp == PopPacket(build, x.buffered, old(sdp)).image
    {
      hide IsImage, QueuesValid, ProtoValid, Queue.Contents, Queue.Valid, SprotoBuffer.Contents, SprotoBuffer.Valid,
           PopPacket, ReadImage, ScanFrame, View, TakeOne, GoesOn;
      ViewIs();
      TakeOneIs(build, View(), sdp, memory && |inQueue.Contents()| < inQueue.capacity);
      var packet, queued;
      proceed, packet, queued := TakeAndQueue(sdp, memory);
      sdp, delivered := packet, delivered + if queued then [ReadImage(packet)] else [];
      ViewIs();
    }

    lemma ViewIs()
      requires ProtoValid() && QueuesValid()
      ensures View() == Inbox(proto.inp.Contents(), delivered, inQueue.Contents())
    {}

    /** Both directions have objects of their own. */
    lemma Apart()
      requires ProtoValid() && QueuesValid()
      ensures proto.inp != proto.out && proto.inp.buffer != proto.out.buffer
      ensures inQueue != outQueue && inQueue.item != outQueue.item && inQueue.cells !! outQueue.cells
    {}

    /** One packet from the input buffer to the queue of received packets. */
    method TakeAndQueue(image: seq<byte>, memory: bool) returns (proceed: bool, packet: seq<byte>, queued: bool)
      requires ProtoValid() && QueuesValid() && IsImage(build, image)
      modifies proto`beginTag, proto.inp, proto.inp.buffer, inQueue, inQueue.item, inQueue.cells
      ensures ProtoValid() && QueuesValid() && IsImage(build, packet)
      ensures proto.inp.buffer == old(proto.inp.buffer) || fresh(proto.inp.buffer)
      ensures fresh(inQueue.cells - old(inQueue.cells))
      ensures outQueue.Contents() == old(outQueue.Contents())
      ensures var p := PopPacket(build, old(proto.inp.Contents()), image);
              && proto.inp.Contents() == p.rest && packet == p.image
              && queued == (p.scan.Packet? && proceed)
              && (p.scan.Packet? ==> proceed == (memory && |old(inQueue.Contents())| < inQueue.capacity))
              && (!p.scan.Packet? ==> proceed == p.scan.NeedMore?)
      ensures inQueue.Contents() == old(inQueue.Contents()) + if queued then [packet] else []
    {
      hide QueuesValid, ProtoValid, PopPacket, Queue.Valid, Queue.Contents, SprotoBuffer.Valid, IsImage,
           OneWritePerFrame, Build.Valid, ScanFrame;
      queued := false;
      var result;
      result, packet := TakePacket(image);
      if result == True {
        queued := QueueReceived(packet, memory);
        return queued, packet, queued;
      }
      return result == False, packet, queued;
    }

    /** Proto.Sproto.PopInSdp, with what it leaves alone. */
    method TakePacket(packet: seq<byte>) returns (result: Result, filled: seq<byte>)
      requires ProtoValid() && IsImage(build, packet)
      modifies proto`beginTag, proto.inp, proto.inp.buffer
      ensures ProtoValid() && (proto.inp.buffer == old(proto.inp.buffer) || fresh(proto.inp.buffer))
      ensures var p := PopPacket(build, old(proto.inp.Contents()), packet);
              && proto.inp.Contents() == p.rest && filled == p.image && result == ResultOfScan(p.scan)
    {
      hide PopPacket;
      var memory: bool := *;
      result, filled := proto.PopInSdp(packet, memory);
    }

    /** Packet and tag through the (empty) output buffer to the network. */
    method Transmit(packet: seq<byte>, ghost m: Message, memory: bool) returns (data: seq<byte>)
      requires ProtoValid() && OneWritePerFrame(build)
      requires |m.data| <= build.maxData && packet == PacketImage(build, m)
      modifies proto.out, proto.out.buffer
      ensures ProtoValid()
      ensures proto.out.buffer == old(proto.out.buffer) || fresh(proto.out.buffer)
      ensures memory ==> data == Frame(m) && data != []
    {
      Buffer(packet, m, memory);
      hide Frame, Sproto.Valid;
      var memoryToShrink: bool := *;
      data := proto.PopOutData(build.readSize, memoryToShrink);
    }

    method Buffer(packet: seq<byte>, ghost m: Message, memory: bool)
      requires ProtoValid() && OneWritePerFrame(build)
      requires |m.data| <= build.maxData && packet == PacketImage(build, m)
      modifies proto.out, proto.out.buffer
      ensures proto.Valid() && proto.build == build && proto.out.dataSize <= build.readSize
      ensures proto.out.buffer == old(proto.out.buffer) || fresh(proto.out.buffer)
      ensures memory ==> proto.out.Contents() == Frame(m)
    {
      PacketImageFields(build, m);
      hide Header, PacketImage, DataSizeField;
      assert IsImage(build, packet);
      assert Frame(m) == [] + packet[..HEADER_SIZE + |m.data|] + TAG;
      var memoryForTag: bool := *;
      var result := proto.OutAppend(packet, memory, memory || memoryForTag);
    }

    /** The second half of srpc_iterate: nothing, or exactly one whole frame, in one write. */
    method IterateOut(memory: bool)
      requires Valid()
      modifies this`sdp, this`written, this`sent, this`waiting, this`starved
      modifies proto.out, proto.out.buffer, outQueue, outQueue.item
      ensures Valid() && outQueue.cells == old(outQueue.cells)
      ensures starved == (old(starved) || (!memory && old(waiting) != []))
      ensures View() == old(View())
      ensures proto.inp.buffer == old(proto.inp.buffer)
      ensures proto.out.buffer == old(proto.out.buffer) || fresh(proto.out.buffer)
      ensures if old(waiting) == [] then
                waiting == [] && sent == old(sent) && written == old(written)
              else
                && waiting == old(waiting)[1..] && sent == old(sent) + [old(waiting)[0]]
                && (!starved ==> written == old(written) + [Frame(old(waiting)[0])])
    {
      hide *;
      ValidParts();
      var ok, packet, data := TransmitNext(waiting, memory);
      if ok {
        OnWirePush(written, sent, waiting[0], data, starved, memory);
        if |data| != 0 {
          written := written + [data];
        }
        sdp, starved, sent, waiting := packet, starved || !memory, sent + [waiting[0]], waiting[1..];
      }
      ValidAgain();
    }

    method TransmitNext(ghost queued: seq<Message>, memory: bool)
      returns (ok: bool, packet: seq<byte>, data: seq<byte>)
      requires ProtoValid() && QueuesValid() && OneWritePerFrame(build) && Hold(build, outQueue.Contents(), queued)
      modifies proto.out, proto.out.buffer, outQueue, outQueue.item
      ensures ProtoValid() && QueuesValid() && outQueue.cells == old(outQueue.cells)
      ensures View() == old(View()) && proto.inp.buffer == old(proto.inp.buffer)
      ensures proto.out.buffer == old(proto.out.buffer) || fresh(proto.out.buffer)
      ensures ok == (queued != [])
      ensures if ok then
                && Hold(build, outQueue.Contents(), queued[1..]) && IsImage(build, packet)
                && (memory ==> data == Frame(queued[0]) && data != [])
              else
                Hold(build, outQueue.Contents(), queued)
    {
      hide *;
      Apart();
      ViewIs();
      HoldHead(build, outQueue.Contents(), queued);
      ok, packet := NextQueued();
      data := [];
      if ok {
        data := Transmit(packet, queued[0], memory);
      }
      ViewIs();
    }

    /** srpc_iterate. */
    method Iterate(read: Read, memory: bool, memoryOut: bool) returns (r: bool)
      requires Valid()
      requires read.Data? ==> 0 < |read.bytes| <= build.readSize
      modifies this, proto`beginTag, proto.inp, proto.inp.buffer, proto.out, proto.out.buffer
      modifies inQueue, inQueue.item, inQueue.cells, outQueue, outQueue.item
      ensures Valid() && sent + waiting == old(sent) + old(waiting)
      ensures memoryOut ==> starved == old(starved)
      ensures !r || old(waiting) == [] ==> written == old(written) && waiting == old(waiting)
      ensures r && old(waiting) != [] && !starved ==>
                written == old(written) + [Frame(old(waiting)[0])] && waiting == old(waiting)[1..]
      ensures proto.inp.buffer == old(proto.inp.buffer) || fresh(proto.inp.buffer)
      ensures proto.out.buffer == old(proto.out.buffer) || fresh(proto.out.buffer)
      ensures fresh(inQueue.cells - old(inQueue.cells)) && outQueue.cells == old(outQueue.cells)
      ensures if !old(Readable(read, memory)) then
                !r && View() == old(View())
              else
                var x, room := Arrive(old(View()), read), memory && |old(inQueue.Contents())| < inQueue.capacity;
                View() == TakeOne(build, x, old(sdp), room) && r == GoesOn(build, x.buffered, room)
    {
      hide *;
      ValidParts();
      r := IterateIn(read, memory);
      if r {
        IterateOut(memoryOut);
      }
    }

    /** srpc_in_queue_pop: the application asks for the packet with an id. */
    method Take(rrId: u32) returns (ok: bool, packet: seq<byte>)
      requires Valid()
      modifies inQueue, inQueue.item
      ensures Valid() && inQueue.cells == old(inQueue.cells)
      ensures var c := old(inQueue.Contents());
              var k := FirstMatch(c, rrId);
              && ok == (k < |c|) && (ok ==> packet == c[k])
              && View() == old(View()).(queued := Without(c, k)) && inQueue.Contents() == Without(c, k)
      ensures var c := old(inQueue.Contents());
              && (rrId == 0 ==> ok == (c != []))
              && (rrId != 0 ==> ok == exists p <- c :: ReadImage(p).rrId == rrId)
              && (ok ==> exists k :: 0 <= k < |c| && Taken(c, rrId, k, packet, inQueue.Contents()))
              && (!ok ==> inQueue.Contents() == c)
    {
      hide *;
      TakenIs(inQueue.Contents(), rrId);
      ValidParts();
      Apart();
      ViewIs();
      ok, packet := TakeQueued(rrId);
      ViewIs();
      ValidAgain();
    }

    method TakeQueued(rrId: u32) returns (ok: bool, packet: seq<byte>)
      requires QueuesValid()
      modifies inQueue, inQueue.item
      ensures QueuesValid() && inQueue.cells == old(inQueue.cells)
      ensures outQueue.Contents() == old(outQueue.Contents())
      ensures var c := old(inQueue.Contents());
              var k := FirstMatch(c, rrId);
              && ok == (k < |c|) && (ok ==> packet == c[k])
              && inQueue.Contents() == Without(c, k)
    {
      ok, packet := inQueue.Pop(rrId);
    }

    /** One iteration with memory, and the application takes the packet announced to it. */
    method IterateAndTake(read: Read) returns (r: bool)
      requires Valid() && inQueue.Contents() == []
      requires read.Data? ==> 0 < |read.bytes| <= build.readSize
      modifies this, proto`beginTag, proto.inp, proto.inp.buffer, proto.out, proto.out.buffer
      modifies inQueue, inQueue.item, inQueue.cells, outQueue, outQueue.item
      ensures Valid() && inQueue.Contents() == []
      ensures proto.inp.buffer == old(proto.inp.buffer) || fresh(proto.inp.buffer)
      ensures proto.out.buffer == old(proto.out.buffer) || fresh(proto.out.buffer)
      ensures fresh(inQueue.cells - old(inQueue.cells)) && outQueue.cells == old(outQueue.cells)
      ensures if Refused(build, old(View()).buffered, read) then
                !r && View() == old(View())
              else
                var x := Arrive(old(View()), read);
                View() == Announce(build, x, old(sdp)) && r == GoesOn(build, x.buffered, true)
    {
      hide *;
      ValidParts();
      ViewIs();
      ReadableIff(read);
      ArriveIs(View(), read);
      AnnounceIs(build, Arrive(View(), read), sdp);
      var memoryOut: bool := *;
      var before := |delivered|;
      r := Iterate(read, true, memoryOut);
      ValidParts();
      ViewIs();
      if |delivered| > before {
        var ok, packet := Take(delivered[|delivered| - 1].rrId);
        ValidParts();
      }
    }

    /** The reads of one connection. The packets announced to the application and those still in the
        buffered bytes are the packets of all bytes taken; the run ends early only with a closed
        connection, a full buffer or the first error of the stream, all packets before it announced. */
    method ReceiveRun(rs: seq<Read>) returns (r: bool, ghost n: nat)
      requires Valid() && inQueue.Contents() == []
      requires forall x <- rs :: x.Data? ==> 0 < |x.bytes| <= build.readSize
      requires NoWrap(build, View().buffered + AllBytes(rs))
      modifies this, proto`beginTag, proto.inp, proto.inp.buffer, proto.out, proto.out.buffer
      modifies inQueue, inQueue.item, inQueue.cells, outQueue, outQueue.item
      ensures Valid() && inQueue.Contents() == [] && n <= |rs| && (r ==> n == |rs|)
      ensures proto.inp.buffer == old(proto.inp.buffer) || fresh(proto.inp.buffer)
      ensures proto.out.buffer == old(proto.out.buffer) || fresh(proto.out.buffer)
      ensures fresh(inQueue.cells - old(inQueue.cells)) && outQueue.cells == old(outQueue.cells)
      ensures r ==> NoWrap(build, View().buffered)
      ensures var all := old(View()).buffered + AllBytes(rs[..n]);
              var d := DrainFresh(build, all);
              var x := View();
              || (OnTheWay(build, old(delivered), all, x.delivered, x.buffered)
                  && (!r ==> n < |rs| && Refused(build, x.buffered, rs[n])))
              || (!r && x.delivered == old(delivered) + d.log && x.buffered == [] && !d.outcome.NeedMore?)
    {
      hide *;
      ghost var log, c := delivered, View().buffered;
      ValidParts();
      ViewIs();
      StartOnTheWay(build, log, c, rs);
      r, n := true, 0;
      var i := 0;
      while i < |rs| && r
        invariant Valid() && inQueue.Contents() == [] && n <= i <= |rs| && (r ==> n == i)
        invariant proto.inp.buffer == old(proto.inp.buffer) || fresh(proto.inp.buffer)
        invariant proto.out.buffer == old(proto.out.buffer) || fresh(proto.out.buffer)
        invariant fresh(inQueue.cells - old(inQueue.cells)) && outQueue.cells == old(outQueue.cells)
        invariant r ==> NoWrap(build, View().buffered + AllBytes(rs[n..]))
        invariant var d := DrainFresh(build, c + AllBytes(rs[..n]));
                  || (OnTheWay(build, log, c + AllBytes(rs[..n]), View().delivered, View().buffered)
                      && (!r ==> n < |rs| && Refused(build, View().buffered, rs[n])))
                  || (!r && View().delivered == log + d.log && View().buffered == [] && !d.outcome.NeedMore?)
        decreases |rs| - i
      {
        ValidParts();
        ghost var x, image := View(), sdp;
        r := IterateAndTake(rs[i]);
        ValidParts();
        if !Refused(build, x.buffered, rs[i]) {
          AllBytesAt(c, rs, i);
          NoWrapPrefix(build, c + AllBytes(rs[..i + 1]), AllBytes(rs[i + 1..]));
          StepOnTheWay(build, log, c + AllBytes(rs[..i]), x, image, rs[i], AllBytes(rs[i + 1..]));
          n := n + 1;
        }
        i := i + 1;
      }
      ViewIs();
      if r {
        NoWrapPrefix(build, View().buffered, AllBytes(rs[n..]));
      }
    }

    /** Iterations with nothing to read, until every packet buffered is announced. */
    method Settle()
      requires Valid() && inQueue.Contents() == []
      requires NoWrap(build, View().buffered) && DrainFresh(build, View().buffered).outcome.NeedMore?
      modifies this, proto`beginTag, proto.inp, proto.inp.buffer, proto.out, proto.out.buffer
      modifies inQueue, inQueue.item, inQueue.cells, outQueue, outQueue.item
      ensures Valid() && inQueue.Contents() == []
      ensures var d := DrainFresh(build, old(View()).buffered);
              View().delivered == old(delivered) + d.log && View().buffered == d.rest
    {
      hide *;
      ViewIs();
      ghost var d := DrainFresh(build, View().buffered);
      ghost var log := delivered;
      FewPackets(build, View().buffered);
      BufferedIs();
      var count := proto.inp.dataSize;
      var i := 0;
      while i < count
        invariant Valid() && inQueue.Contents() == [] && 0 <= i <= count
        invariant proto.inp.buffer == old(proto.inp.buffer) || fresh(proto.inp.buffer)
        invariant proto.out.buffer == old(proto.out.buffer) || fresh(proto.out.buffer)
        invariant fresh(inQueue.cells - old(inQueue.cells)) && outQueue.cells == old(outQueue.cells)
        invariant NoWrap(build, View().buffered)
        invariant var e := DrainFresh(build, View().buffered);
                  && log + d.log == View().delivered + e.log && d.rest == e.rest && d.outcome == e.outcome
                  && (e.log == [] || |e.log| + i <= count)
      {
        ValidParts();
        ReadableIff(Nothing);
        NothingIsReadable();
        SettleStep(build, View(), sdp);
        var r := IterateAndTake(Nothing);
        i := i + 1;
      }
      SettleEnd(build, View().buffered);
    }

    lemma BufferedIs()
      requires ProtoValid() && QueuesValid()
      ensures |View().buffered| == proto.inp.dataSize
    {}

    lemma NothingIsReadable()
      requires ProtoValid() && QueuesValid()
      ensures Readable(Nothing, true)
    {}

    lemma ReadableIff(read: Read)
      requires OneWritePerFrame(build) && ProtoValid() && QueuesValid()
      ensures Readable(read, true) <==> !Refused(build, View().buffered, read)
      ensures 0 < inQueue.capacity
    {}

    lemma ValidParts()
      requires Valid()
      ensures OneWritePerFrame(build) && IsImage(build, sdp) && ProtoValid() && QueuesValid()
      ensures Hold(build, outQueue.Contents(), waiting) && (!starved ==> OnWire(written, sent))
    {}

    lemma ValidAgain()
      requires OneWritePerFrame(build) && IsImage(build, sdp) && ProtoValid() && QueuesValid()
      requires Hold(build, outQueue.Contents(), waiting) && (!starved ==> OnWire(written, sent))
      ensures Valid()
    {}
  }

  /** Over any run, the bytes on the network are the frames of the calls accepted first, and the
      rest of the accepted calls wait in the queue. */
  lemma {:induction false} WireIsFrames(written: seq<seq<byte>>, sent: seq<Message>)
    requires OnWire(written, sent)
    ensures Concat(written) == Frames(sent)
    decreases |written|
  {
    if written != [] {
      var n := |written| - 1;
      WireIsFrames(written[..n], sent[..n]);
      AppendFrame(written[..n], sent[..n], sent[n]);
      assert written == written[..n] + [written[n]];
      assert sent == sent[..n] + [sent[n]];
    }
  }

  /** The whole path: what a server has written, cut into any reads there, a device build delivers as
      exactly the accepted calls that left, in order. */
  lemma ServerToDevice(written: seq<seq<byte>>, sent: seq<Message>, image: seq<byte>, chunks: seq<seq<byte>>)
    requires OnWire(written, sent) && IsImage(DEVICE, image)
    requires forall m <- sent :: Sendable(DEVICE, m)
    requires Concat(chunks) == Concat(written)
    ensures var d := Receive(DEVICE, [], image, chunks); d.log == sent && d.rest == [] && d.outcome.NeedMore?
  {
    WireIsFrames(written, sent);
    EndToEnd(DEVICE, sent, image, chunks);
  }

  /** The same for the objects, after whatever calls brought the server to where it is. */
  method DeliverAll(server: Server, device: Srpc, chunks: seq<seq<byte>>)
    requires server.Valid() && !server.starved
    requires device.Valid() && device.build == DEVICE && device.proto.inp.Contents() == []
    requires forall m <- server.sent :: Sendable(DEVICE, m)
    requires Concat(chunks) == Concat(server.written)
    requires forall c <- chunks :: 0 < |c| <= DEVICE.readSize
    modifies device`sdp, device`delivered, device.proto`beginTag, device.proto.inp, device.proto.inp.buffer
    ensures device.Valid() && device.proto.inp.Contents() == []
    ensures device.delivered == old(device.delivered) + server.sent
  {
    ServerToDevice(server.written, server.sent, device.sdp, chunks);
    DeviceDrainFits();
    hide *;
    var ok := device.ReceiveAll(chunks);
  }

  /** The way back: what a device has written reaches a server in any reads. When none of them is
      refused, the application of the server is told of exactly the calls of the device, in order. */
  method DeliverBack(device: Srpc, server: Server, rs: seq<Read>) returns (r: bool, ghost n: nat)
    requires device.Valid() && forall m <- device.sent :: Sendable(server.build, m)
    requires server.Valid() && server.inQueue.Contents() == [] && server.View().buffered == []
    requires AllBytes(rs) == Concat(device.written)
    requires forall x <- rs :: x.Data? ==> 0 < |x.bytes| <= server.build.readSize
    modifies server, server.proto`beginTag, server.proto.inp, server.proto.inp.buffer, server.proto.out
    modifies server.proto.out.buffer, server.inQueue, server.inQueue.item, server.inQueue.cells
    modifies server.outQueue, server.outQueue.item
    ensures server.Valid()
    ensures r ==> server.delivered == old(server.delivered) + old(device.sent) && server.View().buffered == []
    ensures !r ==> n < |rs| && Refused(server.build, server.View().buffered, rs[n])
  {
    hide *;
    ghost var ms, b, log := device.sent, server.build, server.delivered;
    SentIsWritten(device);
    server.ViewIs();
    PrefixesOf(b, ms, rs);
    r, n := server.ReceiveRun(rs);
    server.ViewIs();
    if r {
      OnTheWayIs(b, log, [] + AllBytes(rs[..n]), server.delivered, server.View().buffered);
      server.Settle();
      server.ViewIs();
    }
  }

  lemma SentIsWritten(device: Srpc)
    requires device.Valid()
    ensures Concat(device.written) == Frames(device.sent)
  {}

  /** What a connection has carried of a stream of frames. */
  lemma PrefixesOf(b: Build, ms: seq<Message>, rs: seq<Read>)
    requires AllBytes(rs) == Frames(ms) && forall m <- ms :: Sendable(b, m)
    ensures NoWrap(b, [] + AllBytes(rs))
    ensures forall n :: 0 <= n <= |rs| ==> DrainFresh(b, [] + AllBytes(rs[..n])).outcome.NeedMore?
    ensures DrainFresh(b, [] + AllBytes(rs[..|rs|])).log == ms && DrainFresh(b, [] + AllBytes(rs[..|rs|])).rest == []
  {
    hide DrainFresh, NoWrap, AllBytes;
    FramesDoNotWrap(b, ms);
    assert [] + AllBytes(rs) == AllBytes(rs) && rs[..|rs|] == rs;
    forall n | 0 <= n <= |rs| ensures DrainFresh(b, [] + AllBytes(rs[..n])).outcome.NeedMore? {
      AllBytesSplit(rs, n);
      assert [] + AllBytes(rs[..n]) == AllBytes(rs[..n]);
      FramesPrefix(b, ms, AllBytes(rs[..n]), AllBytes(rs[n..]));
    }
    FramesPrefix(b, ms, AllBytes(rs), []);
    assert AllBytes(rs) + [] == AllBytes(rs);
  }

  lemma OnTheWayIs(b: Build, log: seq<Message>, all: seq<byte>, delivered: seq<Message>, s: seq<byte>)
    requires OnTheWay(b, log, all, delivered, s)
    ensures var d, e := DrainFresh(b, all), DrainFresh(b, s);
            log + d.log == delivered + e.log && d.rest == e.rest && d.outcome == e.outcome
  {}
}

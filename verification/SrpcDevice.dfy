/**
 The remote-call object of srpc.c as the device build compiles it: no packet queues, calls go
 straight to data_write, and every read is drained at once.

 The callbacks are traces: "written" holds one entry for each call of data_write, "delivered" one
 for each call of on_remote_call_received.
 */
module SrpcDevice {
  import opened Common
  import opened FrameCodec
  import opened Proto

  /** What data_read reports: 0, a negative number, or some bytes. */
  datatype Read = Closed | Nothing | Data(bytes: seq<byte>)

  /** One read on top of an incomplete frame always fits the input buffer. */
  ghost predicate DrainFits(b: Build) {
    HEADER_SIZE + b.maxData + TAG_SIZE - 1 + b.readSize < b.bufferMax
  }

  /** The sizes of the device build leave room: 622 + 1024 < 2048. */
  lemma DeviceDrainFits()
    ensures DEVICE.Valid() && DrainFits(DEVICE)
    ensures HEADER_SIZE + DEVICE.maxData + TAG_SIZE - 1 == 622
  {}

  class Srpc {
    const build: Build
    const proto: Sproto
    var sdp: seq<byte>
    var delivered: seq<Message>
    var written: seq<seq<byte>>
    ghost var sent: seq<Message>

    /** Between calls the input buffer holds an incomplete frame at most, and what was written is
        the frames of the accepted calls in the order of acceptance. */
    ghost predicate Valid()
      reads this, proto, proto.inp, proto.inp.buffer, proto.out
    {
      && proto.Valid() && proto.build == build
      && IsImage(build, sdp)
      && ScanFrame(build, proto.inp.Contents()).NeedMore?
      && Concat(written) == Frames(sent)
      && forall m <- sent :: |m.data| <= build.maxData
    }

    constructor (b: Build)
      requires b.Valid()
      ensures Valid() && build == b && fresh(proto) && fresh(proto.inp) && fresh(proto.inp.buffer)
      ensures proto.inp.Contents() == [] && delivered == [] && written == [] && sent == []
    {
      build := b;
      proto := new Sproto(b);
      sdp, delivered, written, sent := Zeros(HEADER_SIZE + b.maxData), [], [], [];
    }

    /** Sends one call; "allowed" is the verdict of srpc_call_allowed on the call id. The packet is
        lost, though the id is returned, when the copy to send cannot be allocated. */
    method AsyncCall(allowed: bool, callId: u32, data: seq<byte>, version: Option<byte>, memory: bool)
      returns (rrId: u32)
      requires Valid()
      modifies this`sdp, this`written, this`sent, proto`nextRrId
      ensures Valid()
      ensures var m := Message(if version.Some? then version.value else proto.version, proto.nextRrId, callId, data);
              if !allowed then
                rrId == 0 && proto.nextRrId == old(proto.nextRrId) && sent == old(sent) && written == old(written)
              else
                && proto.nextRrId == (if old(proto.nextRrId) == 0xFFFF_FFFF then 1 else old(proto.nextRrId) + 1)
                && rrId == (if |data| <= build.maxData then proto.nextRrId else 0)
                && if |data| <= build.maxData && memory then
                     sent == old(sent) + [m] && written == old(written) + [Frame(m)]
                   else
                     sent == old(sent) && written == old(written)
    {
      if !allowed {
        return 0;
      }
      var ok;
      ok, sdp := proto.NewPacket(callId, data, version);
      if !ok {
        return 0;
      }
      OutQueuePush(Message(if version.Some? then version.value else proto.version, proto.nextRrId, callId, data),
                   memory);
      return proto.nextRrId;
    }

    /** Calls one after the other: of fewer than 2^32 no two return the same id, and 0 says that a call
        was refused. */
    method CallAll(calls: seq<Call>, memory: seq<bool>) returns (ids: seq<u32>)
      requires Valid() && |calls| == |memory| < U32_MODULUS
      modifies this`sdp, this`written, this`sent, proto`nextRrId
      ensures Valid() && |ids| == |calls|
      ensures forall i :: 0 <= i < |ids| ==> (ids[i] != 0 <==> calls[i].allowed && |calls[i].data| <= build.maxData)
      ensures forall i, j :: 0 <= i < j < |ids| && ids[i] != 0 ==> ids[i] != ids[j]
    {
      hide Valid, InTurn;
      ghost var x := proto.nextRrId;
      ghost var places: seq<nat>, last: nat := [], 0;
      ids := [];
      NoneInTurn(x);
      var i := 0;
      while i < |calls|
        invariant 0 <= i == |ids| <= |calls| && Valid() && last <= i
        invariant proto.nextRrId == if last == 0 then x else NthId(x, last)
        invariant InTurn(x, ids, places, last)
        invariant forall j :: 0 <= j < i ==> (ids[j] != 0 <==> calls[j].allowed && |calls[j].data| <= build.maxData)
      {
        FirstId(x);
        if last > 0 {
          IdBehind(x, last);
        }
        var id := AsyncCall(calls[i].allowed, calls[i].callId, calls[i].data, calls[i].version, memory[i]);
        ghost var now := if calls[i].allowed then last + 1 else last;
        InTurnNext(x, ids, places, last, id, now);
        ids, places, last := ids + [id], places + [now], now;
        i := i + 1;
      }
      IdsInTurnDiffer(x, ids, places, last);
    }

    /** srpc_out_queue_push without a queue: packet and tag leave in one write. */
    method OutQueuePush(ghost m: Message, memory: bool)
      requires Valid() && |m.data| <= build.maxData && sdp == PacketImage(build, m)
      modifies this`written, this`sent
      ensures Valid()
      ensures sent == old(sent) + (if memory then [m] else [])
      ensures written == old(written) + (if memory then [Frame(m)] else [])
    {
      PacketImageFields(build, m);
      var dataSize := HEADER_SIZE + build.maxData;
      if DataSizeField(sdp) < build.maxData {
        dataSize := dataSize - (build.maxData - DataSizeField(sdp));
      }
      if memory {
        AppendFrame(written, sent, m);
        written := written + [sdp[..dataSize] + TAG];
        sent := sent + [m];
      }
    }

    /** One call of srpc_iterate_device: at most one read, then packets are taken out and handed on
        until none is complete. The buffer never overflows: without memory trouble the call is
        exactly Drain on the buffered bytes followed by the bytes read. */
    method IterateDevice(read: Read, memory: bool) returns (r: bool)
      requires Valid() && DrainFits(build)
      requires read.Data? ==> 0 < |read.bytes| <= build.readSize
      modifies this`sdp, this`delivered, proto`beginTag, proto.inp, proto.inp.buffer
      ensures Valid() && (proto.inp.buffer == old(proto.inp.buffer) || fresh(proto.inp.buffer))
      ensures !read.Data? ==>
                && r == read.Nothing? && delivered == old(delivered) && sdp == old(sdp)
                && proto.inp.Contents() == old(proto.inp.Contents())
      ensures read.Data? ==>
                var appended := AppendResult(build, old(proto.inp.size), old(proto.inp.dataSize), |read.bytes|, memory);
                && !appended.BufferOverflow?
                && if appended.True? then
                     var d := Drain(build, old(proto.inp.Contents()) + read.bytes, old(sdp));
                     && delivered == old(delivered) + d.log
                     && proto.inp.Contents() == d.rest
                     && sdp == d.image
                     && r == d.outcome.NeedMore?
                   else
                     && !memory && !r && delivered == old(delivered) && sdp == old(sdp)
                     && proto.inp.Contents() == old(proto.inp.Contents())
    {
      if !read.Data? {
        return read.Nothing?;
      }
      ResidualBound(build, proto.inp.Contents());
      var appended := proto.InAppend(read.bytes, memory);
      if appended != True {
        return false;
      }
      r := HandOverPackets();
    }

    /** The reads of one connection, one iteration each, until one fails: the application sees what
        Receive says, and with it, by EndToEnd, the messages sent. */
    method ReceiveAll(chunks: seq<seq<byte>>) returns (r: bool)
      requires Valid() && DrainFits(build)
      requires forall c <- chunks :: 0 < |c| <= build.readSize
      modifies this`sdp, this`delivered, proto`beginTag, proto.inp, proto.inp.buffer
      ensures Valid() && (proto.inp.buffer == old(proto.inp.buffer) || fresh(proto.inp.buffer))
      ensures var d := Receive(build, old(proto.inp.Contents()), old(sdp), chunks);
              && delivered == old(delivered) + d.log
              && proto.inp.Contents() == d.rest && sdp == d.image && r == d.outcome.NeedMore?
    {
      hide Drain, Receive, ScanFrame, AppendResult;
      ghost var whole := Prepend(delivered, Receive(build, proto.inp.Contents(), sdp, chunks));
      r := true;
      var i := 0;
      while i < |chunks| && r
        invariant 0 <= i <= |chunks| && Valid()
        invariant proto.inp.buffer == old(proto.inp.buffer) || fresh(proto.inp.buffer)
        invariant r ==> Prepend(delivered, Receive(build, proto.inp.Contents(), sdp, chunks[i..])) == whole
        invariant !r ==>
                    && !whole.outcome.NeedMore?
                    && Drained(delivered, proto.inp.Contents(), sdp, whole.outcome) == whole
      {
        ReceiveStep(build, delivered, proto.inp.Contents(), sdp, chunks[i..]);
        assert chunks[i..][0] == chunks[i] && chunks[i..][1..] == chunks[i + 1..];
        r := IterateDevice(Data(chunks[i]), true);
        i := i + 1;
      }
      if r {
        ReceiveNothing(build, delivered, proto.inp.Contents(), sdp);
        assert chunks[i..] == [];
      }
    }

    /** The inner loop: repeat while there are complete packets in the input buffer. */
    method HandOverPackets() returns (r: bool)
      requires proto.Valid() && proto.build == build && IsImage(build, sdp)
      modifies this`sdp, this`delivered, proto`beginTag, proto.inp, proto.inp.buffer
      ensures proto.Valid() && IsImage(build, sdp)
      ensures proto.inp.buffer == old(proto.inp.buffer) || fresh(proto.inp.buffer)
      ensures var d := Drain(build, old(proto.inp.Contents()), old(sdp));
              && delivered == old(delivered) + d.log
              && proto.inp.Contents() == d.rest
              && sdp == d.image
              && r == d.outcome.NeedMore?
    {
      ghost var start := DrainedTo(delivered, build, proto.inp.Contents(), sdp);
      DrainedToStep(delivered, build, proto.inp.Contents(), sdp);
      var result := HandOverPacket();
      while result == True
        invariant proto.Valid() && IsImage(build, sdp)
        invariant proto.inp.buffer == old(proto.inp.buffer) || fresh(proto.inp.buffer)
        invariant result.True? ==> DrainedTo(delivered, build, proto.inp.Contents(), sdp) == start
        invariant !result.True? ==>
                    Drained(delivered, proto.inp.Contents(), sdp, start.outcome) == start
                    && ResultOfScan(start.outcome) == result
        decreases result.True?, |proto.inp.Contents()|
      {
        DrainedToStep(delivered, build, proto.inp.Contents(), sdp);
        result := HandOverPacket();
      }
      return result == False;
    }

    /** Takes one packet out of the input buffer and calls the application with it. */
    method HandOverPacket() returns (result: Result)
      requires proto.Valid() && proto.build == build && IsImage(build, sdp)
      modifies this`sdp, this`delivered, proto`beginTag, proto.inp, proto.inp.buffer
      ensures proto.Valid() && IsImage(build, sdp)
      ensures proto.inp.buffer == old(proto.inp.buffer) || fresh(proto.inp.buffer)
      ensures var p := PopPacket(build, old(proto.inp.Contents()), old(sdp));
              && proto.inp.Contents() == p.rest && sdp == p.image && result == ResultOfScan(p.scan)
              && delivered == old(delivered) + if p.scan.Packet? then [ReadImage(sdp)] else []
    {
      var memory: bool := *;
      result, sdp := proto.PopInSdp(sdp, memory);
      if result == True {
        delivered := delivered + [ReadImage(sdp)];
      }
    }
  }

  lemma ReceiveNothing(b: Build, log: seq<Message>, s: seq<byte>, image: seq<byte>)
    requires IsImage(b, image)
    ensures Prepend(log, Receive(b, s, image, [])) == Drained(log, s, image, NeedMore)
  {
    assert log + [] == log;
  }

  /** All that will have been delivered once the buffer is drained, and what is left then. */
  ghost function DrainedTo(delivered: seq<Message>, b: Build, s: seq<byte>, image: seq<byte>): Drained
    requires IsImage(b, image)
  {
    Prepend(delivered, Drain(b, s, image))
  }

  lemma DrainedToStep(delivered: seq<Message>, b: Build, s: seq<byte>, image: seq<byte>)
    requires IsImage(b, image)
    ensures var p := PopPacket(b, s, image);
            DrainedTo(delivered, b, s, image) ==
            if p.scan.Packet? then DrainedTo(delivered + [ReadImage(p.image)], b, p.rest, p.image)
            else Drained(delivered, p.rest, p.image, p.scan)
  {
    var p := PopPacket(b, s, image);
    if p.scan.Packet? {
      PrependTwice(delivered, [ReadImage(p.image)], Drain(b, p.rest, p.image));
    } else {
      assert delivered + [] == delivered;
    }
  }

  lemma AppendFrame(written: seq<seq<byte>>, sent: seq<Message>, m: Message)
    requires Concat(written) == Frames(sent)
    ensures Concat(written + [Frame(m)]) == Frames(sent + [m])
  {
    ConcatAppend(written, [Frame(m)]);
    FramesAppend(sent, [m]);
    assert Concat([Frame(m)]) == Frame(m) + [] == Frames([m]);
  }
}

/**
 The protocol object of proto.c: an input and an output buffer that grow by reallocation and are
 shifted down and shrunk in place, the tag flag of the input side and the request id counter.

 Whether an allocation succeeds is a parameter ("memory") of every operation that may allocate.
 */
module Proto {
  import opened Common
  import opened FrameCodec

  datatype Result = True | False | BufferOverflow | DataTooLarge | DataError | VersionError

  function ResultOfScan(scan: Scan): (r: Result)
    ensures r.True? <==> scan.Packet?
    ensures r.False? <==> scan.NeedMore?
    ensures r.VersionError? <==> scan.VersionError?
    ensures r.DataError? <==> scan.DataError?
  {
    match scan
    case NeedMore => False
    case DataError => Result.DataError
    case VersionError(_) => Result.VersionError
    case Packet(_) => True
  }

  /** The size the buffer must have to take n more bytes: never smaller than it is or than the
      minimum of the build. */
  function NeededSize(build: Build, size: nat, dataSize: nat, n: nat): nat {
    Max(Max(size, build.bufferMin), dataSize + n)
  }

  function AppendResult(build: Build, size: nat, dataSize: nat, n: nat, memory: bool): Result {
    var needed := NeededSize(build, size, dataSize, n);
    if needed >= build.bufferMax then BufferOverflow
    else if needed != size && !memory then False
    else True
  }

  /** Allocates n bytes and keeps what fits of the old block. */
  method Realloc(block: array<byte>, n: nat) returns (r: array<byte>)
    ensures fresh(r) && r.Length == n
    ensures forall i :: 0 <= i < n && i < block.Length ==> r[i] == block[i]
  {
    r := new byte[n](_ => 0);
    forall i | 0 <= i < n && i < block.Length {
      r[i] := block[i];
    }
  }

  class SprotoBuffer {
    const build: Build
    var size: nat
    var dataSize: nat
    var buffer: array<byte>

    ghost predicate Valid()
      reads this
    {
      && build.Valid()
      && dataSize <= size == buffer.Length
      && size < build.bufferMax
    }

    ghost function Contents(): (s: seq<byte>)
      reads this, buffer
      requires Valid()
      ensures |s| == dataSize
    {
      buffer[..dataSize]
    }

    constructor (b: Build)
      requires b.Valid()
      ensures Valid() && fresh(buffer) && build == b && Contents() == [] && size == 0
    {
      build, size, dataSize, buffer := b, 0, 0, new byte[0];
    }

    /** Reallocates if needed, so that n more bytes fit. */
    method Reserve(n: nat, memory: bool) returns (r: Result)
      requires Valid()
      modifies this`size, this`buffer
      ensures Valid() && (buffer == old(buffer) || fresh(buffer))
      ensures r == AppendResult(build, old(size), dataSize, n, memory)
      ensures Contents() == old(Contents())
      ensures if r.True? then size == NeededSize(build, old(size), dataSize, n) else unchanged(this)
    {
      var newSize := size;
      if newSize < build.bufferMin {
        newSize := build.bufferMin;
      }
      if n > newSize - dataSize {
        newSize := newSize + (n - (newSize - dataSize));
      }
      if newSize >= build.bufferMax {
        return BufferOverflow;
      }
      if newSize != size {
        if newSize > 0 && !memory {
          return False;
        }
        buffer := Realloc(buffer, newSize);
        size := newSize;
      }
      return True;
    }

    method Append(data: seq<byte>, memory: bool) returns (r: Result)
      requires Valid() && |data| < U32_MODULUS - build.bufferMax
      modifies this, buffer
      ensures Valid() && (buffer == old(buffer) || fresh(buffer))
      ensures r == AppendResult(build, old(size), old(dataSize), |data|, memory)
      ensures r.BufferOverflow? <==> old(dataSize) + |data| >= build.bufferMax
      ensures r.False? <==>
                && old(dataSize) + |data| < build.bufferMax && !memory
                && (old(dataSize) + |data| > old(size) || build.bufferMin > old(size))
      ensures r.True? ==> Contents() == old(Contents()) + data && size >= old(size)
      ensures r.True? ==> size == NeededSize(build, old(size), old(dataSize), |data|)
      ensures !r.True? ==> unchanged(this) && unchanged(buffer)
    {
      r := Reserve(|data|, memory);
      if r != True {
        return;
      }
      ghost var before := old(Contents());
      assert buffer[..dataSize] == before;
      Write(dataSize, data);
      dataSize := dataSize + |data|;
      assert buffer[..dataSize] == buffer[..|before|] + buffer[|before|..dataSize];
    }

    method Write(at: nat, data: seq<byte>)
      requires at + |data| <= buffer.Length
      modifies buffer
      ensures buffer[..at] == old(buffer[..at]) && buffer[at..at + |data|] == data
    {
      forall i | 0 <= i < |data| {
        buffer[at + i] := data[i];
      }
    }

    /** Shifts the bytes behind the first n down. */
    method RemoveFront(n: nat, memory: bool)
      requires Valid() && n <= dataSize
      modifies this, buffer
      ensures Valid() && (buffer == old(buffer) || fresh(buffer))
      ensures Contents() == old(Contents())[n..]
      ensures memory && n > 0 ==> size == Max(dataSize, build.bufferMin)
      ensures size <= Max(old(size), build.bufferMin)
    {
      ghost var before := Contents();
      var k := 0;
      var a := n;
      while a < dataSize
        invariant n <= a <= dataSize && k == a - n
        invariant dataSize == old(dataSize) && size == old(size) && buffer == old(buffer)
        invariant forall i :: 0 <= i < k ==> buffer[i] == before[n + i]
        invariant forall i :: a <= i < dataSize ==> buffer[i] == before[i]
      {
        buffer[k] := buffer[a];
        k := k + 1;
        a := a + 1;
      }
      dataSize := dataSize - n;
      assert Contents() == before[n..];
      GiveBack(memory);
    }

    /** Shrinks the block to its contents, but not below the minimum of the build. */
    method GiveBack(memory: bool)
      requires Valid()
      modifies this`size, this`buffer
      ensures Valid() && (buffer == old(buffer) || fresh(buffer))
      ensures Contents() == old(Contents())
      ensures memory && dataSize < old(size) ==> size == Max(dataSize, build.bufferMin)
      ensures size <= Max(old(size), build.bufferMin)
    {
      if dataSize < size {
        var oldSize := size;
        var newSize := dataSize;
        if newSize < build.bufferMin {
          newSize := build.bufferMin;
        }
        if oldSize != newSize && (memory || newSize == 0) {
          buffer := Realloc(buffer, newSize);
          size := newSize;
        }
      }
    }
  }

  class Sproto {
    const build: Build
    var nextRrId: u32
    var version: byte
    var beginTag: bool
    const inp: SprotoBuffer
    const out: SprotoBuffer

    ghost predicate Valid()
      reads this, inp, inp.buffer, out
    {
      && inp != out && inp.buffer != out.buffer
      && inp.Valid() && out.Valid()
      && inp.build == out.build == build
      && PROTO_VERSION_MIN <= version <= PROTO_VERSION
      && (beginTag ==> TAG <= inp.Contents())
    }

    constructor (b: Build)
      requires b.Valid()
      ensures Valid() && build == b && fresh(inp) && fresh(out) && fresh(inp.buffer) && fresh(out.buffer)
      ensures inp.Contents() == [] && out.Contents() == [] && out.size == 0
      ensures nextRrId == 0
    {
      build, nextRrId, version, beginTag := b, 0, PROTO_VERSION, false;
      inp := new SprotoBuffer(b);
      out := new SprotoBuffer(b);
    }

    method InAppend(data: seq<byte>, memory: bool) returns (r: Result)
      requires Valid() && |data| < U32_MODULUS - build.bufferMax
      modifies inp, inp.buffer
      ensures Valid() && (inp.buffer == old(inp.buffer) || fresh(inp.buffer))
      ensures r == AppendResult(build, old(inp.size), old(inp.dataSize), |data|, memory)
      ensures inp.Contents() == if r.True? then old(inp.Contents()) + data else old(inp.Contents())
    {
      r := inp.Append(data, memory);
    }

    method ShrinkIn(n: nat, memory: bool)
      requires Valid()
      modifies this`beginTag, inp, inp.buffer
      ensures Valid() && (inp.buffer == old(inp.buffer) || fresh(inp.buffer))
      ensures inp.Contents() == old(inp.Contents())[Min(n, |old(inp.Contents())|)..]
    {
      beginTag := false;
      inp.RemoveFront(Min(n, inp.dataSize), memory);
    }

    /** One attempt to take a packet out of the input buffer, exactly as PopPacket says. */
    method PopInSdp(sdp: seq<byte>, memory: bool) returns (r: Result, filled: seq<byte>)
      requires Valid() && IsImage(build, sdp)
      modifies this`beginTag, inp, inp.buffer
      ensures Valid() && (inp.buffer == old(inp.buffer) || fresh(inp.buffer))
      ensures var p := PopPacket(build, old(inp.Contents()), sdp);
              && inp.Contents() == p.rest && filled == p.image && r == ResultOfScan(p.scan)
    {
      var s := inp.buffer[..inp.dataSize];
      if !beginTag && inp.dataSize >= TAG_SIZE {
        if s[..TAG_SIZE] == TAG {
          beginTag := true;
        } else {
          ShrinkIn(inp.dataSize, memory);
          return Result.DataError, sdp;
        }
      }
      if beginTag {
        r, filled := PopTagged(sdp, memory);
        return;
      }
      return False, sdp;
    }

    /** The part of sproto_pop_in_sdp behind the check of the opening tag. */
    method PopTagged(sdp: seq<byte>, memory: bool) returns (r: Result, filled: seq<byte>)
      requires Valid() && IsImage(build, sdp) && beginTag
      modifies this`beginTag, inp, inp.buffer
      ensures Valid() && (inp.buffer == old(inp.buffer) || fresh(inp.buffer))
      ensures var p := PopPacket(build, old(inp.Contents()), sdp);
              && inp.Contents() == p.rest && filled == p.image && r == ResultOfScan(p.scan)
    {
      filled := sdp;
      var s := inp.buffer[..inp.dataSize];
      if inp.dataSize - TAG_SIZE >= HEADER_SIZE {
        if s[5] > PROTO_VERSION || s[5] < PROTO_VERSION_MIN {
          filled := filled[5 := s[5]];
          ShrinkIn(inp.dataSize, memory);
          return Result.VersionError, filled;
        }
        var n := (HEADER_SIZE + DataSizeField(s)) % U32_MODULUS;
        if n > HEADER_SIZE + build.maxData {
          ShrinkIn(inp.dataSize, memory);
          return Result.DataError, filled;
        }
        if n + TAG_SIZE > inp.dataSize {
          return False, filled;
        }
        if n >= inp.size || s[n..n + TAG_SIZE] != TAG {
          ShrinkIn(inp.dataSize, memory);
          return Result.DataError, filled;
        }
        filled := s[..n] + filled[n..];
        ShrinkIn(n + TAG_SIZE, memory);
        return True, filled;
      }
      return False, filled;
    }

    /** Appends packet and tag, one after the other. */
    method OutAppend(sdp: seq<byte>, memory: bool, memoryForTag: bool) returns (r: Result)
      requires Valid() && IsImage(build, sdp)
      modifies out, out.buffer
      ensures Valid() && (out.buffer == old(out.buffer) || fresh(out.buffer))
      ensures var n := (HEADER_SIZE + DataSizeField(sdp)) % U32_MODULUS;
              var first := AppendResult(build, old(out.size), old(out.dataSize), n, memory);
              var grown := NeededSize(build, old(out.size), old(out.dataSize), n);
              var second := AppendResult(build, grown, old(out.dataSize) + n, TAG_SIZE, memoryForTag);
              if n > HEADER_SIZE + build.maxData then
                r == DataTooLarge && out.Contents() == old(out.Contents())
              else if !first.True? then
                r == False && out.Contents() == old(out.Contents())
              else
                r == second &&
                out.Contents() == old(out.Contents()) + sdp[..n] + (if second.True? then TAG else [])
    {
      var n := (HEADER_SIZE + DataSizeField(sdp)) % U32_MODULUS;
      if n > HEADER_SIZE + build.maxData {
        return DataTooLarge;
      }
      r := out.Append(sdp[..n], memory);
      if r == True {
        r := out.Append(TAG, memoryForTag);
        return;
      }
      return False;
    }

    /** Moves at most limit bytes from the front of the output buffer to the caller. */
    method PopOutData(limit: nat, memory: bool) returns (data: seq<byte>)
      requires Valid()
      modifies out, out.buffer
      ensures Valid() && (out.buffer == old(out.buffer) || fresh(out.buffer))
      ensures data == old(out.Contents())[..Min(limit, |old(out.Contents())|)]
      ensures out.Contents() == old(out.Contents())[|data|..]
      ensures out.size <= Max(old(out.size), build.bufferMin)
    {
      if out.dataSize <= 0 || limit == 0 {
        return [];
      }
      var n := limit;
      if out.dataSize < n {
        n := out.dataSize;
      }
      data := out.buffer[..n];
      assert data == out.Contents()[..n];
      out.RemoveFront(n, memory);
    }

    /** A zeroed packet with tag, the next request id (never 0) and the protocol version. */
    method SdpInit() returns (sdp: seq<byte>)
      requires Valid()
      modifies this`nextRrId
      ensures Valid()
      ensures nextRrId == if old(nextRrId) == 0xFFFF_FFFF then 1 else old(nextRrId) + 1
      ensures sdp == PacketImage(build, Message(version, nextRrId, 0, []))
    {
      nextRrId := (nextRrId + 1) % U32_MODULUS;
      if nextRrId == 0 {
        nextRrId := nextRrId + 1;
      }
      sdp := TAG + [version] + Le32(nextRrId) + Zeros(8 + build.maxData);
      assert Le32(0) == Zeros(4);
      assert sdp == PacketImage(build, Message(version, nextRrId, 0, []));
    }

    /** The packet of one call: initialised, its version overridden if the caller asks for it, and
        the payload set if it fits. */
    method NewPacket(callId: u32, data: seq<byte>, version: Option<byte>) returns (ok: bool, sdp: seq<byte>)
      requires Valid()
      modifies this`nextRrId
      ensures Valid() && IsImage(build, sdp)
      ensures nextRrId == if old(nextRrId) == 0xFFFF_FFFF then 1 else old(nextRrId) + 1
      ensures ok == (|data| <= build.maxData)
      ensures var v := if version.Some? then version.value else this.version;
              ok ==> sdp == PacketImage(build, Message(v, nextRrId, callId, data))
    {
      sdp := SdpInit();
      ghost var blank := sdp;
      if version.Some? {
        sdp := sdp[5 := version.value];
      }
      if |data| > build.maxData {
        return false, sdp;
      }
      SetDataOnFreshPacket(build, Message(this.version, nextRrId, 0, []), version, callId, data);
      return true, SetData(build, sdp, callId, data);
    }

    method SetVersion(v: byte)
      requires Valid()
      modifies this`version
      ensures Valid()
      ensures version == if PROTO_VERSION_MIN <= v <= PROTO_VERSION then v else PROTO_VERSION
    {
      if v >= PROTO_VERSION_MIN && v <= PROTO_VERSION {
        version := v;
      } else {
        version := PROTO_VERSION;
      }
    }
  }

  /** The k-th request id behind x: the ids go round the numbers from 1 to 2^32 - 1. */
  ghost function NthId(x: u32, k: nat): (id: u32)
    requires k >= 1
    ensures id != 0
  {
    (x + k - 1) % 0xFFFF_FFFF + 1
  }

  lemma FirstId(x: u32)
    ensures NthId(x, 1) == if x == 0xFFFF_FFFF then 1 else x + 1
  {}

  lemma IdBehind(x: u32, k: nat)
    requires k >= 1
    ensures NthId(x, k + 1) == if NthId(x, k) == 0xFFFF_FFFF then 1 else NthId(x, k) + 1
  {}

  lemma IdsDiffer(x: u32, j: nat, k: nat)
    requires 1 <= j < k < U32_MODULUS
    ensures NthId(x, j) != NthId(x, k)
  {}

  /** The ids that a run of calls returned: 0 for a call refused, and for the others the places at
      which their ids stand in the round, in increasing order up to the last one used. */
  ghost predicate InTurn(x: u32, ids: seq<u32>, places: seq<nat>, last: nat) {
    && |places| == |ids|
    && (forall i :: 0 <= i < |ids| && ids[i] != 0 ==> 1 <= places[i] <= last && ids[i] == NthId(x, places[i]))
    && forall i, j :: 0 <= i < j < |ids| && ids[i] != 0 && ids[j] != 0 ==> places[i] < places[j]
  }

  lemma NoneInTurn(x: u32)
    ensures InTurn(x, [], [], 0)
  {}

  lemma InTurnNext(x: u32, ids: seq<u32>, places: seq<nat>, last: nat, id: u32, now: nat)
    requires InTurn(x, ids, places, last) && last <= now
    requires id != 0 ==> last < now && id == NthId(x, now)
    ensures InTurn(x, ids + [id], places + [now], now)
  {}

  /** As long as the round is not complete, no id is given twice. */
  lemma IdsInTurnDiffer(x: u32, ids: seq<u32>, places: seq<nat>, last: nat)
    requires InTurn(x, ids, places, last) && last < U32_MODULUS
    ensures forall i, j :: 0 <= i < j < |ids| && ids[i] != 0 ==> ids[i] != ids[j]
  {
    forall i, j | 0 <= i < j < |ids| && ids[i] != 0 ensures ids[i] != ids[j] {
      if ids[j] != 0 {
        IdsDiffer(x, places[i], places[j]);
      }
    }
  }

  /** One call as a program makes it. */
  datatype Call = Call(allowed: bool, callId: u32, data: seq<byte>, version: Option<byte>)

  /** The packet structure that holds a message, its payload array zeroed behind the payload. */
  function PacketImage(build: Build, m: Message): (s: seq<byte>)
    requires |m.data| <= build.maxData
    ensures IsImage(build, s)
  {
    Header(m) + m.data + Zeros(build.maxData - |m.data|)
  }

  /** sproto_set_data on a packet whose payload fits. */
  function SetData(build: Build, sdp: seq<byte>, callId: u32, data: seq<byte>): (s: seq<byte>)
    requires IsImage(build, sdp) && |data| <= build.maxData
    ensures IsImage(build, s)
  {
    sdp[..10] + Le32(callId) + Le32(|data| % U32_MODULUS) + data + sdp[HEADER_SIZE + |data|..]
  }

  /** Initialising, overriding the version and setting the payload leave the structure of the
      message, with zeros behind the payload. */
  lemma SetDataOnFreshPacket(build: Build, blank: Message, version: Option<byte>, callId: u32, data: seq<byte>)
    requires build.Valid() && |data| <= build.maxData && blank.data == []
    ensures var sdp := PacketImage(build, blank);
            var m := Message(if version.Some? then version.value else blank.version, blank.rrId, callId, data);
            SetData(build, if version.Some? then sdp[5 := version.value] else sdp, callId, data) ==
            PacketImage(build, m)
  {
    var sdp := PacketImage(build, blank);
    var m := Message(if version.Some? then version.value else blank.version, blank.rrId, callId, data);
    var v := if version.Some? then sdp[5 := version.value] else sdp;
    assert v[..10] == TAG + [m.version] + Le32(m.rrId);
    assert v[HEADER_SIZE + |data|..] == Zeros(build.maxData - |data|);
  }

  lemma PacketImageFields(build: Build, m: Message)
    requires |m.data| <= build.maxData < U32_MODULUS
    ensures var s := PacketImage(build, m);
            DataSizeField(s) == |m.data| && s[..HEADER_SIZE + |m.data|] == Header(m) + m.data
  {
    HeaderFields(m, m.data + Zeros(build.maxData - |m.data|));
    assert PacketImage(build, m) == Header(m) + (m.data + Zeros(build.maxData - |m.data|));
  }
}

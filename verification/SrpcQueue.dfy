/**
 The bounded packet queue of srpc.c: an array of pointers to packet structures on the heap, live
 ones first, a counter of live packets and a counter that decides which structures are kept
 allocated. It refines a bounded sequence of packets.
 */
module SrpcQueue {
  import opened Common
  import opened FrameCodec

  class PacketCell {
    var packet: seq<byte>

    constructor (p: seq<byte>)
      ensures packet == p
    {
      packet := p;
    }
  }

  // ----- the specification: a sequence of packet structures

  predicate Matches(packet: seq<byte>, rrId: u32)
    requires |packet| >= HEADER_SIZE
  {
    rrId == 0 || FromLe32(packet[6..10]) == rrId
  }

  ghost predicate Packets(c: seq<seq<byte>>) {
    forall p <- c :: |p| >= HEADER_SIZE
  }

  /** The position of the first packet with the given id (0: any packet), or the length. */
  ghost function FirstMatch(c: seq<seq<byte>>, rrId: u32): (k: nat)
    requires Packets(c)
    ensures k <= |c|
    ensures forall i :: 0 <= i < k ==> !Matches(c[i], rrId)
    ensures k < |c| ==> Matches(c[k], rrId)
  {
    if c == [] || Matches(c[0], rrId) then 0
    else
      var k := FirstMatch(c[1..], rrId);
      assert forall i :: 1 <= i < k + 1 ==> c[i] == c[1..][i - 1];
      k + 1
  }

  /** Which packet it is, by what a receiver reads in the packets: without an id the oldest, otherwise
      the first that carries the id; none exactly when no packet does. */
  lemma FirstMatchMeaning(c: seq<seq<byte>>, rrId: u32)
    requires Packets(c)
    ensures var k := FirstMatch(c, rrId);
            && (rrId == 0 ==> k == 0)
            && (rrId != 0 ==> forall i :: 0 <= i < k ==> ReadImage(c[i]).rrId != rrId)
            && (rrId != 0 && k < |c| ==> ReadImage(c[k]).rrId == rrId)
  {
    hide FromLe32;
  }

  ghost function Without(c: seq<seq<byte>>, k: nat): seq<seq<byte>>
    requires k <= |c|
  {
    if k == |c| then c else c[..k] + c[k + 1..]
  }

  /** The k-th packet was taken out: the oldest without an id, otherwise the first with the id. */
  ghost predicate Taken(c: seq<seq<byte>>, rrId: u32, k: nat, packet: seq<byte>, left: seq<seq<byte>>)
    requires Packets(c) && k < |c|
  {
    && packet == c[k] && left == c[..k] + c[k + 1..]
    && if rrId == 0 then k == 0
       else ReadImage(packet).rrId == rrId && forall i :: 0 <= i < k ==> ReadImage(c[i]).rrId != rrId
  }

  lemma TakenIs(c: seq<seq<byte>>, rrId: u32)
    requires Packets(c)
    ensures var k := FirstMatch(c, rrId);
            && (k < |c| ==> Taken(c, rrId, k, c[k], Without(c, k)))
            && (k == |c| ==> Without(c, k) == c)
            && (rrId == 0 ==> (k < |c|) == (c != []))
            && (rrId != 0 ==> (k < |c|) == exists p <- c :: ReadImage(p).rrId == rrId)
  {
    FirstMatchMeaning(c, rrId);
    hide FirstMatch, ReadImage;
    var k := FirstMatch(c, rrId);
    if k < |c| {
      assert c[k] in c;
    }
  }

  // ----- counting and moving slots

  ghost function NonNull(s: seq<PacketCell?>): nat {
    if s == [] then 0 else (if s[0] == null then 0 else 1) + NonNull(s[1..])
  }

  lemma {:induction false} NonNullAppend(s: seq<PacketCell?>, t: seq<PacketCell?>)
    ensures NonNull(s + t) == NonNull(s) + NonNull(t)
  {
    if s == [] {
      assert s + t == t;
    } else {
      assert (s + t)[1..] == s[1..] + t;
      NonNullAppend(s[1..], t);
    }
  }

  lemma {:induction false} FirstNonNull(s: seq<PacketCell?>, k: nat)
    requires k <= |s| && forall i :: 0 <= i < k ==> s[i] != null
    ensures NonNull(s) >= k
  {
    if k > 0 {
      FirstNonNull(s[1..], k - 1);
    }
  }

  lemma NonNullUpdate(s: seq<PacketCell?>, k: nat, c: PacketCell?)
    requires k < |s|
    ensures NonNull(s[k := c]) == NonNull(s) - NonNull([s[k]]) + NonNull([c])
  {
    assert s == s[..k] + ([s[k]] + s[k + 1..]);
    assert s[k := c] == s[..k] + ([c] + s[k + 1..]);
    NonNullAppend(s[..k], [s[k]] + s[k + 1..]);
    NonNullAppend(s[..k], [c] + s[k + 1..]);
    NonNullAppend([s[k]], s[k + 1..]);
    NonNullAppend([c], s[k + 1..]);
  }

  lemma NonNullOfFour(p: seq<PacketCell?>, q: seq<PacketCell?>, r: seq<PacketCell?>, s: seq<PacketCell?>)
    ensures NonNull(p + (q + (r + s))) == NonNull(p) + NonNull(q) + NonNull(r) + NonNull(s)
  {
    NonNullAppend(p, q + (r + s));
    NonNullAppend(q, r + s);
    NonNullAppend(r, s);
  }

  /** Slot a taken out, the live slots behind it moved down, the slot (or null) put behind them. */
  ghost function Moved(s: seq<PacketCell?>, a: nat, n: nat, spare: PacketCell?): seq<PacketCell?>
    requires a < n <= |s|
  {
    s[..a] + (s[a + 1..n] + ([spare] + s[n..]))
  }

  lemma MovedIs(t: seq<PacketCell?>, s: seq<PacketCell?>, a: nat, n: nat, spare: PacketCell?)
    requires a < n <= |s| == |t|
    requires forall i {:trigger t[i]} :: 0 <= i < |s| ==>
               t[i] == if i < a || n <= i then s[i] else if i < n - 1 then s[i + 1] else spare
    ensures t == Moved(s, a, n, spare)
  {
    var tail := [spare] + s[n..];
    assert t[n - 1..] == tail;
    assert t[a..n - 1] == s[a + 1..n];
    assert t[..a] == s[..a];
    assert t == t[..a] + (t[a..n - 1] + t[n - 1..]);
  }

  lemma NonNullMoved(s: seq<PacketCell?>, a: nat, n: nat, spare: PacketCell?)
    requires a < n <= |s|
    ensures NonNull(Moved(s, a, n, spare)) == NonNull(s) - NonNull([s[a]]) + NonNull([spare])
  {
    var p, q, r := s[..a], s[a + 1..n], s[n..];
    FourParts(s, a, n);
    NonNullOfFour(p, [s[a]], q, r);
    NonNullOfFour(p, q, [spare], r);
  }

  lemma FourParts(s: seq<PacketCell?>, a: nat, n: nat)
    requires a < n <= |s|
    ensures s == s[..a] + ([s[a]] + (s[a + 1..n] + s[n..]))
  {
    assert s[a + 1..] == s[a + 1..n] + s[n..];
    assert s[a..] == [s[a]] + s[a + 1..];
  }

  ghost predicate Distinct(s: seq<PacketCell?>) {
    forall i, j :: 0 <= i < j < |s| && s[i] != null ==> s[i] != s[j]
  }

  lemma DistinctMoved(s: seq<PacketCell?>, a: nat, n: nat, spare: PacketCell?)
    requires a < n <= |s| && Distinct(s) && (spare == null || spare == s[a])
    ensures Distinct(Moved(s, a, n, spare))
  {
    var t := Moved(s, a, n, spare);
    forall i, j | 0 <= i < j < |t| && t[i] != null ensures t[i] != t[j] {
      var oi := if i < a then i else if i < n - 1 then i + 1 else if i == n - 1 then a else i;
      var oj := if j < a then j else if j < n - 1 then j + 1 else if j == n - 1 then a else j;
      assert t[i] == s[oi] && oi != oj;
      assert t[j] == s[oj] || t[j] == null;
    }
  }

  // ----- the implementation

  class Queue {
    const capacity: nat
    const minAlloc: nat
    const item: array<PacketCell?>
    var itemCount: nat
    var allocCount: nat

    /** The packet structures the queue has allocated so far. */
    ghost var cells: set<PacketCell>

    ghost predicate Valid()
      reads this, item, cells
    {
      && item.Length == capacity
      && capacity + minAlloc < 0x100
      && itemCount <= capacity
      && (forall i :: 0 <= i < capacity && item[i] != null ==> item[i] in cells)
      && (forall i :: 0 <= i < itemCount ==> item[i] != null && |item[i].packet| >= HEADER_SIZE)
      && Distinct(item[..])
      && NonNull(item[..]) <= allocCount <= minAlloc + itemCount
    }

    ghost function Contents(): (c: seq<seq<byte>>)
      reads this, item, cells
      requires Valid()
      ensures |c| == itemCount && Packets(c)
    {
      seq(itemCount, i requires 0 <= i < itemCount && Valid() reads this, item, cells => item[i].packet)
    }

    /** Whether the next packet finds a structure that was kept. */
    ghost predicate Spare()
      reads this, item
    {
      itemCount < item.Length && item[itemCount] != null
    }

    /** None is kept where the build says so. */
    lemma NoSpare()
      requires Valid() && minAlloc == 0
      ensures !Spare()
    {
      if Spare() {
        FirstNonNull(item[..], itemCount + 1);
      }
    }

    constructor (size: nat, kept: nat)
      requires size + kept < 0x100
      ensures Valid() && Contents() == [] && capacity == size && minAlloc == kept && fresh(item) && cells == {}
    {
      capacity, minAlloc, itemCount, allocCount, cells := size, kept, 0, 0, {};
      item := new PacketCell?[size](_ => null);
      new;
      AllNull(item[..]);
    }

    method Push(sdp: seq<byte>, memory: bool) returns (ok: bool)
      requires Valid() && |sdp| >= HEADER_SIZE
      modifies this, item, cells
      ensures Valid() && fresh(cells - old(cells))
      ensures ok == (|old(Contents())| < capacity && (memory || old(Spare())))
      ensures Contents() == if ok then old(Contents()) + [sdp] else old(Contents())
    {
      hide NonNull, Distinct, Packets;
      if itemCount >= capacity {
        return false;
      }
      if item[itemCount] == null {
        if !memory {
          return false;
        }
        Allocate();
      }
      ghost var c := old(Contents());
      assert forall i :: 0 <= i < itemCount ==> item[i].packet == c[i];
      Store(sdp);
      assert Contents() == c + [sdp];
      return true;
    }

    /** Copies the packet into the structure of the first slot behind the live ones. */
    method Store(sdp: seq<byte>)
      requires |sdp| >= HEADER_SIZE && item.Length == capacity && capacity + minAlloc < 0x100
      requires itemCount < capacity && item[itemCount] != null && Distinct(item[..])
      requires forall i :: 0 <= i < itemCount ==> item[i] != null && |item[i].packet| >= HEADER_SIZE
      requires forall i :: 0 <= i < capacity && item[i] != null ==> item[i] in cells
      requires NonNull(item[..]) <= allocCount + 1 <= minAlloc + itemCount + 1
      modifies this`itemCount, this`allocCount, item[itemCount]
      ensures Valid() && itemCount == old(itemCount) + 1
      ensures forall i :: 0 <= i < itemCount - 1 ==> item[i].packet == old(item[i].packet)
      ensures item[itemCount - 1].packet == sdp
    {
      assert forall i :: 0 <= i < itemCount ==> item[..][i] != item[..][itemCount];
      allocCount := allocCount + 1;
      item[itemCount].packet := sdp;
      itemCount := itemCount + 1;
    }

    /** Puts a new structure into the first slot behind the live ones. */
    method Allocate()
      requires Valid() && itemCount < capacity && item[itemCount] == null
      modifies item, this`cells
      ensures item[itemCount] != null && fresh(item[itemCount]) && cells == old(cells) + {item[itemCount]}
      ensures forall i :: 0 <= i < item.Length && i != itemCount ==> item[i] == old(item[i])
      ensures Distinct(item[..]) && NonNull(item[..]) == old(NonNull(item[..])) + 1
    {
      var cell := new PacketCell([]);
      ghost var before := item[..];
      NonNullUpdate(before, itemCount, cell);
      item[itemCount] := cell;
      cells := cells + {cell};
      assert item[..] == before[itemCount := cell];
    }

    method Pop(rrId: u32) returns (ok: bool, sdp: seq<byte>)
      requires Valid()
      modifies this, item
      ensures Valid() && cells == old(cells)
      ensures var c := old(Contents());
              var k := FirstMatch(c, rrId);
              && ok == (k < |c|)
              && (ok ==> sdp == c[k])
              && Contents() == Without(c, k)
      ensures rrId == 0 ==> ok == (old(Contents()) != [])
      ensures rrId != 0 ==> ok == exists p <- old(Contents()) :: ReadImage(p).rrId == rrId
      ensures ok ==> exists k :: 0 <= k < |old(Contents())| && Taken(old(Contents()), rrId, k, sdp, Contents())
      ensures !ok ==> Contents() == old(Contents())
    {
      ghost var c := Contents();
      TakenIs(c, rrId);
      hide Taken, ReadImage, Packets;
      var a := 0;
      while a < itemCount
        invariant 0 <= a <= itemCount
        invariant forall i :: 0 <= i < a ==> !Matches(c[i], rrId)
      {
        assert c[a] == item[a].packet;
        if rrId == 0 || FromLe32(item[a].packet[6..10]) == rrId {
          sdp := item[a].packet;
          Remove(a);
          return true, sdp;
        }
        a := a + 1;
      }
      return false, [];
    }

    /** Takes slot a out; frees its structure while more than the kept number are allocated. */
    method Remove(a: nat)
      requires Valid() && a < itemCount
      modifies this, item
      ensures Valid() && cells == old(cells)
      ensures Contents() == Without(old(Contents()), a)
    {
      hide NonNull, Distinct, Without, FirstMatch, Packets;
      ghost var c := Contents();
      FreeSurplus(a);
      MoveBehindLiveSlots(a);
      itemCount := itemCount - 1;
      ContentsWithout(c, a);
    }

    lemma ContentsWithout(c: seq<seq<byte>>, a: nat)
      requires Valid() && a < |c| == itemCount + 1
      requires forall i :: 0 <= i < itemCount ==> item[i].packet == c[if i < a then i else i + 1]
      ensures Contents() == Without(c, a)
    {}

    /** Frees the structure in slot a if more than the kept number are allocated. */
    method FreeSurplus(a: nat)
      requires Valid() && a < itemCount
      modifies this`allocCount, item
      ensures forall i :: 0 <= i < capacity && i != a ==> item[i] == old(item[i])
      ensures item[a] == null || item[a] == old(item[a])
      ensures Distinct(item[..])
      ensures NonNull(item[..]) <= allocCount <= minAlloc + itemCount - 1
    {
      ghost var before := item[..];
      if allocCount > minAlloc {
        allocCount := allocCount - 1;
        NonNullUpdate(before, a, null);
        item[a] := null;
        assert item[..] == before[a := null];
      }
    }

    /** Shifts the live slots behind slot a down and puts the pointer of slot a behind them. */
    method MoveBehindLiveSlots(a: nat)
      requires item.Length == capacity && a < itemCount <= capacity
      requires Distinct(item[..])
      requires forall i :: 0 <= i < capacity && item[i] != null ==> item[i] in cells
      modifies item
      ensures forall i :: 0 <= i < itemCount - 1 ==> item[i] == old(item[if i < a then i else i + 1])
      ensures forall i :: 0 <= i < capacity && item[i] != null ==> item[i] in cells
      ensures NonNull(item[..]) == old(NonNull(item[..])) && Distinct(item[..])
    {
      hide NonNull, Distinct, Moved;
      ghost var before := item[..];
      var spare := item[a];
      var b := a;
      while b < itemCount - 1
        invariant a <= b <= itemCount - 1
        invariant forall i :: 0 <= i < a ==> item[i] == before[i]
        invariant forall i :: a <= i < b ==> item[i] == before[i + 1]
        invariant forall i :: b <= i < item.Length ==> item[i] == before[i]
      {
        item[b] := item[b + 1];
        b := b + 1;
      }
      item[itemCount - 1] := spare;
      MovedIs(item[..], before, a, itemCount, spare);
      NonNullMoved(before, a, itemCount, spare);
      DistinctMoved(before, a, itemCount, spare);
    }
  }

  lemma {:induction false} AllNull(s: seq<PacketCell?>)
    requires forall i :: 0 <= i < |s| ==> s[i] == null
    ensures NonNull(s) == 0
  {
    if s != [] {
      AllNull(s[1..]);
    }
  }

  // ----- runs

  datatype Op = Push(packet: seq<byte>) | Pop(rrId: u32)

  /** What a run of operations on a queue with room for "capacity" packets accepted, handed out and
      kept, allocation succeeding: the contracts of Queue.Push and Queue.Pop, repeated. */
  datatype Outcome = Outcome(accepted: seq<seq<byte>>, popped: seq<seq<byte>>, kept: seq<seq<byte>>)

  ghost predicate Runnable(ops: seq<Op>) {
    forall op <- ops :: op.Push? ==> |op.packet| >= HEADER_SIZE
  }

  ghost function Run(capacity: nat, c: seq<seq<byte>>, ops: seq<Op>): Outcome
    requires Packets(c) && Runnable(ops)
    decreases |ops|
  {
    if ops == [] then Outcome([], [], c)
    else
      assert Runnable(ops[1..]);
      match ops[0]
      case Push(p) =>
        assert ops[0] in ops;
        if |c| >= capacity then Run(capacity, c, ops[1..])
        else var o := Run(capacity, c + [p], ops[1..]); o.(accepted := [p] + o.accepted)
      case Pop(r) =>
        var k := FirstMatch(c, r);
        var o := Run(capacity, Without(c, k), ops[1..]);
        if k < |c| then o.(popped := [c[k]] + o.popped) else o
  }

  /** The operations on the object, memory granted, are that run. */
  method RunAll(queue: Queue, ops: seq<Op>) returns (accepted: seq<seq<byte>>, popped: seq<seq<byte>>)
    requires queue.Valid() && Runnable(ops)
    modifies queue, queue.item, queue.cells
    ensures queue.Valid() && fresh(queue.cells - old(queue.cells))
    ensures Outcome(accepted, popped, queue.Contents()) == Run(queue.capacity, old(queue.Contents()), ops)
  {
    hide Run, Queue.Valid, Queue.Contents, FirstMatch, Without;
    ghost var whole := Run(queue.capacity, queue.Contents(), ops);
    accepted, popped := [], [];
    RunSoFar(queue.capacity, queue.Contents(), ops);
    var i := 0;
    while i < |ops|
      invariant 0 <= i <= |ops| && queue.Valid() && fresh(queue.cells - old(queue.cells))
      invariant Ahead(accepted, popped, Run(queue.capacity, queue.Contents(), ops[i..])) == whole
    {
      RunStep(queue.capacity, queue.Contents(), ops[i..], accepted, popped);
      assert ops[i..][0] == ops[i] && ops[i..][1..] == ops[i + 1..] && ops[i] in ops;
      match ops[i] {
        case Push(p) =>
          var ok := queue.Push(p, true);
          accepted := accepted + if ok then [p] else [];
        case Pop(id) =>
          var ok, p := queue.Pop(id);
          popped := popped + if ok then [p] else [];
      }
      i := i + 1;
    }
    RunEnd(queue.capacity, queue.Contents(), ops[i..], accepted, popped);
  }

  /** What has been accepted and handed out, in front of a later outcome. */
  ghost function Ahead(accepted: seq<seq<byte>>, popped: seq<seq<byte>>, o: Outcome): Outcome {
    Outcome(accepted + o.accepted, popped + o.popped, o.kept)
  }

  lemma RunSoFar(capacity: nat, c: seq<seq<byte>>, ops: seq<Op>)
    requires Packets(c) && Runnable(ops)
    ensures Runnable(ops[0..]) && Ahead([], [], Run(capacity, c, ops[0..])) == Run(capacity, c, ops)
  {
    hide Run;
    assert ops[0..] == ops;
    var o := Run(capacity, c, ops);
    assert [] + o.accepted == o.accepted && [] + o.popped == o.popped;
  }

  lemma RunStep(capacity: nat, c: seq<seq<byte>>, ops: seq<Op>, accepted: seq<seq<byte>>, popped: seq<seq<byte>>)
    requires Packets(c) && Runnable(ops) && ops != []
    ensures Runnable(ops[1..])
    ensures var whole := Ahead(accepted, popped, Run(capacity, c, ops));
            match ops[0]
            case Push(p) =>
              var ok := |c| < capacity;
              var d := if ok then c + [p] else c;
              Packets(d) && whole == Ahead(accepted + (if ok then [p] else []), popped, Run(capacity, d, ops[1..]))
            case Pop(id) =>
              var k := FirstMatch(c, id);
              Packets(Without(c, k)) &&
              var out := popped + if k < |c| then [c[k]] else [];
              whole == Ahead(accepted, out, Run(capacity, Without(c, k), ops[1..]))
  {
    hide FirstMatch;
    assert ops[0] in ops;
    match ops[0] {
      case Push(p) =>
        var d := if |c| < capacity then c + [p] else c;
        var o := Run(capacity, d, ops[1..]);
        hide Run;
        AppendAssoc(accepted, if |c| < capacity then [p] else [], o.accepted);
        AppendNone(accepted);
      case Pop(id) =>
        var k := FirstMatch(c, id);
        var o := Run(capacity, Without(c, k), ops[1..]);
        hide Run;
        AppendAssoc(popped, if k < |c| then [c[k]] else [], o.popped);
        AppendNone(popped);
    }
  }

  lemma AppendNone<T>(s: seq<T>)
    ensures s + [] == s
  {}

  lemma RunEnd(capacity: nat, c: seq<seq<byte>>, ops: seq<Op>, accepted: seq<seq<byte>>, popped: seq<seq<byte>>)
    requires Packets(c) && ops == []
    ensures Ahead(accepted, popped, Run(capacity, c, ops)) == Outcome(accepted, popped, c)
  {
    AppendNone(accepted);
    AppendNone(popped);
  }

  lemma ConservedByPush<T>(c: seq<T>, p: T, accepted: seq<T>, out: multiset<T>)
    requires multiset(c + [p]) + multiset(accepted) == out
    ensures multiset(c) + multiset([p] + accepted) == out
  {
    assert c + ([p] + accepted) == (c + [p]) + accepted;
    assert multiset(c + ([p] + accepted)) == multiset(c) + multiset([p] + accepted);
  }

  lemma ConservedByPop<T>(c: seq<T>, k: nat, accepted: multiset<T>, popped: seq<T>, kept: multiset<T>)
    requires k < |c|
    requires multiset(c[..k] + c[k + 1..]) + accepted == multiset(popped) + kept
    ensures multiset(c) + accepted == multiset([c[k]] + popped) + kept
  {
    assert c == c[..k] + [c[k]] + c[k + 1..];
    assert multiset(c) == multiset{c[k]} + multiset(c[..k] + c[k + 1..]);
    var rest := multiset(c[..k] + c[k + 1..]);
    calc {
      multiset(c) + accepted;
      multiset{c[k]} + (rest + accepted);
      multiset{c[k]} + (multiset(popped) + kept);
      multiset([c[k]] + popped) + kept;
    }
  }

  /** Nothing is lost or duplicated, whatever ids are asked for. */
  lemma {:induction false} RunConserves(capacity: nat, c: seq<seq<byte>>, ops: seq<Op>)
    requires Packets(c) && Runnable(ops) && |c| <= capacity
    ensures var o := Run(capacity, c, ops);
            && multiset(c) + multiset(o.accepted) == multiset(o.popped) + multiset(o.kept)
            && |o.kept| <= capacity
    decreases |ops|
  {
    if ops == [] {
      assert multiset([]) + multiset(c) == multiset(c) + multiset([]);
    } else {
      assert Runnable(ops[1..]) && ops[0] in ops;
      if ops[0].Push? && |c| < capacity {
        var p := ops[0].packet;
        RunConserves(capacity, c + [p], ops[1..]);
        var o := Run(capacity, c + [p], ops[1..]);
        ConservedByPush(c, p, o.accepted, multiset(o.popped) + multiset(o.kept));
      } else if ops[0].Push? {
        RunConserves(capacity, c, ops[1..]);
      } else {
        var k := FirstMatch(c, ops[0].rrId);
        RunConserves(capacity, Without(c, k), ops[1..]);
        var o := Run(capacity, Without(c, k), ops[1..]);
        if k < |c| {
          ConservedByPop(c, k, multiset(o.accepted), o.popped, multiset(o.kept));
        }
      }
    }
  }

  lemma ShiftIn<T>(c: seq<T>, x: T, accepted: seq<T>)
    ensures c + ([x] + accepted) == (c + [x]) + accepted
  {}

  lemma ShiftOut<T>(c: seq<T>, accepted: seq<T>, popped: seq<T>, kept: seq<T>)
    requires c != [] && c[1..] + accepted == popped + kept
    ensures c + accepted == ([c[0]] + popped) + kept
  {
    assert c + accepted == [c[0]] + (c[1..] + accepted);
  }

  /** Popped without an id, packets come out in the order in which they were accepted. */
  lemma {:induction false} RunIsFifo(capacity: nat, c: seq<seq<byte>>, ops: seq<Op>)
    requires Packets(c) && Runnable(ops)
    requires forall op <- ops :: op.Pop? ==> op.rrId == 0
    ensures var o := Run(capacity, c, ops); c + o.accepted == o.popped + o.kept
    decreases |ops|
  {
    if ops != [] {
      assert Runnable(ops[1..]) && ops[0] in ops;
      if ops[0].Push? && |c| < capacity {
        RunIsFifo(capacity, c + [ops[0].packet], ops[1..]);
        ShiftIn(c, ops[0].packet, Run(capacity, c + [ops[0].packet], ops[1..]).accepted);
      } else if ops[0].Push? || c == [] {
        RunIsFifo(capacity, c, ops[1..]);
      } else {
        assert FirstMatch(c, 0) == 0 && Without(c, 0) == c[1..];
        RunIsFifo(capacity, c[1..], ops[1..]);
        var o := Run(capacity, c[1..], ops[1..]);
        ShiftOut(c, o.accepted, o.popped, o.kept);
      }
    }
  }
}

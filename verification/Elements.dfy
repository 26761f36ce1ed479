/**
 The list of device elements and the cursor with which the main loop visits them while connected: an
 element that has sent something ends the round, and the next round goes on behind it.
 */
module Elements {
  import opened Common

  // ----- one round, by positions

  /** Where a round that starts at position i ends: behind the first element that answers false, or at
      the end of the list. */
  function StopAt(answers: seq<bool>, i: nat): (stop: nat)
    requires i <= |answers|
    ensures i <= stop <= |answers| && (i < |answers| ==> i < stop)
    decreases |answers| - i
  {
    if i == |answers| then i else if !answers[i] then i + 1 else StopAt(answers, i + 1)
  }

  /** A cursor behind the last element starts over at the first. */
  function StartOf(n: nat, cursor: nat): nat {
    if cursor >= n then 0 else cursor
  }

  /** Only the last element visited in a round may have answered false. */
  lemma {:induction false} StopMeaning(answers: seq<bool>, i: nat)
    requires i <= |answers|
    ensures var stop := StopAt(answers, i);
            && (forall k :: i <= k < stop - 1 ==> answers[k])
            && (stop == |answers| || !answers[stop - 1])
    decreases |answers| - i
  {
    if i < |answers| && answers[i] {
      StopMeaning(answers, i + 1);
    }
  }

  ghost predicate Rounds(n: nat, rounds: seq<seq<bool>>) {
    forall r <- rounds :: |r| == n
  }

  /** Whether consecutive rounds over an unchanged list of n elements visit element j. */
  ghost predicate Visited(n: nat, cursor: nat, rounds: seq<seq<bool>>, j: nat)
    requires Rounds(n, rounds)
    decreases |rounds|
  {
    if rounds == [] then false
    else
      assert |rounds[0]| == n;
      var start := StartOf(n, cursor);
      start <= j < StopAt(rounds[0], start) || Visited(n, StopAt(rounds[0], start), rounds[1..], j)
  }

  /** How many elements come before j, going round from the cursor. */
  function Distance(n: nat, cursor: nat, j: nat): int {
    var start := StartOf(n, cursor);
    if j >= start then j - start else j + n - start
  }

  lemma {:induction false} VisitedInTime(n: nat, cursor: nat, rounds: seq<seq<bool>>, j: nat)
    requires Rounds(n, rounds) && j < n && Distance(n, cursor, j) < |rounds|
    ensures Visited(n, cursor, rounds, j)
    decreases |rounds|
  {
    var start := StartOf(n, cursor);
    assert |rounds[0]| == n;
    var stop := StopAt(rounds[0], start);
    if !(start <= j < stop) {
      VisitedInTime(n, stop, rounds[1..], j);
    }
  }

  /** Fairness: any n consecutive rounds visit every one of n elements, whatever they answer and
      wherever the cursor stands. */
  lemma RoundRobinIsFair(n: nat, cursor: nat, rounds: seq<seq<bool>>, j: nat)
    requires Rounds(n, rounds) && |rounds| >= n && j < n
    ensures Visited(n, cursor, rounds, j)
  {
    VisitedInTime(n, cursor, rounds, j);
  }

  /** And n rounds are needed: when every element answers false, n - 1 rounds miss one. */
  lemma {:induction false} BusyElementsNeedAllRounds(n: nat, m: nat, cursor: nat, j: nat)
    requires cursor <= n && j < n && m <= Distance(n, cursor, j)
    ensures Rounds(n, seq(m, _ => seq(n, _ => false)))
    ensures !Visited(n, cursor, seq(m, _ => seq(n, _ => false)), j)
    decreases m
  {
    var rounds := seq(m, _ => seq(n, _ => false));
    if m > 0 {
      var start := StartOf(n, cursor);
      assert rounds[0] == seq(n, _ => false) && StopAt(rounds[0], start) == start + 1;
      assert rounds[1..] == seq(m - 1, _ => seq(n, _ => false));
      BusyElementsNeedAllRounds(n, m - 1, start + 1, j);
    }
  }

  // ----- the list and the cursor

  class Element {
    var nextPtr: Element?

    constructor ()
      ensures nextPtr == null
    {
      nextPtr := null;
    }
  }

  /** The i-th element, or null behind the last. */
  ghost function At(elements: seq<Element>, i: nat): Element? {
    if i < |elements| then elements[i] else null
  }

  ghost predicate Linked(elements: seq<Element>)
    reads elements`nextPtr
  {
    && (forall i :: 0 <= i < |elements| ==> elements[i].nextPtr == At(elements, i + 1))
    && (forall i, j :: 0 <= i < j < |elements| ==> elements[i] != elements[j])
  }

  function Answers(elements: seq<Element>, iterate: Element -> bool): (r: seq<bool>)
    ensures |r| == |elements| && forall i :: 0 <= i < |r| ==> r[i] == iterate(elements[i])
  {
    seq(|elements|, i requires 0 <= i < |elements| => iterate(elements[i]))
  }

  class Device {
    var firstPtr: Element?
    var invalidatePtr: bool
    var iterateConnectedPtr: Element?
    /** The calls of iterateConnected, in order. */
    var iterated: seq<Element>
    ghost var elements: seq<Element>

    /** Unless the flag is up, the cursor is null or points to an element of the list. */
    ghost predicate Valid()
      reads `firstPtr, `invalidatePtr, `iterateConnectedPtr, `elements, elements`nextPtr
    {
      && firstPtr == At(elements, 0) && Linked(elements)
      && (iterateConnectedPtr == null || invalidatePtr || iterateConnectedPtr in elements)
    }

    /** The position of the cursor; behind the last element when there is nothing to go on with. */
    ghost function Cursor(): (i: nat)
      reads `firstPtr, `invalidatePtr, `iterateConnectedPtr, `elements, elements`nextPtr
      requires Valid()
      ensures i <= |elements|
      ensures !invalidatePtr && iterateConnectedPtr != null ==> i < |elements| && elements[i] == iterateConnectedPtr
      ensures invalidatePtr || iterateConnectedPtr == null ==> i == |elements|
    {
      if invalidatePtr || iterateConnectedPtr == null then |elements|
      else var i :| 0 <= i < |elements| && elements[i] == iterateConnectedPtr; i
    }

    constructor ()
      ensures Valid() && elements == [] && iterated == []
    {
      firstPtr, invalidatePtr, iterateConnectedPtr, iterated, elements := null, false, null, [], [];
    }

    method Last() returns (e: Element?)
      requires Valid()
      ensures e == if elements == [] then null else elements[|elements| - 1]
    {
      e := firstPtr;
      ghost var i: nat := 0;
      while e != null && e.nextPtr != null
        invariant elements != [] ==> i < |elements| && e == elements[i]
        invariant elements == [] ==> e == null
        decreases |elements| - i
      {
        e := e.nextPtr;
        i := i + 1;
      }
    }

    /** The constructor of an element appends it. */
    method Add(e: Element)
      requires Valid() && e !in elements && e.nextPtr == null
      modifies this`firstPtr, this`elements, elements
      ensures Valid() && elements == old(elements) + [e]
      ensures iterateConnectedPtr != null && !invalidatePtr ==> Cursor() == old(Cursor())
    {
      if firstPtr == null {
        firstPtr := e;
      } else {
        var last := Last();
        last.nextPtr := e;
      }
      ghost var before := elements;
      elements := elements + [e];
      assert forall i :: 0 <= i < |before| ==> elements[i] == before[i];
    }

    /** The destructor of an element takes it out and raises the flag. */
    method Delete(e: Element, ghost i: nat)
      requires Valid() && i < |elements| && elements[i] == e
      modifies this`firstPtr, this`elements, this`invalidatePtr, elements
      ensures Valid() && elements == old(elements)[..i] + old(elements)[i + 1..]
      ensures invalidatePtr
    {
      hide Linked, At;
      invalidatePtr := true;
      ghost var before := elements;
      Bypass(e, i);
      elements := before[..i] + before[i + 1..];
      LinkedWithout(before, i);
    }

    /** Whatever pointed to the element now points to the one behind it. */
    method Bypass(e: Element, ghost i: nat)
      requires firstPtr == At(elements, 0) && Linked(elements) && i < |elements| && elements[i] == e
      modifies this`firstPtr, elements`nextPtr
      ensures firstPtr == At(elements, if i == 0 then 1 else 0)
      ensures forall j :: 0 <= j < |elements| ==>
                            elements[j].nextPtr == At(elements, if j == i - 1 then i + 1 else j + 1)
      ensures forall j, k :: 0 <= j < k < |elements| ==> elements[j] != elements[k]
    {
      if firstPtr == e {
        assert i == 0;
        firstPtr := e.nextPtr;
      } else {
        var p := Predecessor(e, i);
        p.nextPtr := p.nextPtr.nextPtr;
      }
    }

    method Predecessor(e: Element, ghost i: nat) returns (p: Element)
      requires firstPtr == At(elements, 0) && Linked(elements) && 0 < i < |elements| && elements[i] == e
      ensures p == elements[i - 1]
    {
      p := firstPtr;
      ghost var k := 0;
      while p.nextPtr != e
        invariant k < i && p == elements[k]
        decreases i - k
      {
        p := p.nextPtr;
        k := k + 1;
      }
      assert elements[k + 1] == e && k + 1 == i;
    }

    /** One connected round: from the cursor, or from the head if there is none or the list has lost an
        element since the last round. */
    method IterateConnected(iterate: Element -> bool)
      requires Valid()
      modifies this`invalidatePtr, this`iterateConnectedPtr, this`iterated
      ensures Valid() && !invalidatePtr
      ensures var start := StartOf(|elements|, old(Cursor()));
              var stop := StopAt(Answers(elements, iterate), start);
              && iterated == old(iterated) + elements[start..stop]
              && Cursor() == stop
    {
      hide StopAt;
      ghost var start := StartOf(|elements|, Cursor());
      if invalidatePtr {
        iterateConnectedPtr := null;
        invalidatePtr := false;
      }
      if iterateConnectedPtr == null {
        iterateConnectedPtr := firstPtr;
      }
      Walk(iterate, start);
    }

    /** Consecutive rounds over an unchanged list, each with answers of its own: as many rounds as there
        are elements visit every one of them. */
    method IterateRounds(iterates: seq<Element -> bool>)
      requires Valid() && |iterates| >= |elements|
      modifies this`invalidatePtr, this`iterateConnectedPtr, this`iterated
      ensures Valid() && old(iterated) <= iterated
      ensures forall e <- elements :: e in iterated[|old(iterated)|..]
    {
      hide StopAt, Answers, Visited, StartOf, Valid;
      ghost var before, es := iterated, elements;
      ghost var rounds := seq(|iterates|, k requires 0 <= k < |iterates| => Answers(es, iterates[k]));
      ghost var start := Cursor();
      AllVisited(|es|, start, rounds);
      var i := 0;
      while i < |iterates|
        invariant Valid() && 0 <= i <= |iterates| && before <= iterated
        invariant forall j :: 0 <= j < |es| ==>
                                es[j] in iterated[|before|..] || Visited(|es|, Cursor(), rounds[i..], j)
      {
        ghost var cursor, now := Cursor(), iterated;
        IterateConnected(iterates[i]);
        assert rounds[i..][0] == rounds[i] && rounds[i..][1..] == rounds[i + 1..];
        RoundVisits(es, before, now, cursor, rounds[i..]);
        i := i + 1;
      }
      forall j | 0 <= j < |es| ensures es[j] in iterated[|before|..] {
        NoRoundLeft(|es|, Cursor(), rounds[i..], j);
      }
    }

    method Walk(iterate: Element -> bool, ghost start: nat)
      requires Linked(elements) && start <= |elements| && iterateConnectedPtr == At(elements, start)
      modifies this`iterateConnectedPtr, this`iterated
      ensures var stop := StopAt(Answers(elements, iterate), start);
              iterateConnectedPtr == At(elements, stop) && iterated == old(iterated) + elements[start..stop]
    {
      hide StopAt, Answers;
      ghost var answers, es, before := Answers(elements, iterate), elements, iterated;
      ghost var i := start;
      var busy := false;
      NothingVisited(before, es, start);
      while iterateConnectedPtr != null && !busy
        invariant start <= i <= |es| && iterateConnectedPtr == At(es, i)
        invariant iterated == before + es[start..i]
        invariant StopAt(answers, start) == if busy then i else StopAt(answers, i)
        decreases |es| - i
      {
        StopStep(answers, i);
        OneMoreVisited(before, es, start, i);
        var ptr := iterateConnectedPtr;
        assert ptr == es[i];
        iterated := iterated + [ptr];
        busy := !iterate(ptr);
        iterateConnectedPtr := ptr.nextPtr;
        i := i + 1;
      }
      StopEnd(answers, i);
    }
  }

  lemma AllVisited(n: nat, cursor: nat, rounds: seq<seq<bool>>)
    requires Rounds(n, rounds) && |rounds| >= n
    ensures forall j :: 0 <= j < n ==> Visited(n, cursor, rounds, j)
  {
    forall j | 0 <= j < n ensures Visited(n, cursor, rounds, j) {
      RoundRobinIsFair(n, cursor, rounds, j);
    }
  }

  lemma VisitedStep(n: nat, cursor: nat, rounds: seq<seq<bool>>, j: nat)
    requires Rounds(n, rounds) && rounds != [] && cursor <= n
    ensures |rounds[0]| == n && StartOf(n, cursor) <= n
    ensures var start := StartOf(n, cursor);
            Visited(n, cursor, rounds, j) <==>
            start <= j < StopAt(rounds[0], start) || Visited(n, StopAt(rounds[0], start), rounds[1..], j)
  {}

  /** After a round, each element has been visited or will be in the rounds that are left. */
  lemma RoundVisits<T>(es: seq<T>, before: seq<T>, now: seq<T>, cursor: nat, rounds: seq<seq<bool>>)
    requires before <= now && rounds != [] && Rounds(|es|, rounds) && cursor <= |es|
    requires forall j :: 0 <= j < |es| ==> es[j] in now[|before|..] || Visited(|es|, cursor, rounds, j)
    ensures |rounds[0]| == |es| && StartOf(|es|, cursor) <= |es|
    ensures var start := StartOf(|es|, cursor);
            var stop := StopAt(rounds[0], start);
            var later := now + es[start..stop];
            && before <= later
            && forall j :: 0 <= j < |es| ==> es[j] in later[|before|..] || Visited(|es|, stop, rounds[1..], j)
  {
    hide StopAt, Visited, StartOf;
    assert rounds[0] in rounds;
    VisitedStep(|es|, cursor, rounds, 0);
    var start := StartOf(|es|, cursor);
    var stop := StopAt(rounds[0], start);
    MoreIterated(before, now, es[start..stop]);
    forall j | 0 <= j < |es|
      ensures es[j] in (now + es[start..stop])[|before|..] || Visited(|es|, stop, rounds[1..], j)
    {
      VisitedStep(|es|, cursor, rounds, j);
      assert start <= j < stop ==> es[start..stop][j - start] == es[j];
    }
  }

  lemma NoRoundLeft(n: nat, cursor: nat, rounds: seq<seq<bool>>, j: nat)
    requires rounds == []
    ensures !Visited(n, cursor, rounds, j)
  {}

  lemma MoreIterated<T>(before: seq<T>, now: seq<T>, visited: seq<T>)
    requires before <= now
    ensures before <= now + visited
    ensures forall x :: x in now[|before|..] || x in visited ==> x in (now + visited)[|before|..]
  {
    assert (now + visited)[|before|..] == now[|before|..] + visited;
  }

  lemma NothingVisited<T>(before: seq<T>, s: seq<T>, a: nat)
    requires a <= |s|
    ensures before == before + s[a..a]
  {}

  lemma OneMoreVisited<T>(before: seq<T>, s: seq<T>, a: nat, i: nat)
    requires a <= i < |s|
    ensures before + s[a..i] + [s[i]] == before + s[a..i + 1]
  {}

  lemma StopStep(answers: seq<bool>, i: nat)
    requires i < |answers|
    ensures StopAt(answers, i) == if !answers[i] then i + 1 else StopAt(answers, i + 1)
  {}

  lemma StopEnd(answers: seq<bool>, i: nat)
    ensures i == |answers| ==> StopAt(answers, i) == i
  {}

  lemma LinkedWithout(es: seq<Element>, i: nat)
    requires i < |es|
    requires forall j :: 0 <= j < |es| ==> es[j].nextPtr == At(es, if j == i - 1 then i + 1 else j + 1)
    requires forall j, k :: 0 <= j < k < |es| ==> es[j] != es[k]
    ensures Linked(es[..i] + es[i + 1..]) && At(es[..i] + es[i + 1..], 0) == At(es, if i == 0 then 1 else 0)
  {
    WithoutAt(es, i);
    LinkedIfKept(es, i, es[..i] + es[i + 1..]);
  }

  lemma WithoutAt<T>(s: seq<T>, i: nat)
    requires i < |s|
    ensures var rest := s[..i] + s[i + 1..];
            |rest| == |s| - 1 && forall j :: 0 <= j < |rest| ==> rest[j] == s[if j < i then j else j + 1]
  {}

  lemma LinkedIfKept(es: seq<Element>, i: nat, rest: seq<Element>)
    requires i < |es| == |rest| + 1
    requires forall j :: 0 <= j < |rest| ==> rest[j] == es[if j < i then j else j + 1]
    requires forall j :: 0 <= j < |es| ==> es[j].nextPtr == At(es, if j == i - 1 then i + 1 else j + 1)
    requires forall j, k :: 0 <= j < k < |es| ==> es[j] != es[k]
    ensures Linked(rest) && At(rest, 0) == At(es, if i == 0 then 1 else 0)
  {
    forall j | 0 <= j < |rest| ensures rest[j].nextPtr == At(rest, j + 1) {
      NextKept(es, i, rest, j);
    }
  }

  lemma NextKept(es: seq<Element>, i: nat, rest: seq<Element>, j: nat)
    requires i < |es| == |rest| + 1 && j < |rest|
    requires forall k :: 0 <= k < |rest| ==> rest[k] == es[if k < i then k else k + 1]
    ensures At(rest, j + 1) == At(es, if j + 1 < i then j + 1 else j + 2)
  {}
}

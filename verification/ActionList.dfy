/**
 The list of action handler clients: an intrusive list of nodes, each tying an event of a trigger
 to an action of a handler. Handlers and triggers may be destroyed at any time. A condition is a
 handler in front of another one; it is owned by its node and destroyed together with it, which in
 turn affects other nodes.
 */
module ActionList {
  import opened Common

  /** Handlers and triggers are named by numbers, as pointers name them. */
  datatype Handler = Plain | Condition(inner: Option<nat>)

  type Handlers = map<nat, Handler>

  datatype Entry = Entry(trigger: nat, client: Option<nat>, onEvent: nat, action: nat,
                         enabled: bool, alwaysEnabled: bool)

  // ----- what destruction does to the entries

  /** The handler behind a client: for a condition the one it guards. */
  function RealClient(alive: Handlers, c: nat): nat
    requires c in alive
  {
    if alive[c].Condition? && alive[c].inner.Some? then alive[c].inner.value else c
  }

  /** While a handler is being destroyed, its own dynamic type is already the base class. */
  predicate HandledBy(alive: Handlers, client: Option<nat>, dying: nat) {
    client.Some? && (client.value == dying
                     || (client.value in alive && RealClient(alive, client.value) == dying))
  }

  function Forget(alive: Handlers, e: Entry, dying: nat): Entry {
    if HandledBy(alive, e.client, dying) then e.(client := None) else e
  }

  function ForgetAll(alive: Handlers, entries: seq<Entry>, dying: nat): (r: seq<Entry>)
    ensures |r| == |entries|
    ensures forall i :: 0 <= i < |entries| ==> r[i] == Forget(alive, entries[i], dying)
  {
    seq(|entries|, i requires 0 <= i < |entries| => Forget(alive, entries[i], dying))
  }

  datatype World = World(entries: seq<Entry>, alive: Handlers)

  function DestroyHandler(w: World, h: nat): World {
    World(ForgetAll(w.alive, w.entries, h), w.alive - {h})
  }

  function RemoveAt<T>(s: seq<T>, i: nat): seq<T>
    requires i < |s|
  {
    s[..i] + s[i + 1..]
  }

  predicate Owns(w: World, i: nat)
    requires i < |w.entries|
  {
    var c := w.entries[i].client;
    c.Some? && c.value in w.alive && w.alive[c.value].Condition?
  }

  /** Deleting a node deletes the condition it holds. */
  function DeleteNode(w: World, i: nat): (r: World)
    requires i < |w.entries|
    ensures |r.entries| == |w.entries| - 1
  {
    var v := if Owns(w, i) then DestroyHandler(w, w.entries[i].client.value) else w;
    v.(entries := RemoveAt(v.entries, i))
  }

  /** The first entry of a trigger, or the length. */
  function FirstOf(entries: seq<Entry>, trigger: nat): (i: nat)
    ensures i <= |entries|
    ensures forall k :: 0 <= k < i ==> entries[k].trigger != trigger
    ensures i < |entries| ==> entries[i].trigger == trigger
  {
    if entries == [] || entries[0].trigger == trigger then 0
    else
      var i := FirstOf(entries[1..], trigger);
      assert forall k :: 1 <= k < i + 1 ==> entries[k] == entries[1..][k - 1];
      i + 1
  }

  /** Deleting node after node, from the head of the list again after each. */
  function DestroyTrigger(w: World, trigger: nat): World
    decreases |w.entries|
  {
    var i := FirstOf(w.entries, trigger);
    if i == |w.entries| then w else DestroyTrigger(DeleteNode(w, i), trigger)
  }

  // ----- safety

  /** Every client is null or alive, and so is the handler behind it. */
  ghost predicate Safe(w: World) {
    forall e <- w.entries :: e.client.Some? ==>
      e.client.value in w.alive && RealClient(w.alive, e.client.value) in w.alive
  }

  lemma DestroyHandlerIsSafe(w: World, h: nat)
    requires Safe(w)
    ensures Safe(DestroyHandler(w, h))
  {
    var v := DestroyHandler(w, h);
    forall e | e in v.entries && e.client.Some?
      ensures e.client.value in v.alive && RealClient(v.alive, e.client.value) in v.alive
    {
      var i :| 0 <= i < |v.entries| && v.entries[i] == e;
      assert w.entries[i] in w.entries && e == w.entries[i];
    }
  }

  lemma DeleteNodeIsSafe(w: World, i: nat)
    requires Safe(w) && i < |w.entries|
    ensures Safe(DeleteNode(w, i))
  {
    var v := if Owns(w, i) then DestroyHandler(w, w.entries[i].client.value) else w;
    if Owns(w, i) {
      DestroyHandlerIsSafe(w, w.entries[i].client.value);
    }
    forall e | e in RemoveAt(v.entries, i) ensures e in v.entries {}
  }

  lemma {:induction false} DestroyTriggerIsSafe(w: World, trigger: nat)
    requires Safe(w)
    ensures Safe(DestroyTrigger(w, trigger))
    decreases |w.entries|
  {
    var i := FirstOf(w.entries, trigger);
    if i < |w.entries| {
      DeleteNodeIsSafe(w, i);
      DestroyTriggerIsSafe(DeleteNode(w, i), trigger);
    }
  }

  datatype Op =
    | AddAction(e: Entry)
    | NewHandler(h: nat, kind: Handler)
    | SetClient(c: nat, h: nat)
    | OnDestroyHandler(h: nat)
    | OnDestroyTrigger(t: nat)

  /** What a program may do: it only passes live handlers. */
  ghost predicate Allowed(w: World, op: Op) {
    match op
    case AddAction(e) =>
      e.client.Some? && e.client.value in w.alive && RealClient(w.alive, e.client.value) in w.alive
    case NewHandler(h, kind) =>
      h !in w.alive && (kind.Condition? ==> kind.inner.None?)
    case SetClient(c, h) =>
      c in w.alive && w.alive[c].Condition? && h in w.alive
    case OnDestroyHandler(h) => true
    case OnDestroyTrigger(t) => true
  }

  function Do(w: World, op: Op): World {
    match op
    case AddAction(e) => w.(entries := w.entries + [e])
    case NewHandler(h, kind) => w.(alive := w.alive[h := kind])
    case SetClient(c, h) => w.(alive := w.alive[c := Condition(Some(h))])
    case OnDestroyHandler(h) => DestroyHandler(w, h)
    case OnDestroyTrigger(t) => DestroyTrigger(w, t)
  }

  ghost predicate AllowedRun(w: World, ops: seq<Op>)
    decreases |ops|
  {
    ops == [] || (Allowed(w, ops[0]) && AllowedRun(Do(w, ops[0]), ops[1..]))
  }

  ghost function Run(w: World, ops: seq<Op>): World
    decreases |ops|
  {
    if ops == [] then w else Run(Do(w, ops[0]), ops[1..])
  }

  /** Over every run: no node ever holds a destroyed handler, nor a condition in front of one. */
  lemma {:induction false} RunIsSafe(w: World, ops: seq<Op>)
    requires Safe(w) && AllowedRun(w, ops)
    ensures Safe(Run(w, ops))
    decreases |ops|
  {
    if ops != [] {
      match ops[0] {
        case OnDestroyHandler(h) => DestroyHandlerIsSafe(w, h);
        case OnDestroyTrigger(t) => DestroyTriggerIsSafe(w, t);
        case _ =>
      }
      RunIsSafe(Do(w, ops[0]), ops[1..]);
    }
  }

  // ----- safety behind conditions

  /** Following the handlers behind conditions n times leads from handler c to handler h. */
  ghost predicate Reaches(alive: Handlers, c: nat, h: nat, n: nat)
    decreases n
  {
    if n == 0 then c == h
    else c in alive && alive[c].Condition? && alive[c].inner.Some? && Reaches(alive, alive[c].inner.value, h, n - 1)
  }

  /** Whatever a call of handler c may go on to is alive: a condition that is met calls the handler
      behind it, which may be a condition again. */
  ghost predicate AllAlive(alive: Handlers, c: nat) {
    forall h, n: nat :: Reaches(alive, c, h, n) ==> h in alive
  }

  ghost predicate Deep(w: World) {
    forall e <- w.entries :: e.client.Some? ==> AllAlive(w.alive, e.client.value)
  }

  lemma DeepIsSafe(w: World)
    requires Deep(w)
    ensures Safe(w)
  {
    forall e | e in w.entries && e.client.Some?
      ensures e.client.value in w.alive && RealClient(w.alive, e.client.value) in w.alive
    {
      var c := e.client.value;
      assert Reaches(w.alive, c, c, 0);
      assert Reaches(w.alive, RealClient(w.alive, c), RealClient(w.alive, c), 0);
      if RealClient(w.alive, c) != c {
        assert Reaches(w.alive, c, RealClient(w.alive, c), 1);
      }
    }
  }

  /** Handler h stands behind a condition that stands behind a condition that starts with c. */
  ghost predicate Behind(alive: Handlers, c: nat, h: nat) {
    exists n: nat :: n >= 2 && Reaches(alive, c, h, n)
  }

  /** What may be destroyed: a handler that no other node reaches through two or more conditions. */
  ghost predicate Uncovered(w: World, h: nat) {
    forall e <- w.entries :: e.client.Some? && !HandledBy(w.alive, e.client, h) ==> !Behind(w.alive, e.client.value, h)
  }

  lemma {:induction false} FewerReach(alive: Handlers, h: nat, c: nat, g: nat, n: nat)
    requires Reaches(alive - {h}, c, g, n)
    ensures Reaches(alive, c, g, n)
    decreases n
  {
    if n > 0 {
      FewerReach(alive, h, alive[c].inner.value, g, n - 1);
    }
  }

  /** The first time the chain arrives at h it has not passed h. */
  lemma {:induction false} StillReaches(alive: Handlers, h: nat, c: nat, n: nat)
    requires Reaches(alive, c, h, n)
    ensures exists m: nat :: Reaches(alive - {h}, c, h, m)
    decreases n
  {
    if c == h {
      assert Reaches(alive - {h}, c, h, 0);
    } else {
      var d := alive[c].inner.value;
      StillReaches(alive, h, d, n - 1);
      var m: nat :| Reaches(alive - {h}, d, h, m);
      assert Reaches(alive - {h}, c, h, m + 1);
    }
  }

  /** A shorter way makes the node one of those the destructor clears. */
  lemma NearIsHandled(alive: Handlers, c: nat, h: nat, n: nat)
    requires Reaches(alive, c, h, n) && !Behind(alive, c, h)
    ensures HandledBy(alive, Some(c), h)
  {
    if n == 1 {
      assert Reaches(alive, alive[c].inner.value, h, 0);
    }
  }

  /** Exactly when destroying a handler leaves no way to it. */
  lemma DestroyHandlerIsDeepIff(w: World, h: nat)
    requires Deep(w)
    ensures Deep(DestroyHandler(w, h)) <==> Uncovered(w, h)
  {
    hide Reaches;
    var v := DestroyHandler(w, h);
    if Uncovered(w, h) {
      forall e, g, n: nat | e in v.entries && e.client.Some? && Reaches(v.alive, e.client.value, g, n)
        ensures g in v.alive
      {
        var i :| 0 <= i < |v.entries| && v.entries[i] == e;
        assert e == w.entries[i] && e in w.entries;
        FewerReach(w.alive, h, e.client.value, g, n);
        if g == h {
          NearIsHandled(w.alive, e.client.value, h, n);
        }
      }
    } else {
      var e :| && e in w.entries && e.client.Some?
               && !HandledBy(w.alive, e.client, h) && Behind(w.alive, e.client.value, h);
      var i :| 0 <= i < |w.entries| && w.entries[i] == e;
      assert v.entries[i] == e && e in v.entries;
      var n: nat :| Reaches(w.alive, e.client.value, h, n);
      StillReaches(w.alive, h, e.client.value, n);
    }
  }

  /** The same for a node with its condition. */
  lemma DeleteNodeIsDeepIff(w: World, i: nat)
    requires Deep(w) && i < |w.entries|
    ensures Deep(DeleteNode(w, i)) <==> (Owns(w, i) ==> Uncovered(w, w.entries[i].client.value))
  {
    hide AllAlive, Uncovered, Forget;
    var v := if Owns(w, i) then DestroyHandler(w, w.entries[i].client.value) else w;
    StayOrGo(v.entries, i);
    if Owns(w, i) {
      DestroyHandlerIsDeepIff(w, w.entries[i].client.value);
      assert v.entries[i].client == None by {
        ForgetOwn(w.alive, w.entries[i]);
      }
    }
  }

  lemma ForgetOwn(alive: Handlers, e: Entry)
    requires e.client.Some?
    ensures Forget(alive, e, e.client.value).client == None
  {}

  lemma StayOrGo<T>(s: seq<T>, i: nat)
    requires i < |s|
    ensures forall x :: x in s <==> x in RemoveAt(s, i) || x == s[i]
  {
    assert s == s[..i] + [s[i]] + s[i + 1..];
  }

  /** The nested world is within the rules of a program, and the destroyed handler is in reach. */
  lemma NestedConditionsAreNotCovered()
    ensures var ops := [NewHandler(3, Plain), NewHandler(2, Condition(None)), SetClient(2, 3),
                        NewHandler(1, Condition(None)), SetClient(1, 2),
                        AddAction(Entry(0, Some(1), 0, 0, true, false)), OnDestroyHandler(3)];
            var w := World([], map[]);
            AllowedRun(w, ops) && Safe(Run(w, ops)) && !Deep(Run(w, ops))
  {
    var e := Entry(0, Some(1), 0, 0, true, false);
    var ops := [NewHandler(3, Plain), NewHandler(2, Condition(None)), SetClient(2, 3),
                NewHandler(1, Condition(None)), SetClient(1, 2), AddAction(e), OnDestroyHandler(3)];
    var ws := [World([], map[]),
               World([], map[3 := Plain]),
               World([], map[2 := Condition(None), 3 := Plain]),
               World([], map[2 := Condition(Some(3)), 3 := Plain]),
               World([], map[1 := Condition(None), 2 := Condition(Some(3)), 3 := Plain]),
               World([], map[1 := Condition(Some(2)), 2 := Condition(Some(3)), 3 := Plain]),
               World([e], map[1 := Condition(Some(2)), 2 := Condition(Some(3)), 3 := Plain]),
               World([e], map[1 := Condition(Some(2)), 2 := Condition(Some(3))])];
    RunThrough(ws, ops);
    RunIsSafe(ws[0], ops);
    ChainOfTwo(ws[7].alive, 1, 2, 3);
    assert e in ws[7].entries;
  }

  lemma ChainOfTwo(alive: Handlers, a: nat, b: nat, c: nat)
    requires a in alive && alive[a] == Condition(Some(b)) && b in alive && alive[b] == Condition(Some(c))
    ensures Reaches(alive, a, c, 2)
  {
    assert Reaches(alive, c, c, 0);
    assert Reaches(alive, b, c, 1);
  }

  lemma {:induction false} RunThrough(ws: seq<World>, ops: seq<Op>)
    requires |ws| == |ops| + 1
    requires forall k :: 0 <= k < |ops| ==> Allowed(ws[k], ops[k]) && Do(ws[k], ops[k]) == ws[k + 1]
    ensures AllowedRun(ws[0], ops) && Run(ws[0], ops) == ws[|ops|]
    decreases |ops|
  {
    hide Allowed, Do;
    if ops != [] {
      RunThrough(ws[1..], ops[1..]);
    }
  }

  // ----- the rule that keeps a program clear of this

  /** No condition is put in front of a condition, nor a node tied to a condition that stands in
      front of one. */
  ghost predicate Flat(w: World, op: Op) {
    match op
    case SetClient(c, h) => h in w.alive && w.alive[h].Plain?
    case AddAction(e) => e.client.Some? ==> FrontsPlain(w.alive, e.client.value)
    case _ => true
  }

  ghost predicate FrontsPlain(alive: Handlers, c: nat) {
    c in alive && (alive[c].Condition? && alive[c].inner.Some? ==>
                     alive[c].inner.value in alive && alive[alive[c].inner.value].Plain?)
  }

  ghost predicate FlatRun(w: World, ops: seq<Op>)
    decreases |ops|
  {
    ops == [] || (Flat(w, ops[0]) && FlatRun(Do(w, ops[0]), ops[1..]))
  }

  ghost predicate FlatWorld(w: World) {
    forall e <- w.entries :: e.client.Some? ==> FrontsPlain(w.alive, e.client.value)
  }

  lemma FlatIsDeep(w: World)
    requires FlatWorld(w)
    ensures Deep(w)
  {
    forall e, h, n: nat | e in w.entries && e.client.Some? && Reaches(w.alive, e.client.value, h, n)
      ensures h in w.alive
    {
      var c := e.client.value;
      if n >= 2 {
        assert Reaches(w.alive, w.alive[c].inner.value, h, n - 1);
      } else if n == 1 {
        assert Reaches(w.alive, w.alive[c].inner.value, h, 0);
      }
    }
  }

  lemma DestroyHandlerIsFlat(w: World, h: nat)
    requires FlatWorld(w)
    ensures FlatWorld(DestroyHandler(w, h))
  {
    var v := DestroyHandler(w, h);
    forall e | e in v.entries && e.client.Some? ensures FrontsPlain(v.alive, e.client.value) {
      var i :| 0 <= i < |v.entries| && v.entries[i] == e;
      assert w.entries[i] in w.entries && e == w.entries[i];
    }
  }

  lemma {:induction false} DestroyTriggerIsFlat(w: World, trigger: nat)
    requires FlatWorld(w)
    ensures FlatWorld(DestroyTrigger(w, trigger))
    decreases |w.entries|
  {
    var i := FirstOf(w.entries, trigger);
    if i < |w.entries| {
      var v := if Owns(w, i) then DestroyHandler(w, w.entries[i].client.value) else w;
      if Owns(w, i) {
        DestroyHandlerIsFlat(w, w.entries[i].client.value);
      }
      assert forall e <- RemoveAt(v.entries, i) :: e in v.entries;
      DestroyTriggerIsFlat(DeleteNode(w, i), trigger);
    }
  }

  /** Over every run that keeps the rule, nothing that a call may go on to has been destroyed. */
  lemma {:induction false} FlatRunIsDeep(w: World, ops: seq<Op>)
    requires FlatWorld(w) && AllowedRun(w, ops) && FlatRun(w, ops)
    ensures Deep(Run(w, ops))
    decreases |ops|
  {
    if ops == [] {
      FlatIsDeep(w);
    } else {
      match ops[0] {
        case OnDestroyHandler(h) => DestroyHandlerIsFlat(w, h);
        case OnDestroyTrigger(t) => DestroyTriggerIsFlat(w, t);
        case _ =>
      }
      FlatRunIsDeep(Do(w, ops[0]), ops[1..]);
    }
  }

  const REUSING_RUN: seq<Op> := [
    NewHandler(1, Condition(None)), NewHandler(2, Plain), SetClient(1, 2), OnDestroyHandler(2),
    NewHandler(2, Condition(None)), AddAction(Entry(0, Some(1), 0, 0, true, false)), NewHandler(3, Plain),
    SetClient(2, 3), OnDestroyHandler(3)]

  lemma ReusingRunIsAllowed()
    ensures var e := Entry(0, Some(1), 0, 0, true, false);
            && AllowedRun(World([], map[]), REUSING_RUN)
            && Run(World([], map[]), REUSING_RUN) == World([e], map[1 := Condition(Some(2)), 2 := Condition(Some(3))])
  {
    hide AllowedRun, Run, DestroyTrigger;
    var e := Entry(0, Some(1), 0, 0, true, false);
    var ws := [World([], map[]),
               World([], map[1 := Condition(None)]),
               World([], map[1 := Condition(None), 2 := Plain]),
               World([], map[1 := Condition(Some(2)), 2 := Plain]),
               World([], map[1 := Condition(Some(2))]),
               World([], map[1 := Condition(Some(2)), 2 := Condition(None)]),
               World([e], map[1 := Condition(Some(2)), 2 := Condition(None)]),
               World([e], map[1 := Condition(Some(2)), 2 := Condition(None), 3 := Plain]),
               World([e], map[1 := Condition(Some(2)), 2 := Condition(Some(3)), 3 := Plain]),
               World([e], map[1 := Condition(Some(2)), 2 := Condition(Some(3))])];
    RunThrough(ws, REUSING_RUN);
  }

  /** The second half of the rule is needed as soon as addresses are used again: a condition may take
      the place of the handler that stood behind another one. */
  lemma ReusedPlaceIsNotCovered()
    ensures var e := Entry(0, Some(1), 0, 0, true, false);
            && AllowedRun(World([], map[]), REUSING_RUN) && !Deep(Run(World([], map[]), REUSING_RUN))
            && Flat(World([], map[1 := Condition(None), 2 := Plain]), REUSING_RUN[2])
            && Flat(World([e], map[1 := Condition(Some(2)), 2 := Condition(None), 3 := Plain]), REUSING_RUN[7])
  {
    hide AllowedRun, Run;
    var w := Run(World([], map[]), REUSING_RUN);
    ReusingRunIsAllowed();
    ChainOfTwo(w.alive, 1, 2, 3);
    assert Entry(0, Some(1), 0, 0, true, false) in w.entries;
  }

  // ----- which clients are cleared, and which stay

  /** Client c of a node is handler h, or a condition that stands in front of it. */
  ghost predicate Concerns(alive: Handlers, c: nat, h: nat) {
    c == h || (c in alive && alive[c] == Condition(Some(h)))
  }

  /** A node has lost its client exactly if it was handler h or a condition in front of it; nothing else
      of any node has changed. */
  ghost predicate ClientsGone(alive: Handlers, before: seq<Entry>, after: seq<Entry>, h: nat) {
    && |after| == |before|
    && forall i :: 0 <= i < |before| ==>
         var c := before[i].client;
         after[i] == if c.Some? && Concerns(alive, c.value, h) then before[i].(client := None) else before[i]
  }

  lemma ForgetLaw(alive: Handlers, entries: seq<Entry>, h: nat)
    ensures ClientsGone(alive, entries, ForgetAll(alive, entries, h), h)
  {}

  /** After handler h was destroyed, besides, h alone is not alive any more. */
  ghost predicate HandlerGone(w: World, v: World, h: nat) {
    && ClientsGone(w.alive, w.entries, v.entries, h)
    && v.alive == map x | x in w.alive && x != h :: w.alive[x]
  }

  lemma DestroyHandlerLaw(w: World, h: nat)
    ensures HandlerGone(w, DestroyHandler(w, h), h)
  {}

  /** After the i-th node was deleted: a condition it held, and nothing else, was destroyed with it. */
  ghost predicate NodeGone(w: World, v: World, i: nat)
    requires i < |w.entries|
  {
    var c := w.entries[i].client;
    exists u: World ::
      && (if c.Some? && c.value in w.alive && w.alive[c.value].Condition? then HandlerGone(w, u, c.value) else u == w)
      && v.alive == u.alive && i < |u.entries| && v.entries == u.entries[..i] + u.entries[i + 1..]
  }

  lemma DeleteNodeLaw(w: World, i: nat)
    requires i < |w.entries|
    ensures NodeGone(w, DeleteNode(w, i), i)
  {
    var c := w.entries[i].client;
    if Owns(w, i) {
      DestroyHandlerLaw(w, c.value);
    }
  }

  /** After a trigger was destroyed: the handlers destroyed were conditions of its nodes; every such
      condition was, or stood in front of one that was; and a node that is left has lost its client
      exactly if it was one of those destroyed or a condition in front of one. */
  ghost predicate TriggerGone(w: World, v: World, trigger: nat) {
    var left := Others(w.entries, trigger);
    && |v.entries| == |left|
    && (forall h :: h in v.alive ==> h in w.alive && v.alive[h] == w.alive[h])
    && (forall h :: h in w.alive && h !in v.alive ==> w.alive[h].Condition? && Held(w.entries, trigger, h))
    && (forall h :: h in w.alive && w.alive[h].Condition? && Held(w.entries, trigger, h) ==>
          h !in v.alive || exists d :: d in w.alive && d !in v.alive && Concerns(w.alive, h, d))
    && (forall k :: 0 <= k < |left| ==>
          v.entries[k] == if Lost(w, v, left[k].client) then left[k].(client := None) else left[k])
  }

  ghost predicate Held(entries: seq<Entry>, trigger: nat, h: nat) {
    exists i :: 0 <= i < |entries| && entries[i].trigger == trigger && entries[i].client == Some(h)
  }

  ghost predicate Lost(w: World, v: World, client: Option<nat>) {
    client.Some? && exists d :: d in w.alive && d !in v.alive && Concerns(w.alive, client.value, d)
  }

  lemma {:induction false} OthersOfForgetAll(alive: Handlers, entries: seq<Entry>, h: nat, trigger: nat)
    ensures Others(ForgetAll(alive, entries, h), trigger) == ForgetAll(alive, Others(entries, trigger), h)
  {
    if entries != [] {
      var f := ForgetAll(alive, entries, h);
      assert f[1..] == ForgetAll(alive, entries[1..], h);
      OthersOfForgetAll(alive, entries[1..], h, trigger);
    }
  }

  /** What deleting the first node of the trigger does, in the terms of the law. */
  lemma DestroyTriggerLawStep(w: World, i: nat, trigger: nat, v: World)
    requires i < |w.entries| && w.entries[i].trigger == trigger && Owns(w, i)
    requires TriggerGone(DeleteNode(w, i), v, trigger)
    ensures TriggerGone(w, v, trigger)
  {
    var c := w.entries[i].client.value;
    var w1 := DeleteNode(w, i);
    var left, left1 := Others(w.entries, trigger), Others(w1.entries, trigger);
    var f := ForgetAll(w.alive, w.entries, c);
    OthersWithoutOne(f, i, trigger);
    OthersOfForgetAll(w.alive, w.entries, c, trigger);
    assert left1 == ForgetAll(w.alive, left, c);
    assert c in w.alive && c !in v.alive;
    forall h | h in w.alive && h !in v.alive ensures w.alive[h].Condition? && Held(w.entries, trigger, h) {
      if h != c {
        HeldBefore(w, i, trigger, h);
      }
    }
    forall h | h in w.alive && w.alive[h].Condition? && Held(w.entries, trigger, h)
      ensures h !in v.alive || exists d :: d in w.alive && d !in v.alive && Concerns(w.alive, h, d)
    {
      if !Concerns(w.alive, h, c) {
        HeldAfter(w, i, trigger, h);
      }
    }
    forall k | 0 <= k < |left|
      ensures v.entries[k] == if Lost(w, v, left[k].client) then left[k].(client := None) else left[k]
    {
      LostAfter(w, i, v, left[k].client);
    }
  }

  lemma HeldBefore(w: World, i: nat, trigger: nat, h: nat)
    requires i < |w.entries| && Held(DeleteNode(w, i).entries, trigger, h)
    ensures Held(w.entries, trigger, h)
  {
    var v := DeleteNode(w, i);
    var k :| 0 <= k < |v.entries| && v.entries[k].trigger == trigger && v.entries[k].client == Some(h);
    var j := if k < i then k else k + 1;
    assert w.entries[j].trigger == trigger && w.entries[j].client == Some(h);
  }

  lemma HeldAfter(w: World, i: nat, trigger: nat, h: nat)
    requires i < |w.entries| && Owns(w, i) && Held(w.entries, trigger, h)
    requires !Concerns(w.alive, h, w.entries[i].client.value)
    ensures Held(DeleteNode(w, i).entries, trigger, h)
  {
    var v := DeleteNode(w, i);
    var j :| 0 <= j < |w.entries| && w.entries[j].trigger == trigger && w.entries[j].client == Some(h);
    var k := if j < i then j else j - 1;
    assert v.entries[k].trigger == trigger && v.entries[k].client == Some(h);
  }

  lemma LostAfter(w: World, i: nat, v: World, client: Option<nat>)
    requires i < |w.entries| && Owns(w, i)
    requires var w1 := DeleteNode(w, i); forall h :: h in v.alive ==> h in w1.alive
    ensures var c := w.entries[i].client.value;
            var gone := client.Some? && Concerns(w.alive, client.value, c);
            Lost(w, v, client) <==> gone || Lost(DeleteNode(w, i), v, client)
  {
    var c, w1 := w.entries[i].client.value, DeleteNode(w, i);
    assert c in w.alive && c !in v.alive;
    if client.Some? && Lost(w, v, client) && !Concerns(w.alive, client.value, c) {
      var d :| d in w.alive && d !in v.alive && Concerns(w.alive, client.value, d);
      assert d in w1.alive && d !in v.alive && Concerns(w1.alive, client.value, d);
    }
  }

  lemma {:induction false} DestroyTriggerLaw(w: World, trigger: nat)
    ensures TriggerGone(w, DestroyTrigger(w, trigger), trigger)
    decreases |w.entries|
  {
    var i := FirstOf(w.entries, trigger);
    if i == |w.entries| {
      OthersOfOthers(w.entries, trigger);
    } else {
      DestroyTriggerLaw(DeleteNode(w, i), trigger);
      if Owns(w, i) {
        DestroyTriggerLawStep(w, i, trigger, DestroyTrigger(w, trigger));
      } else {
        OthersWithoutOne(w.entries, i, trigger);
        PlainNodeGone(w, i, trigger, DestroyTrigger(w, trigger));
      }
    }
  }

  /** A node without a condition takes nothing with it. */
  lemma PlainNodeGone(w: World, i: nat, trigger: nat, v: World)
    requires i < |w.entries| && w.entries[i].trigger == trigger && !Owns(w, i)
    requires TriggerGone(DeleteNode(w, i), v, trigger)
    requires Others(DeleteNode(w, i).entries, trigger) == Others(w.entries, trigger)
    ensures TriggerGone(w, v, trigger)
  {
    hide Others, Concerns, Forget;
    var w1 := DeleteNode(w, i);
    forall h | Held(w1.entries, trigger, h) ensures Held(w.entries, trigger, h) {
      HeldBefore(w, i, trigger, h);
    }
    forall h | h in w.alive && w.alive[h].Condition? && Held(w.entries, trigger, h)
      ensures Held(w1.entries, trigger, h)
    {
      var j :| 0 <= j < |w.entries| && w.entries[j].trigger == trigger && w.entries[j].client == Some(h);
      var k := if j < i then j else j - 1;
      assert w1.entries[k].trigger == trigger && w1.entries[k].client == Some(h);
    }
  }

  // ----- destroying a trigger is exact

  /** The entry without its client: what deletions of other nodes leave alone. */
  function Tie(e: Entry): Entry {
    e.(client := None)
  }

  function Others(entries: seq<Entry>, trigger: nat): (r: seq<Entry>)
  {
    if entries == [] then []
    else (if entries[0].trigger == trigger then [] else [entries[0]]) + Others(entries[1..], trigger)
  }

  function Ties(entries: seq<Entry>): (r: seq<Entry>)
    ensures |r| == |entries|
    ensures forall i :: 0 <= i < |entries| ==> r[i] == Tie(entries[i])
  {
    seq(|entries|, i requires 0 <= i < |entries| => Tie(entries[i]))
  }

  lemma {:induction false} OthersAppend(a: seq<Entry>, b: seq<Entry>, trigger: nat)
    ensures Others(a + b, trigger) == Others(a, trigger) + Others(b, trigger)
  {
    if a == [] {
      assert a + b == b;
    } else {
      assert (a + b)[1..] == a[1..] + b;
      OthersAppend(a[1..], b, trigger);
    }
  }

  lemma {:induction false} OthersOfOthers(entries: seq<Entry>, trigger: nat)
    requires forall e <- entries :: e.trigger != trigger
    ensures Others(entries, trigger) == entries
  {
    if entries != [] {
      OthersOfOthers(entries[1..], trigger);
      assert [entries[0]] + entries[1..] == entries;
    }
  }

  lemma OthersWithoutOne(entries: seq<Entry>, i: nat, trigger: nat)
    requires i < |entries| && entries[i].trigger == trigger
    ensures Others(RemoveAt(entries, i), trigger) == Others(entries, trigger)
  {
    OthersAppend(entries[..i], entries[i + 1..], trigger);
    OthersAppend(entries[..i], [entries[i]], trigger);
    OthersAppend(entries[..i] + [entries[i]], entries[i + 1..], trigger);
    assert entries == entries[..i] + [entries[i]] + entries[i + 1..];
  }

  lemma TiesOfDeleteNode(w: World, i: nat)
    requires i < |w.entries|
    ensures Ties(DeleteNode(w, i).entries) == RemoveAt(Ties(w.entries), i)
  {}

  /** Destroying a trigger removes exactly its own nodes and keeps the others in order, as they were
      except for their clients. */
  lemma {:induction false} DestroyTriggerExact(w: World, trigger: nat)
    ensures Ties(DestroyTrigger(w, trigger).entries) == Others(Ties(w.entries), trigger)
    decreases |w.entries|
  {
    var i := FirstOf(w.entries, trigger);
    if i == |w.entries| {
      OthersOfOthers(Ties(w.entries), trigger);
    } else {
      TiesOfDeleteNode(w, i);
      OthersWithoutOne(Ties(w.entries), i, trigger);
      DestroyTriggerExact(DeleteNode(w, i), trigger);
    }
  }

  // ----- the list

  class ActionHandlerClient {
    var trigger: nat
    var client: Option<nat>
    var next: ActionHandlerClient?
    var onEvent: nat
    var action: nat
    var enabled: bool
    var alwaysEnabled: bool

    constructor ()
      ensures next == null && client == None && enabled && !alwaysEnabled
    {
      trigger, client, next, onEvent, action, enabled, alwaysEnabled := 0, None, null, 0, 0, true, false;
    }

    ghost function View(): Entry
      reads `trigger, `client, `onEvent, `action, `enabled, `alwaysEnabled
    {
      Entry(trigger, client, onEvent, action, enabled, alwaysEnabled)
    }

    method Tie(t: nat, c: nat, event: nat, a: nat, always: bool)
      requires enabled && !alwaysEnabled
      modifies `trigger, `client, `onEvent, `action, `enabled, `alwaysEnabled
      ensures View() == Entry(t, Some(c), event, a, true, always)
    {
      trigger, client, onEvent, action := t, Some(c), event, a;
      if always {
        alwaysEnabled, enabled := true, true;
      }
    }
  }

  /** The i-th node, or null behind the last. */
  ghost function At(nodes: seq<ActionHandlerClient>, i: nat): ActionHandlerClient? {
    if i < |nodes| then nodes[i] else null
  }

  ghost predicate Linked(nodes: seq<ActionHandlerClient>)
    reads nodes`next
  {
    && (forall i :: 0 <= i < |nodes| ==> nodes[i].next == At(nodes, i + 1))
    && (forall i, j :: 0 <= i < j < |nodes| ==> nodes[i] != nodes[j])
  }

  lemma LinkedWithout(ns: seq<ActionHandlerClient>, i: nat)
    requires i < |ns|
    requires forall j :: 0 <= j < |ns| ==> ns[j].next == At(ns, if j == i - 1 then i + 1 else j + 1)
    requires forall j, k :: 0 <= j < k < |ns| ==> ns[j] != ns[k]
    ensures Linked(RemoveAt(ns, i)) && At(RemoveAt(ns, i), 0) == At(ns, if i == 0 then 1 else 0)
  {
    WithoutAt(ns, i);
    LinkedIfKept(ns, i, RemoveAt(ns, i));
  }

  lemma WithoutAt<T>(s: seq<T>, i: nat)
    requires i < |s|
    ensures var rest := RemoveAt(s, i);
            |rest| == |s| - 1 && forall j :: 0 <= j < |rest| ==> rest[j] == s[if j < i then j else j + 1]
  {}

  lemma LinkedIfKept(ns: seq<ActionHandlerClient>, i: nat, rest: seq<ActionHandlerClient>)
    requires i < |ns| == |rest| + 1
    requires forall j :: 0 <= j < |rest| ==> rest[j] == ns[if j < i then j else j + 1]
    requires forall j :: 0 <= j < |ns| ==> ns[j].next == At(ns, if j == i - 1 then i + 1 else j + 1)
    requires forall j, k :: 0 <= j < k < |ns| ==> ns[j] != ns[k]
    ensures Linked(rest) && At(rest, 0) == At(ns, if i == 0 then 1 else 0)
  {
    forall j | 0 <= j < |rest| ensures rest[j].next == At(rest, j + 1) {
      NextKept(ns, i, rest, j);
    }
  }

  lemma NextKept(ns: seq<ActionHandlerClient>, i: nat, rest: seq<ActionHandlerClient>, j: nat)
    requires i < |ns| == |rest| + 1 && j < |rest|
    requires forall k :: 0 <= k < |rest| ==> rest[k] == ns[if k < i then k else k + 1]
    ensures At(rest, j + 1) == At(ns, if j + 1 < i then j + 1 else j + 2)
  {}

  class LocalActions {
    var begin: ActionHandlerClient?
    ghost var nodes: seq<ActionHandlerClient>
    var alive: Handlers
    /** The calls of handleAction: handler, event and action. */
    var handled: seq<(nat, nat, nat)>

    ghost predicate Valid()
      reads `begin, `nodes, nodes`next
    {
      begin == At(nodes, 0) && Linked(nodes)
    }

    ghost function Entries(): (r: seq<Entry>)
      reads `nodes, nodes
      ensures |r| == |nodes| && forall i :: 0 <= i < |r| ==> r[i] == nodes[i].View()
    {
      var ns := nodes; seq(|ns|, i requires 0 <= i < |ns| reads ns => ns[i].View())
    }

    ghost function View(): World
      reads `nodes, `alive, nodes
      ensures View().entries == Entries() && View().alive == alive
    {
      World(Entries(), alive)
    }

    /** Appends a node for a live client. */
    method AddAction(trigger: nat, action: nat, client: nat, event: nat, always: bool)
      requires Valid() && client in alive
      modifies this, nodes
      ensures Valid() && alive == old(alive)
      ensures Entries() == old(Entries()) + [Entry(trigger, Some(client), event, action, true, always)]
      ensures forall n <- nodes :: n in old(nodes) || fresh(n)
    {
      hide Valid, Linked, Entries, At, ActionHandlerClient.View;
      ghost var entries, ns := Entries(), nodes;
      var node := new ActionHandlerClient();
      Append(node);
      assert forall i :: 0 <= i < |ns| ==> nodes[i] == ns[i] && nodes[i] != node;
      node.Tie(trigger, client, event, action, always);
      EntriesWith(entries);
    }

    lemma EntriesWith(entries: seq<Entry>)
      requires |nodes| == |entries| + 1
      requires forall i :: 0 <= i < |entries| ==> nodes[i].View() == entries[i]
      ensures Entries() == entries + [nodes[|entries|].View()]
    {}

    /** The constructor of a node links it in at the end. */
    method Append(node: ActionHandlerClient)
      requires Valid() && node !in nodes && node.next == null
      modifies this`begin, this`nodes, nodes`next
      ensures Valid() && nodes == old(nodes) + [node]
    {
      if begin == null {
        begin := node;
      } else {
        var ptr := begin;
        ghost var i := 0;
        while ptr.next != null
          invariant i < |nodes| && ptr == nodes[i]
          decreases |nodes| - i
        {
          ptr := ptr.next;
          i := i + 1;
        }
        assert i == |nodes| - 1;
        ptr.next := node;
      }
      nodes := nodes + [node];
    }

    /** Clears the client of every node behind which the dying handler stands. */
    method NullifyActionsHandledBy(h: nat)
      requires Valid()
      modifies nodes`client
      ensures Valid() && Entries() == ForgetAll(alive, old(Entries()), h)
      ensures ClientsGone(alive, old(Entries()), Entries(), h)
    {
      hide ClientsGone, Entries, Forget, ForgetAll, HandledBy, Concerns, ActionHandlerClient.View;
      ForgetLaw(alive, Entries(), h);
      var ptr := begin;
      ghost var before := Entries();
      ghost var i := 0;
      while ptr != null
        invariant i <= |nodes| && ptr == At(nodes, i)
        invariant forall k :: 0 <= k < i ==> nodes[k].View() == Forget(alive, before[k], h)
        invariant forall k :: i <= k < |nodes| ==> nodes[k].View() == before[k]
        decreases |nodes| - i
      {
        assert forall k :: 0 <= k < |nodes| && k != i ==> nodes[k] != ptr;
        Clear(ptr, h);
        ptr := ptr.next;
        i := i + 1;
      }
      EntriesAre(ForgetAll(alive, before, h));
    }

    method Clear(ptr: ActionHandlerClient, h: nat)
      modifies ptr`client
      ensures ptr.View() == Forget(alive, old(ptr.View()), h)
    {
      if ptr.client.Some? {
        if ptr.client.value == h || (ptr.client.value in alive && RealClient(alive, ptr.client.value) == h) {
          ptr.client := None;
        }
      }
    }

    lemma EntriesAre(entries: seq<Entry>)
      requires |nodes| == |entries| && forall i :: 0 <= i < |entries| ==> nodes[i].View() == entries[i]
      ensures Entries() == entries
    {}

    /** The destructor of a handler. */
    method Destroy(h: nat)
      requires Valid()
      modifies this`alive, nodes`client
      ensures Valid() && View() == DestroyHandler(old(View()), h)
      ensures HandlerGone(old(View()), View(), h)
    {
      DestroyHandlerLaw(View(), h);
      hide HandlerGone;
      NullifyActionsHandledBy(h);
      alive := alive - {h};
    }

    method Unlink(ptr: ActionHandlerClient, ghost i: nat)
      requires Valid() && i < |nodes| && nodes[i] == ptr
      modifies this`begin, this`nodes, nodes`next
      ensures Valid() && nodes == RemoveAt(old(nodes), i)
      ensures Entries() == RemoveAt(old(Entries()), i)
    {
      hide Entries, ActionHandlerClient.View, At;
      ghost var entries, ns := Entries(), nodes;
      BypassNode(ptr, i);
      assert forall k :: 0 <= k < |ns| ==> ns[k].View() == entries[k];
      hide Linked;
      LinkedWithout(ns, i);
      nodes := RemoveAt(ns, i);
      EntriesWithout(entries, i);
    }

    /** Whatever pointed to the node now points to the one behind it. */
    method BypassNode(ptr: ActionHandlerClient, ghost i: nat)
      requires Valid() && i < |nodes| && nodes[i] == ptr
      modifies this`begin, nodes`next
      ensures begin == At(nodes, if i == 0 then 1 else 0)
      ensures forall j :: 0 <= j < |nodes| ==> nodes[j].next == At(nodes, if j == i - 1 then i + 1 else j + 1)
    {
      if begin == ptr {
        assert i == 0;
        begin := ptr.next;
      } else {
        var p := Predecessor(ptr, i);
        p.next := p.next.next;
      }
    }

    method Predecessor(ptr: ActionHandlerClient, ghost i: nat) returns (p: ActionHandlerClient)
      requires Valid() && 0 < i < |nodes| && nodes[i] == ptr
      ensures p == nodes[i - 1]
    {
      p := begin;
      ghost var k := 0;
      while p.next != ptr
        invariant k < i && p == nodes[k]
        decreases i - k
      {
        p := p.next;
        k := k + 1;
      }
      assert nodes[k + 1] == ptr && k + 1 == i;
    }

    /** The destructor of a node. */
    method Delete(ptr: ActionHandlerClient, ghost i: nat)
      requires Valid() && i < |nodes| && nodes[i] == ptr
      modifies this`begin, this`nodes, this`alive, nodes
      ensures Valid() && |nodes| == |old(nodes)| - 1 && forall n <- nodes :: n in old(nodes)
      ensures View() == DeleteNode(old(View()), i) && NodeGone(old(View()), View(), i)
    {
      hide *;
      DeleteNodeLaw(View(), i);
      DeleteCondition(ptr, i);
      ghost var v, ns := View(), nodes;
      Unlink(ptr, i);
      DeleteNodeIs(old(View()), v, View(), i);
      assert forall n <- nodes :: n in ns by {
        InRemoveAt(ns, i);
      }
    }

    /** Entries after the node was taken out, the nodes themselves unchanged. */
    lemma EntriesWithout(entries: seq<Entry>, i: nat)
      requires i < |entries| && |nodes| == |entries| - 1
      requires forall k :: 0 <= k < |nodes| ==> nodes[k].View() == entries[if k < i then k else k + 1]
      ensures Entries() == RemoveAt(entries, i)
    {}

    method DeleteCondition(ptr: ActionHandlerClient, ghost i: nat)
      requires Valid() && i < |nodes| && nodes[i] == ptr
      modifies this`alive, nodes`client
      ensures Valid()
      ensures var w := old(View());
              View() == if Owns(w, i) then DestroyHandler(w, w.entries[i].client.value) else w
    {
      hide Linked, At, Valid;
      if ptr.client.Some? && ptr.client.value in alive && alive[ptr.client.value].Condition? {
        Destroy(ptr.client.value);
        assert Entries()[i].client == None;
        ptr.client := None;
      }
    }

    /** The destructor of a trigger. */
    method DeleteActionsTriggeredBy(trigger: nat)
      requires Valid()
      modifies this`begin, this`nodes, this`alive, nodes
      ensures Valid() && View() == DestroyTrigger(old(View()), trigger)
      ensures TriggerGone(old(View()), View(), trigger)
    {
      hide DestroyTrigger, Linked, Valid, Entries, View, TriggerGone;
      DestroyTriggerLaw(View(), trigger);
      var ptr := begin;
      ghost var i: nat := 0;
      BeginIsFirst();
      while ptr != null
        invariant Valid() && i <= |nodes| && ptr == At(nodes, i)
        invariant forall k :: 0 <= k < |nodes| ==> nodes[k] in old(nodes)
        invariant NoneBefore(i, trigger)
        invariant DestroyTrigger(View(), trigger) == DestroyTrigger(old(View()), trigger)
        decreases |nodes|, |nodes| - i
      {
        ptr, i := Visit(ptr, i, trigger);
      }
      DestroyNone(View(), trigger);
    }

    ghost predicate NoneBefore(i: nat, trigger: nat)
      reads `nodes, nodes
    {
      forall k :: 0 <= k < i && k < |nodes| ==> Entries()[k].trigger != trigger
    }

    lemma BeginIsFirst()
      requires Valid()
      ensures begin == At(nodes, 0)
    {}

    /** One round of that loop: a matching node is deleted and the walk starts again at the head. */
    method Visit(ptr: ActionHandlerClient, ghost i: nat, trigger: nat)
      returns (next: ActionHandlerClient?, ghost j: nat)
      requires Valid() && i < |nodes| && ptr == nodes[i] && NoneBefore(i, trigger)
      modifies this`begin, this`nodes, this`alive, nodes
      ensures Valid() && j <= |nodes| && next == At(nodes, j) && NoneBefore(j, trigger)
      ensures forall k :: 0 <= k < |nodes| ==> nodes[k] in old(nodes)
      ensures DestroyTrigger(View(), trigger) == DestroyTrigger(old(View()), trigger)
      ensures |nodes| < |old(nodes)| || (|nodes| == |old(nodes)| && j > i)
    {
      hide DestroyTrigger, DeleteNode, FirstOf;
      next := ptr.next;
      assert ptr.trigger == Entries()[i].trigger;
      if ptr.trigger == trigger {
        DestroyFirst(View(), i, trigger);
        Delete(ptr, i);
        return begin, 0;
      }
      return next, i + 1;
    }

    /** Calls the handlers of an event, in the order of the list. In a deep world each is alive, and so
        is everything that conditions pass the call on to. */
    method RunAction(trigger: nat, event: nat)
      requires Valid()
      modifies this`handled
      ensures handled == old(handled) + Calls(Entries(), trigger, event)
      ensures CallsInOrder(Entries(), trigger, event, handled[|old(handled)|..])
      ensures Deep(View()) ==> forall c <- Calls(Entries(), trigger, event) :: c.0 in alive && AllAlive(alive, c.0)
    {
      ghost var entries := Entries();
      if Deep(View()) {
        CallsAreSafe(View(), entries, trigger, event);
      }
      CallsLaw(entries, trigger, event);
      hide Deep, AllAlive, Valid, Calls, CallsInOrder, Entries, View;
      Walk(trigger, event);
    }

    method Walk(trigger: nat, event: nat)
      requires Valid()
      modifies this`handled
      ensures handled == old(handled) + Calls(Entries(), trigger, event)
    {
      hide Calls;
      ghost var entries := Entries();
      var ptr := begin;
      ghost var i := 0;
      assert entries[0..] == entries;
      while ptr != null
        invariant i <= |nodes| && ptr == At(nodes, i)
        invariant handled + Calls(entries[i..], trigger, event) == old(handled) + Calls(entries, trigger, event)
        decreases |nodes| - i
      {
        CallsStep(handled, entries, i, trigger, event);
        assert ptr.View() == entries[i];
        if ptr.client.Some? && ptr.trigger == trigger && ptr.onEvent == event && ptr.enabled {
          handled := handled + [(ptr.client.value, event, ptr.action)];
        }
        ptr := ptr.next;
        i := i + 1;
      }
      CallsEnd(handled, entries, i, trigger, event);
    }
  }

  lemma CallsStep(handled: seq<(nat, nat, nat)>, entries: seq<Entry>, i: nat, trigger: nat, event: nat)
    requires i < |entries|
    ensures var e := entries[i];
            var more := if e.client.Some? && e.trigger == trigger && e.onEvent == event && e.enabled
                        then handled + [(e.client.value, event, e.action)] else handled;
            handled + Calls(entries[i..], trigger, event) == more + Calls(entries[i + 1..], trigger, event)
  {
    assert entries[i..][0] == entries[i] && entries[i..][1..] == entries[i + 1..];
  }

  lemma CallsEnd(handled: seq<(nat, nat, nat)>, entries: seq<Entry>, i: nat, trigger: nat, event: nat)
    requires i == |entries|
    ensures handled + Calls(entries[i..], trigger, event) == handled
  {}

  lemma DeleteNodeIs(w: World, v: World, r: World, i: nat)
    requires i < |w.entries|
    requires v == if Owns(w, i) then DestroyHandler(w, w.entries[i].client.value) else w
    requires r.entries == RemoveAt(v.entries, i) && r.alive == v.alive
    ensures r == DeleteNode(w, i)
  {}

  lemma InRemoveAt<T>(s: seq<T>, i: nat)
    requires i < |s|
    ensures |RemoveAt(s, i)| == |s| - 1
    ensures forall x <- RemoveAt(s, i) :: x in s
  {}

  lemma DestroyFirst(w: World, i: nat, trigger: nat)
    requires i < |w.entries| && w.entries[i].trigger == trigger
    requires forall k :: 0 <= k < i ==> w.entries[k].trigger != trigger
    ensures DestroyTrigger(w, trigger) == DestroyTrigger(DeleteNode(w, i), trigger)
  {
    assert FirstOf(w.entries, trigger) == i;
  }

  lemma DestroyNone(w: World, trigger: nat)
    requires forall k :: 0 <= k < |w.entries| ==> w.entries[k].trigger != trigger
    ensures DestroyTrigger(w, trigger) == w
  {
    assert FirstOf(w.entries, trigger) == |w.entries|;
  }

  function Calls(entries: seq<Entry>, trigger: nat, event: nat): seq<(nat, nat, nat)> {
    if entries == [] then []
    else
      var e := entries[0];
      (if e.client.Some? && e.trigger == trigger && e.onEvent == event && e.enabled
       then [(e.client.value, event, e.action)] else [])
      + Calls(entries[1..], trigger, event)
  }

  /** The calls go to the nodes of the trigger and the event that have a client and are enabled, to each
      of them once, in the order of the list, and each carries the event and the action of its node. */
  ghost predicate CallsInOrder(entries: seq<Entry>, trigger: nat, event: nat, calls: seq<(nat, nat, nat)>) {
    exists at: seq<nat> :: CalledAt(entries, trigger, event, calls, at)
  }

  ghost predicate CalledAt(entries: seq<Entry>, trigger: nat, event: nat, calls: seq<(nat, nat, nat)>, at: seq<nat>) {
    && |at| == |calls|
    && (forall i, j :: 0 <= i < j < |at| ==> at[i] < at[j])
    && (forall k :: 0 <= k < |at| ==> CallOf(entries, event, at[k], calls[k]))
    && forall i :: 0 <= i < |entries| ==>
         (i in at <==>
          && entries[i].client.Some? && entries[i].trigger == trigger
          && entries[i].onEvent == event && entries[i].enabled)
  }

  ghost predicate CallOf(entries: seq<Entry>, event: nat, k: nat, call: (nat, nat, nat)) {
    k < |entries| && entries[k].client == Some(call.0) && event == call.1 && entries[k].action == call.2
  }

  lemma CallsLaw(entries: seq<Entry>, trigger: nat, event: nat)
    ensures CallsInOrder(entries, trigger, event, Calls(entries, trigger, event))
  {
    var at := CallPlaces(entries, trigger, event);
  }

  lemma {:induction false} CallPlaces(entries: seq<Entry>, trigger: nat, event: nat) returns (at: seq<nat>)
    ensures CalledAt(entries, trigger, event, Calls(entries, trigger, event), at)
  {
    hide CalledAt;
    at := [];
    NobodyCalled(trigger, event);
    if entries != [] {
      var rest := CallPlaces(entries[1..], trigger, event);
      at := PlacesBehind(entries, trigger, event, rest);
    }
  }

  function Shifted(places: seq<nat>): (r: seq<nat>)
    ensures |r| == |places| && forall k :: 0 <= k < |r| ==> r[k] == places[k] + 1
  {
    seq(|places|, k requires 0 <= k < |places| => places[k] + 1)
  }

  lemma PlacesBehind(entries: seq<Entry>, trigger: nat, event: nat, rest: seq<nat>) returns (at: seq<nat>)
    requires entries != [] && CalledAt(entries[1..], trigger, event, Calls(entries[1..], trigger, event), rest)
    ensures CalledAt(entries, trigger, event, Calls(entries, trigger, event), at)
  {
    hide CalledAt, Calls;
    var e := entries[0];
    var fires := e.client.Some? && e.trigger == trigger && e.onEvent == event && e.enabled;
    var head: seq<nat> := if fires then [0] else [];
    var first := if fires then [(e.client.value, event, e.action)] else [];
    CallsFirst(entries, trigger, event);
    at := head + Shifted(rest);
    BehindHead(head, Shifted(rest));
    CalledBehind(entries, trigger, event, head, first, Calls(entries[1..], trigger, event), rest, at);
  }

  lemma CallsFirst(entries: seq<Entry>, trigger: nat, event: nat)
    requires entries != []
    ensures var e := entries[0];
            var fires := e.client.Some? && e.trigger == trigger && e.onEvent == event && e.enabled;
            Calls(entries, trigger, event) ==
            (if fires then [(e.client.value, event, e.action)] else []) + Calls(entries[1..], trigger, event)
  {}

  lemma BehindHead(head: seq<nat>, rest: seq<nat>)
    ensures (head + rest)[..|head|] == head
    ensures forall k :: 0 <= k < |rest| ==> (head + rest)[|head| + k] == rest[k]
  {}

  lemma NobodyCalled(trigger: nat, event: nat)
    ensures CalledAt([], trigger, event, [], [])
  {}

  /** The places one entry further on, behind that of the first entry if it is called. */
  lemma CalledBehind(entries: seq<Entry>, trigger: nat, event: nat, head: seq<nat>, first: seq<(nat, nat, nat)>,
                     calls: seq<(nat, nat, nat)>, rest: seq<nat>, at: seq<nat>)
    requires entries != [] && CalledAt(entries[1..], trigger, event, calls, rest)
    requires var e := entries[0];
             if e.client.Some? && e.trigger == trigger && e.onEvent == event && e.enabled then
               head == [0] && first == [(e.client.value, event, e.action)]
             else
               head == [] && first == []
    requires |at| == |head| + |rest| && at[..|head|] == head
    requires forall k :: 0 <= k < |rest| ==> at[|head| + k] == rest[k] + 1
    ensures CalledAt(entries, trigger, event, first + calls, at)
  {
    forall i | 0 <= i < |entries|
      ensures i in at <==> && entries[i].client.Some? && entries[i].trigger == trigger
                           && entries[i].onEvent == event && entries[i].enabled
    {
      PlaceMoved(head, rest, at, i);
      assert i > 0 ==> entries[i] == entries[1..][i - 1];
    }
    forall k | 0 <= k < |at| ensures CallOf(entries, event, at[k], (first + calls)[k]) {
      AtPlace(head, rest, at, k);
      if k >= |head| {
        CallMoved(entries, event, rest[k - |head|], calls[k - |head|]);
      }
    }
    forall i, j | 0 <= i < j < |at| ensures at[i] < at[j] {
      AtPlace(head, rest, at, i);
      AtPlace(head, rest, at, j);
    }
  }

  lemma CallMoved(entries: seq<Entry>, event: nat, k: nat, call: (nat, nat, nat))
    requires entries != [] && CallOf(entries[1..], event, k, call)
    ensures CallOf(entries, event, k + 1, call)
  {
    assert entries[1..][k] == entries[k + 1];
  }

  lemma AtPlace(head: seq<nat>, rest: seq<nat>, at: seq<nat>, k: nat)
    requires (head == [] || head == [0]) && |at| == |head| + |rest| && k < |at|
    requires at[..|head|] == head && forall j :: 0 <= j < |rest| ==> at[|head| + j] == rest[j] + 1
    ensures at[k] == if k < |head| then 0 else rest[k - |head|] + 1
  {
    if k < |head| {
      assert at[..|head|][k] == at[k];
    } else {
      assert at[|head| + (k - |head|)] == rest[k - |head|] + 1;
    }
  }

  lemma PlaceMoved(head: seq<nat>, rest: seq<nat>, at: seq<nat>, i: nat)
    requires (head == [] || head == [0]) && |at| == |head| + |rest|
    requires at[..|head|] == head && forall k :: 0 <= k < |rest| ==> at[|head| + k] == rest[k] + 1
    ensures i in at <==> if i == 0 then head == [0] else i - 1 in rest
  {
    if i > 0 && i - 1 in rest {
      var k :| 0 <= k < |rest| && rest[k] == i - 1;
      assert at[|head| + k] == i;
    }
    if i in at {
      var k :| 0 <= k < |at| && at[k] == i;
      assert k >= |head| ==> at[|head| + (k - |head|)] == rest[k - |head|] + 1;
    }
    if head == [0] {
      assert at[..1][0] == at[0];
    }
  }

  lemma {:induction false} CallsAreSafe(w: World, entries: seq<Entry>, trigger: nat, event: nat)
    requires Deep(w) && forall e <- entries :: e in w.entries
    ensures forall c <- Calls(entries, trigger, event) :: c.0 in w.alive && AllAlive(w.alive, c.0)
  {
    if entries != [] {
      assert entries[0] in w.entries;
      if entries[0].client.Some? {
        assert Reaches(w.alive, entries[0].client.value, entries[0].client.value, 0);
      }
      CallsAreSafe(w, entries[1..], trigger, event);
    }
  }
}

/**
 The exchange of channel configurations between a device channel and the server: seven states, a
 bitmap of the config types received so far, a retry counter, reconnects and server replies.

 The class at the end updates these fields in place; each of its methods is proved to be the step
 function of the same name, and the laws of the exchange are proved about the steps.
 */
module ConfigExchange {

  datatype State =
    | None
    | LocalChangePending
    | SetChannelConfigSend
    | SetChannelConfigFailed
    | WaitForConfigFinished
    | ResendConfig
    | LocalChangeSent

  // ----- the bitmap: bit 0 says that the server has finished, bits 1 to 5 are the config types

  const CONFIG_TYPE_OCR := 4
  /** All config types, in the order in which they are looked for. */
  const TYPES: seq<int> := [0, 2, 3, 4, 5]

  const FINISHED: bv8 := 1

  function BitOf(t: int): bv8 {
    match t
    case 0 => 0x02
    case 2 => 0x04
    case 3 => 0x08
    case 4 => 0x10
    case 5 => 0x20
    case _ => 0
  }

  predicate IsSet(b: bv8, t: int) {
    b & BitOf(t) != 0
  }

  function SetType(b: bv8, t: int): bv8 {
    b | BitOf(t)
  }

  function SetFinished(b: bv8): bv8 {
    b | FINISHED
  }

  function ClearType(b: bv8, t: int): bv8 {
    b & !BitOf(t)
  }

  /** The comparison of two bitmaps ignores the bit of the finished message. */
  predicate Differs(a: bv8, b: bv8) {
    a & 0xFE != b & 0xFE
  }

  function IfMissing(received: bv8, used: bv8, t: int): (s: seq<int>)
    ensures |s| <= 1
  {
    if IsSet(used, t) && !IsSet(received, t) then [t] else []
  }

  /** The used types not received yet, lowest first. */
  function Missing(received: bv8, used: bv8): (s: seq<int>)
    ensures |s| <= 5
  {
    IfMissing(received, used, 0) +
    (IfMissing(received, used, 2) +
     (IfMissing(received, used, 3) +
      (IfMissing(received, used, 4) + IfMissing(received, used, 5))))
  }

  /** Each missing type stands in the list once, in increasing order. */
  lemma MissingMeaning(received: bv8, used: bv8)
    ensures var m := Missing(received, used);
            && (forall i, j :: 0 <= i < j < |m| ==> m[i] < m[j])
            && forall t :: t in m <==> t in TYPES && IsSet(used, t) && !IsSet(received, t)
  {
    hide IsSet;
    assert forall t :: t in Missing(received, used) <==>
                         || t in IfMissing(received, used, 0) || t in IfMissing(received, used, 2)
                         || t in IfMissing(received, used, 3) || t in IfMissing(received, used, 4)
                         || t in IfMissing(received, used, 5);
  }

  lemma SetThenTest(received: bv8, t: int, x: int)
    requires t in TYPES && x in TYPES
    ensures IsSet(SetType(received, t), x) == (x == t || IsSet(received, x))
    ensures SetType(received, t) & FINISHED == received & FINISHED
  {}

  /** Receiving the lowest missing type leaves the others missing, in order. */
  lemma ReceiveLowest(received: bv8, used: bv8)
    requires Missing(received, used) != []
    ensures var t := Missing(received, used)[0];
            && t in TYPES
            && Missing(SetType(received, t), used) == Missing(received, used)[1..]
            && SetType(received, t) & FINISHED == received & FINISHED
  {
    hide SetType, IsSet;
    var t := Missing(received, used)[0];
    assert t in TYPES;
    SetThenTest(received, t, 0);
    SetThenTest(received, t, 2);
    SetThenTest(received, t, 3);
    SetThenTest(received, t, 4);
    SetThenTest(received, t, 5);
  }

  lemma NothingMissingIfSame(received: bv8, used: bv8)
    ensures !Differs(received, used) ==> Missing(received, used) == []
  {}

  /** The bit of the finished message does not change what is missing. */
  lemma FinishedIsNoType(received: bv8, used: bv8)
    ensures Missing(SetFinished(received), used) == Missing(received, used)
  {
    hide SetFinished, IsSet;
    FinishedThenTest(received, 0);
    FinishedThenTest(received, 2);
    FinishedThenTest(received, 3);
    FinishedThenTest(received, 4);
    FinishedThenTest(received, 5);
  }

  lemma FinishedThenTest(b: bv8, t: int)
    ensures IsSet(SetFinished(b), t) == IsSet(b, t)
  {}

  function NextConfigType(received: bv8, used: bv8): int {
    if Differs(received, used) && Missing(received, used) != [] then Missing(received, used)[0] else -1
  }

  // ----- the state of one channel

  /** func: the channel function; flag: the stored mark of an offline change; applied: the types
      whose config from the server was applied, in order; sent: the types sent to the server. */
  datatype Exchange = Exchange(state: State, attempts: nat, received: bv8, used: bv8,
                               func: nat, flag: bool, applied: seq<int>, sent: seq<int>)

  datatype ApplyResult = NotSupported | Success | DataError | SetChannelConfigNeeded

  datatype Config = Config(configType: int, func: int, apply: ApplyResult)

  predicate Finished(e: Exchange) {
    e.received & FINISHED != 0
  }

  /** What the channel keeps of a function number: 16 bits, or none. */
  function StoredFunction(func: int): nat {
    if 0 <= func <= 0xFFFF then func else 0
  }

  function ClearFlag(e: Exchange): Exchange {
    if e.state != None && e.state != SetChannelConfigFailed then e.(state := None, flag := false) else e
  }

  function Registered(e: Exchange): Exchange {
    var state := match e.state
                 case None => WaitForConfigFinished
                 case WaitForConfigFinished => WaitForConfigFinished
                 case LocalChangePending => LocalChangePending
                 case _ => ResendConfig;
    e.(state := state, received := 0, attempts := 0)
  }

  function ConfigFinished(e: Exchange): Exchange {
    var received := SetFinished(e.received);
    var state := if e.state == WaitForConfigFinished then None else e.state;
    e.(received := received, attempts := 0, state := if Differs(received, e.used) then ResendConfig else state)
  }

  function LocalChange(e: Exchange): Exchange {
    e.(state := LocalChangePending, flag := true)
  }

  function Trigger(e: Exchange, t: int): Exchange {
    if e.state == SetChannelConfigFailed then e
    else e.(state := ResendConfig, received := ClearType(e.received, t))
  }

  /** A config received from the server, or set locally. */
  function HandleConfig(e: Exchange, c: Config, local: bool): Exchange {
    var f := e.(func := if c.func == e.func then e.func else StoredFunction(c.func));
    if c.func == 0 then f.(state := None, received := f.used)
    else if !IsSet(f.used, c.configType) then f
    else if c.configType != CONFIG_TYPE_OCR && f.state == LocalChangePending && !local then f
    else ApplyConfig(f, c)
  }

  /** The config is handed to the channel, which says how it took it. */
  function ApplyConfig(e: Exchange, c: Config): Exchange {
    var g := e.(applied := e.applied + [c.configType]);
    match c.apply
    case Success => g.(received := SetType(g.received, c.configType))
    case NotSupported => g.(received := SetType(g.received, c.configType))
    case SetChannelConfigNeeded => Trigger(g, c.configType)
    case DataError => g
  }

  function SetResult(e: Exchange, t: int, success: bool): Exchange {
    var f := e.(received := SetType(e.received, t));
    var g := if f.state == SetChannelConfigSend || f.state == LocalChangeSent then
               if Differs(f.received, f.used) then
                 f.(attempts := 0,
                    state := if f.state == SetChannelConfigSend then ResendConfig else LocalChangePending)
               else ClearFlag(f)
             else f;
    if success then g else ClearFlag(g).(state := SetChannelConfigFailed)
  }

  /** The state after the config was offered to all protocol layers in turn. */
  function Offered(state: State, layers: seq<bool>): State
    decreases |layers|
  {
    if layers == [] then state
    else Offered(if !layers[0] then state
                 else if state == LocalChangePending then LocalChangeSent
                 else SetChannelConfigSend, layers[1..])
  }

  /** One iteration; "filled": the channel has a config of this type; "layers": which protocol layers
      accept it. */
  function Iterate(e: Exchange, filled: bool, layers: seq<bool>): Exchange {
    if !Finished(e) || e.func == 0 || (e.state != LocalChangePending && e.state != ResendConfig) then e
    else
      var t := NextConfigType(e.received, e.used);
      if t == -1 then ClearFlag(e)
      else if e.attempts >= 3 then e.(received := SetType(e.received, t), attempts := 0)
      else if !filled then e.(received := SetType(e.received, t), attempts := e.attempts + 1)
      else if true in layers then
        e.(attempts := e.attempts + 1, state := Offered(e.state, layers), sent := e.sent + [t])
      else e.(attempts := e.attempts + 1)
  }

  lemma {:induction false} OfferedAccepted(state: State, layers: seq<bool>)
    decreases |layers|
    ensures true in layers ==>
              Offered(state, layers) == SetChannelConfigSend || Offered(state, layers) == LocalChangeSent
    ensures true !in layers ==> Offered(state, layers) == state
    ensures state == ResendConfig || state == SetChannelConfigSend ==>
              Offered(state, layers) == state || Offered(state, layers) == SetChannelConfigSend
  {
    if layers != [] {
      OfferedAccepted(if !layers[0] then state
                      else if state == LocalChangePending then LocalChangeSent
                      else SetChannelConfigSend, layers[1..]);
      if layers[0] {
        OfferedStays(if state == LocalChangePending then LocalChangeSent else SetChannelConfigSend, layers[1..]);
      }
    }
  }

  lemma {:induction false} OfferedStays(state: State, layers: seq<bool>)
    requires state == SetChannelConfigSend || state == LocalChangeSent
    ensures Offered(state, layers) == SetChannelConfigSend || Offered(state, layers) == LocalChangeSent
    decreases |layers|
  {
    if layers != [] {
      OfferedStays(if layers[0] then SetChannelConfigSend else state, layers[1..]);
    }
  }

  // ----- termination

  predicate Sending(e: Exchange) {
    e.state == LocalChangePending || e.state == ResendConfig
  }

  predicate Awaiting(e: Exchange) {
    e.state == SetChannelConfigSend || e.state == LocalChangeSent
  }

  /** The server has sent everything, the channel has a function, retries are within bounds, and the
      type whose answer is awaited is the lowest missing one. */
  ghost predicate Exchanging(e: Exchange) {
    && Finished(e) && e.func != 0 && e.attempts <= 3
    && (Awaiting(e) ==>
          && e.sent != [] && Missing(e.received, e.used) != []
          && e.sent[|e.sent| - 1] == Missing(e.received, e.used)[0])
  }

  /** What the surroundings contribute to one step of the exchange. */
  datatype Answer = Answer(filled: bool, layers: seq<bool>, success: bool)

  /** One step: an iteration while there may be something to send, the server's answer for the type
      just sent while it is awaited. */
  function Step(e: Exchange, a: Answer): Exchange {
    if Sending(e) then Iterate(e, a.filled, a.layers)
    else if Awaiting(e) && e.sent != [] then SetResult(e, e.sent[|e.sent| - 1], a.success)
    else e
  }

  function Measure(e: Exchange): int {
    if Sending(e) || Awaiting(e) then 1 + 4 * |Missing(e.received, e.used)| + (3 - e.attempts) else 0
  }

  lemma IterateDecreases(e: Exchange, filled: bool, layers: seq<bool>)
    requires Exchanging(e) && Sending(e)
    ensures var n := Iterate(e, filled, layers);
            Exchanging(n) && n.used == e.used && Measure(n) < Measure(e)
  {
    hide SetType, IsSet, Missing, Differs;
    OfferedAccepted(e.state, layers);
    if Missing(e.received, e.used) != [] {
      NothingMissingIfSame(e.received, e.used);
      ReceiveLowest(e.received, e.used);
    }
  }

  lemma ReplyDecreases(e: Exchange, success: bool)
    requires Exchanging(e) && Awaiting(e)
    ensures var n := SetResult(e, e.sent[|e.sent| - 1], success);
            Exchanging(n) && n.used == e.used && Measure(n) < Measure(e)
  {
    hide SetType, IsSet, Missing, Differs;
    ReceiveLowest(e.received, e.used);
  }

  ghost function Run(e: Exchange, answers: seq<Answer>): Exchange
    decreases |answers|
  {
    if answers == [] then e else Run(Step(e, answers[0]), answers[1..])
  }

  /** Whatever mix of empty configs, failing sends and rejections occurs, the exchange comes to rest
      within as many steps as the measure says. */
  lemma {:induction false} ExchangeTerminates(e: Exchange, answers: seq<Answer>)
    requires Exchanging(e) && |answers| >= Measure(e)
    ensures var r := Run(e, answers); !Sending(r) && !Awaiting(r)
    decreases |answers|
  {
    if answers != [] {
      if Sending(e) {
        IterateDecreases(e, answers[0].filled, answers[0].layers);
      } else if Awaiting(e) {
        ReplyDecreases(e, answers[0].success);
      }
      ExchangeTerminates(Step(e, answers[0]), answers[1..]);
    }
  }

  /** It rests in None or in SetChannelConfigFailed, after at most 24 steps. */
  lemma {:induction false} ExchangeOutcome(e: Exchange, answers: seq<Answer>)
    requires Exchanging(e) && e.state != WaitForConfigFinished && |answers| >= 24
    ensures var r := Run(e, answers); r.state == None || r.state == SetChannelConfigFailed
  {
    ExchangeTerminates(e, answers);
    NeverWaitsAgain(e, answers);
  }

  lemma {:induction false} NeverWaitsAgain(e: Exchange, answers: seq<Answer>)
    requires e.state != WaitForConfigFinished
    ensures Run(e, answers).state != WaitForConfigFinished
    decreases |answers|
  {
    if answers != [] {
      OfferedAccepted(e.state, answers[0].layers);
      NeverWaitsAgain(Step(e, answers[0]), answers[1..]);
    }
  }

  // ----- an offline change wins

  ghost function HandleAll(e: Exchange, cs: seq<Config>): Exchange
    decreases |cs|
  {
    if cs == [] then e else HandleAll(HandleConfig(e, cs[0], false), cs[1..])
  }

  ghost predicate Enabled(c: Config) {
    c.configType != CONFIG_TYPE_OCR && c.func != 0
  }

  lemma {:induction false} OfflineChangeIgnoresServer(e: Exchange, cs: seq<Config>)
    requires e.state == LocalChangePending
    requires forall c <- cs :: Enabled(c)
    ensures HandleAll(e, cs) == e.(func := HandleAll(e, cs).func)
    decreases |cs|
  {
    if cs != [] {
      assert cs[0] in cs;
      OfflineChangeIgnoresServer(HandleConfig(e, cs[0], false), cs[1..]);
    }
  }

  ghost predicate Successful(a: Answer) {
    a.filled && true in a.layers && a.success
  }

  /** A send and its answer: the lowest missing type is sent and received. */
  lemma SendAndReply(e: Exchange, a: Answer, b: Answer)
    requires Finished(e) && e.func != 0 && e.attempts < 3 && Sending(e)
    requires Successful(a) && Successful(b)
    requires Missing(e.received, e.used) != []
    ensures var m := Missing(e.received, e.used);
            var o := Step(Step(e, a), b);
            && o.sent == e.sent + [m[0]] && o.applied == e.applied
            && o.received == SetType(e.received, m[0]) && o.used == e.used && o.func == e.func
            && Missing(o.received, o.used) == m[1..] && Finished(o)
            && if Differs(o.received, o.used) then Sending(o) && o.attempts < 3 else o.state == None && !o.flag
  {
    hide SetType, IsSet, Missing, Differs;
    NothingMissingIfSame(e.received, e.used);
    ReceiveLowest(e.received, e.used);
    OfferedAccepted(e.state, a.layers);
    var n := Step(e, a);
    assert Awaiting(n) && n.sent == e.sent + [Missing(e.received, e.used)[0]];
    assert Step(n, b) == SetResult(n, Missing(e.received, e.used)[0], true);
  }

  /** With every send answered by success, the missing types are sent once each, lowest first. */
  lemma {:induction false} AllMissingSent(e: Exchange, answers: seq<Answer>)
    requires Finished(e) && e.func != 0 && e.attempts < 3 && Sending(e)
    requires forall a <- answers :: Successful(a)
    requires |answers| > 2 * |Missing(e.received, e.used)|
    ensures var r := Run(e, answers);
            && r.state == None && !r.flag
            && r.sent == e.sent + Missing(e.received, e.used) && r.applied == e.applied
    decreases |answers|
  {
    hide SetType, IsSet, Missing, Differs, Step;
    var m := Missing(e.received, e.used);
    assert answers[0] in answers;
    if m == [] {
      assert Step(e, answers[0]) == ClearFlag(e) by {
        NothingToSend(e, answers[0]);
      }
      AtRest(ClearFlag(e), answers[1..]);
      assert e.sent + m == e.sent;
    } else {
      var o := Step(Step(e, answers[0]), answers[1]);
      assert answers[1] in answers;
      SendAndReply(e, answers[0], answers[1]);
      TwoSteps(e, answers);
      if Differs(o.received, o.used) {
        AllMissingSent(o, answers[2..]);
        assert (e.sent + [m[0]]) + m[1..] == e.sent + m;
      } else {
        NothingMissingIfSame(o.received, o.used);
        AtRest(o, answers[2..]);
        assert m == [m[0]] + m[1..];
      }
    }
  }

  lemma NothingToSend(e: Exchange, a: Answer)
    requires Finished(e) && e.func != 0 && Sending(e) && Missing(e.received, e.used) == []
    ensures Step(e, a) == ClearFlag(e)
  {}

  lemma TwoSteps(e: Exchange, answers: seq<Answer>)
    requires |answers| >= 2
    ensures Run(e, answers) == Run(Step(Step(e, answers[0]), answers[1]), answers[2..])
  {
    hide Step;
    assert answers[1..][0] == answers[1] && answers[1..][1..] == answers[2..];
  }

  lemma {:induction false} AtRest(e: Exchange, answers: seq<Answer>)
    requires !Sending(e) && !Awaiting(e)
    ensures Run(e, answers) == e
    decreases |answers|
  {
    if answers != [] {
      AtRest(e, answers[1..]);
    }
  }

  /** The law of offline changes: from registration with a pending local change, no config the server
      sends before it has finished is applied; then every used type is sent to the server exactly
      once, in increasing order, and the mark of the offline change is cleared. */
  lemma OfflineChangeWins(e: Exchange, cs: seq<Config>, answers: seq<Answer>)
    requires e.state == LocalChangePending
    requires forall c <- cs :: Enabled(c)
    requires forall a <- answers :: Successful(a)
    requires |answers| > 2 * |Missing(0, e.used)|
    ensures var h := HandleAll(Registered(e), cs);
            var f := ConfigFinished(h);
            && h.received == 0 && h.applied == e.applied && h.state == LocalChangePending
            && (f.func != 0 ==>
                  var r := Run(f, answers);
                  && r.state == None && !r.flag
                  && r.sent == e.sent + Missing(0, e.used) && r.applied == e.applied)
  {
    OfflineChangeIgnoresServer(Registered(e), cs);
    var f := ConfigFinished(HandleAll(Registered(e), cs));
    FinishedIsNoType(0, e.used);
    assert Finished(f);
    if f.func != 0 {
      AllMissingSent(f, answers);
    }
  }

  // ----- all events

  datatype Event =
    | OnRegistered
    | OnConfigFinished
    | OnLocalChange
    | OnTrigger(t: int)
    | OnConfig(c: Config, local: bool)
    | OnSetResult(t: int, success: bool)
    | OnIterate(filled: bool, layers: seq<bool>)

  function Apply(e: Exchange, ev: Event): Exchange {
    match ev
    case OnRegistered => Registered(e)
    case OnConfigFinished => ConfigFinished(e)
    case OnLocalChange => LocalChange(e)
    case OnTrigger(t) => Trigger(e, t)
    case OnConfig(c, local) => HandleConfig(e, c, local)
    case OnSetResult(t, success) => SetResult(e, t, success)
    case OnIterate(filled, layers) => Iterate(e, filled, layers)
  }

  /** Retries stay within bounds, and a local change is marked in the storage, so that a restart finds
      it, while the state says that it is pending or sent. For the states that carry it on after the
      server has finished, see MarkStaysUntilDone. */
  ghost predicate Inv(e: Exchange) {
    && e.attempts <= 3
    && (e.state == LocalChangePending || e.state == LocalChangeSent ==> e.flag)
  }

  ghost function History(e: Exchange, events: seq<Event>): Exchange
    decreases |events|
  {
    if events == [] then e else History(Apply(e, events[0]), events[1..])
  }

  lemma OfferedMarked(state: State, layers: seq<bool>)
    requires state == ResendConfig
    ensures Offered(state, layers) != LocalChangeSent && Offered(state, layers) != LocalChangePending
  {
    OfferedAccepted(state, layers);
  }

  lemma InvStep(e: Exchange, ev: Event)
    requires Inv(e)
    ensures Inv(Apply(e, ev))
  {
    hide IsSet, SetType, ClearType, Missing, Differs, SetFinished, NextConfigType, Finished, Offered, StoredFunction;
    if ev.OnIterate? && e.state == ResendConfig {
      OfferedMarked(e.state, ev.layers);
    }
  }

  lemma {:induction false} InvHolds(e: Exchange, events: seq<Event>)
    requires Inv(e)
    ensures Inv(History(e, events))
    decreases |events|
  {
    if events != [] {
      InvStep(e, events[0]);
      hide Apply, Inv;
      InvHolds(Apply(e, events[0]), events[1..]);
    }
  }

  /** Nothing is left to send, or the server has rejected a config. */
  ghost predicate Done(e: Exchange) {
    (e.state == None && Missing(e.received, e.used) == []) || e.state == SetChannelConfigFailed
  }

  /** The k-th event takes the mark away, and the exchange is done. */
  ghost predicate ClearedAt(e: Exchange, events: seq<Event>, k: nat)
    requires 0 < k <= |events|
  {
    && History(e, events[..k - 1]).flag && !History(e, events[..k]).flag
    && Done(History(e, events[..k]))
  }

  lemma MarkClearedWhenDone(e: Exchange, ev: Event)
    requires e.flag && !Apply(e, ev).flag
    ensures Done(Apply(e, ev))
  {
    match ev {
      case OnSetResult(t, success) =>
        ResultClears(e, t, success);
      case OnIterate(filled, layers) =>
        IterateClears(e, filled, layers);
      case _ =>
    }
  }

  lemma ResultClears(e: Exchange, t: int, success: bool)
    requires e.flag && !SetResult(e, t, success).flag
    ensures Done(SetResult(e, t, success))
  {
    hide SetType, Missing, Differs;
    var n := SetResult(e, t, success);
    NothingMissingIfSame(n.received, n.used);
  }

  lemma IterateClears(e: Exchange, filled: bool, layers: seq<bool>)
    requires e.flag && !Iterate(e, filled, layers).flag
    ensures Done(Iterate(e, filled, layers))
  {
    hide SetType, Missing, Differs, Finished, Offered;
    NothingMissingIfSame(e.received, e.used);
    if Missing(e.received, e.used) != [] {
      ReceiveLowest(e.received, e.used);
    }
  }

  /** Over every history, through all states: a mark that was set and is gone went away at an event
      after which the exchange was done. */
  lemma {:induction false} MarkStaysUntilDone(e: Exchange, events: seq<Event>)
    requires e.flag && !History(e, events).flag
    ensures exists k :: 0 < k <= |events| && ClearedAt(e, events, k)
    decreases |events|
  {
    hide Done, Apply;
    var n := Apply(e, events[0]);
    if n.flag {
      MarkStaysUntilDone(n, events[1..]);
      var k :| 0 < k <= |events| - 1 && ClearedAt(n, events[1..], k);
      assert events[..k + 1][1..] == events[1..][..k] && events[..k][1..] == events[1..][..k - 1];
      assert ClearedAt(e, events, k + 1);
    } else {
      MarkClearedWhenDone(e, events[0]);
      assert events[..1][1..] == [];
      assert History(e, events[..1]) == History(n, []) == n;
      assert events[..0] == [] && ClearedAt(e, events, 1);
    }
  }

  // ----- how long an offline change is protected

  /** A config the server sends for a used type other than OCR is applied exactly when no change is
      pending. */
  lemma AppliedIffNotPending(e: Exchange, c: Config)
    requires Enabled(c) && IsSet(e.used, c.configType)
    ensures HandleConfig(e, c, false).applied ==
            e.applied + if e.state == LocalChangePending then [] else [c.configType]
  {
    assert e.applied + [] == e.applied;
  }

  /** A reconnect makes no difference to that. */
  lemma ReconnectApplies(e: Exchange, c: Config)
    requires Enabled(c) && IsSet(e.used, c.configType)
    ensures var r := HandleConfig(Registered(e), c, false);
            r.applied == e.applied + if e.state == LocalChangePending then [] else [c.configType]
  {
    AppliedIffNotPending(Registered(e), c);
  }

  /** What ends the pending state, and nothing else does. */
  ghost predicate Ends(e: Exchange, ev: Event) {
    match ev
    case OnRegistered => false
    case OnLocalChange => false
    case OnConfigFinished => e.received & 0xFE != e.used & 0xFE
    case OnTrigger(t) => true
    case OnConfig(c, local) =>
      c.func == 0 || (IsSet(e.used, c.configType) && (local || c.configType == CONFIG_TYPE_OCR)
                      && c.apply == SetChannelConfigNeeded)
    case OnSetResult(t, success) => !success
    case OnIterate(filled, layers) =>
      Finished(e) && e.func != 0
      && (Missing(e.received, e.used) == [] || (e.attempts < 3 && filled && true in layers))
  }

  lemma PendingEndsIff(e: Exchange, ev: Event)
    requires e.state == LocalChangePending
    ensures Apply(e, ev).state == LocalChangePending <==> !Ends(e, ev)
  {
    match ev {
      case OnConfigFinished => FinishedDiffers(e.received, e.used);
      case OnConfig(c, local) => ConfigEndsPending(e, c, local);
      case OnIterate(filled, layers) => IterateEndsPending(e, filled, layers);
      case _ =>
    }
  }

  lemma ConfigEndsPending(e: Exchange, c: Config, local: bool)
    requires e.state == LocalChangePending
    ensures HandleConfig(e, c, local).state == LocalChangePending <==> !Ends(e, OnConfig(c, local))
  {
    hide IsSet, SetType, ClearType;
  }

  lemma IterateEndsPending(e: Exchange, filled: bool, layers: seq<bool>)
    requires e.state == LocalChangePending
    ensures Iterate(e, filled, layers).state == LocalChangePending <==> !Ends(e, OnIterate(filled, layers))
  {
    hide IsSet, SetType, Missing, Differs, Finished;
    OfferedAccepted(e.state, layers);
    NothingMissingIfSame(e.received, e.used);
    if Missing(e.received, e.used) != [] {
      ReceiveLowest(e.received, e.used);
    }
  }

  lemma FinishedDiffers(received: bv8, used: bv8)
    ensures Differs(SetFinished(received), used) <==> received & 0xFE != used & 0xFE
  {}

  /** Right after registration: the end of the server's configs ends the pending state, before
      anything is sent, exactly when the channel uses any config at all. */
  lemma FinishedEndsProtection(e: Exchange)
    requires e.state == LocalChangePending
    ensures ConfigFinished(Registered(e)).state == LocalChangePending <==> e.used & 0xFE == 0
  {
    FinishedDiffers(0, e.used);
  }

  ghost predicate Guarded(e: Exchange) {
    e.state == LocalChangePending || e.state == LocalChangeSent
  }

  /** Once a change is neither pending nor sent, only a new local change is protected again. */
  lemma {:induction false} NeverGuardedAgain(e: Exchange, events: seq<Event>)
    requires !Guarded(e) && OnLocalChange !in events
    ensures !Guarded(History(e, events)) && History(e, events).used == e.used
    decreases |events|
  {
    hide Apply, Guarded;
    if events != [] {
      assert events[0] in events;
      NotGuardedBy(e, events[0]);
      NeverGuardedAgain(Apply(e, events[0]), events[1..]);
    }
  }

  lemma NotGuardedBy(e: Exchange, ev: Event)
    requires !Guarded(e) && !ev.OnLocalChange?
    ensures !Guarded(Apply(e, ev)) && Apply(e, ev).used == e.used
  {
    hide IsSet, SetType, ClearType, Missing, Differs, SetFinished;
    if ev.OnIterate? {
      OfferedAccepted(e.state, ev.layers);
    }
  }

  /** What happens after registration with no further local change: registrations again, configs of the
      server, iterations; and, once the server has finished, anything. */
  ghost predicate Remote(events: seq<Event>)
    decreases |events|
  {
    events == [] ||
    match events[0]
    case OnConfigFinished => OnLocalChange !in events[1..]
    case OnRegistered => Remote(events[1..])
    case OnIterate(filled, layers) => Remote(events[1..])
    case OnConfig(c, local) => !local && Enabled(c) && Remote(events[1..])
    case _ => false
  }

  lemma {:induction false} GuardedUntilFinished(e: Exchange, events: seq<Event>)
    requires e.state == LocalChangePending && e.received == 0 && e.used & 0xFE != 0 && Remote(events)
    ensures var h := History(e, events);
            && h.used == e.used
            && (h.state == LocalChangePending <==> OnConfigFinished !in events)
    decreases |events|
  {
    hide IsSet, SetType, ClearType, Missing, NextConfigType;
    if events != [] {
      assert events == [events[0]] + events[1..];
      if events[0].OnConfigFinished? {
        FinishedDiffers(0, e.used);
        NeverGuardedAgain(ConfigFinished(e), events[1..]);
      } else {
        GuardedUntilFinished(Apply(e, events[0]), events[1..]);
      }
    }
  }

  /** How far an offline change wins: over every such history, a config of the server for a used type
      other than OCR is applied if and only if the server has finished before, on this connection or
      an earlier one, whether or not the change was sent by then. */
  lemma OfflineChangeLostIffFinished(e: Exchange, events: seq<Event>, c: Config)
    requires e.state == LocalChangePending && Remote(events)
    requires Enabled(c) && IsSet(e.used, c.configType)
    ensures var h := History(Registered(e), events);
            HandleConfig(h, c, false).applied == h.applied + if OnConfigFinished in events then [c.configType] else []
  {
    UsedType(e.used, c.configType);
    GuardedUntilFinished(Registered(e), events);
    AppliedIffNotPending(History(Registered(e), events), c);
  }

  lemma UsedType(used: bv8, t: int)
    requires IsSet(used, t)
    ensures used & 0xFE != 0
  {}

  /** A change that was never sent is overwritten by a config that comes late, or after a reconnect. */
  lemma UnsentChangeIsOverwritten()
    ensures var e := Exchange(LocalChangePending, 0, 0, 0x02, 1, true, [], []);
            var late, c := ConfigFinished(Registered(e)), Config(0, 1, Success);
            && late.sent == [] && late.flag
            && HandleConfig(late, c, false).applied == [0]
            && HandleConfig(Registered(late), c, false).applied == [0]
  {}

  /** So is one that was sent but not answered before the connection broke. */
  lemma SentChangeIsOverwritten()
    ensures var e := Exchange(LocalChangePending, 0, 0, 0x02, 1, true, [], []);
            var sent := Iterate(ConfigFinished(Registered(e)), true, [true]);
            && sent.sent == [0] && sent.state == SetChannelConfigSend
            && HandleConfig(Registered(sent), Config(0, 1, Success), false).applied == [0]
            && var online := Iterate(e.(received := FINISHED), true, [true]);
               && online.sent == [0] && online.state == LocalChangeSent
               && HandleConfig(Registered(online), Config(0, 1, Success), false).applied == [0]
  {
    var layers := [true];
    assert layers[0] in layers;
  }

  // ----- what each step does to the types that are missing

  /** A type set is missing no more, a type cleared is missing again if it is used; no other changes. */
  lemma SetAndClear(received: bv8, used: bv8, t: int)
    ensures forall x :: x in Missing(SetType(received, t), used) <==> x in Missing(received, used) && x != t
    ensures forall x :: x in Missing(ClearType(received, t), used) <==>
                        x in Missing(received, used) || (x == t && t in TYPES && IsSet(used, t))
    ensures SetType(received, t) & FINISHED == received & FINISHED == ClearType(received, t) & FINISHED
  {
    MissingMeaning(received, used);
    MissingMeaning(SetType(received, t), used);
    MissingMeaning(ClearType(received, t), used);
    forall x | x in TYPES
      ensures IsSet(SetType(received, t), x) <==> x == t || IsSet(received, x)
      ensures IsSet(ClearType(received, t), x) <==> x != t && IsSet(received, x)
    {
      BitsOfType(received, t, x);
    }
    OtherBits(received, t);
    hide IsSet, SetType, ClearType, Missing;
  }

  lemma BitsOfType(received: bv8, t: int, x: int)
    requires x in TYPES
    ensures IsSet(SetType(received, t), x) <==> x == t || IsSet(received, x)
    ensures IsSet(ClearType(received, t), x) <==> x != t && IsSet(received, x)
  {}

  lemma OtherBits(received: bv8, t: int)
    ensures SetType(received, t) & FINISHED == received & FINISHED == ClearType(received, t) & FINISHED
  {}

  /** A config that disables the channel, is of a type not used, or comes from the server while a change
      is pending, is not applied; with function 0 nothing is missing and nothing will be sent, otherwise
      only the function may change. It is kept in 16 bits. */
  lemma ConfigNotApplied(e: Exchange, c: Config, local: bool)
    requires c.func == 0 || !IsSet(e.used, c.configType)
             || (e.state == LocalChangePending && !local && c.configType != 4)
    ensures var n := HandleConfig(e, c, local);
            && n.func == (if 0 <= c.func <= 65535 || c.func == e.func then c.func else 0)
            && n.(func := e.func, state := e.state, received := e.received) == e
            && (c.func == 0 ==> n.state == None && n.received == n.used && Missing(n.received, n.used) == [])
            && (c.func != 0 ==> n.state == e.state && n.received == e.received)
  {
    hide IsSet, Missing;
    NothingMissingIfSame(e.used, e.used);
  }

  /** Any other config is applied. Then its type is received if that succeeded or is not supported, is
      triggered if it has to be sent, and stays as it was if the data were wrong. */
  lemma ConfigApplied(e: Exchange, c: Config, local: bool)
    requires c.func != 0 && IsSet(e.used, c.configType)
    requires e.state != LocalChangePending || local || c.configType == 4
    ensures var n := HandleConfig(e, c, local);
            var kept := n.(func := e.func, applied := e.applied, received := e.received);
            && n.func == (if 0 <= c.func <= 65535 || c.func == e.func then c.func else 0)
            && n.applied == e.applied + [c.configType]
            && match c.apply
               case DataError => kept == e && n.received == e.received
               case SetChannelConfigNeeded =>
                 && n.received == Trigger(e, c.configType).received
                 && kept == Trigger(e, c.configType).(received := e.received)
               case _ =>
                 && kept == e
                 && forall x :: x in Missing(n.received, n.used) <==>
                                x in Missing(e.received, e.used) && x != c.configType
  {
    hide IsSet, Missing, SetType, ClearType;
    if c.apply == Success || c.apply == NotSupported {
      SetAndClear(e.received, e.used, c.configType);
    }
  }

  /** A trigger makes a used type missing again and the exchange send, unless the server has rejected a
      config: then it changes nothing. */
  lemma TriggerLaw(e: Exchange, t: int)
    ensures var n := Trigger(e, t);
            if e.state == SetChannelConfigFailed then n == e
            else
              && n.state == ResendConfig && Finished(n) == Finished(e)
              && n.(state := e.state, received := e.received) == e
              && forall x :: x in Missing(n.received, n.used) <==>
                             x in Missing(e.received, e.used) || (x == t && t in TYPES && IsSet(e.used, t))
  {
    SetAndClear(e.received, e.used, t);
    hide SetType, ClearType, Missing, IsSet;
  }

  /** And it is sent: with successful answers, together with whatever else is missing. */
  lemma TriggeredIsSent(e: Exchange, t: int, answers: seq<Answer>)
    requires Finished(e) && e.func != 0 && e.attempts < 3 && e.state != SetChannelConfigFailed
    requires t in TYPES && IsSet(e.used, t)
    requires (forall a <- answers :: Successful(a)) && |answers| > 10
    ensures var r := Run(Trigger(e, t), answers);
            && r.state == None && !r.flag && |e.sent| < |r.sent| && e.sent <= r.sent
            && t in r.sent[|e.sent|..]
            && forall x <- r.sent[|e.sent|..] :: x == t || x in Missing(e.received, e.used)
  {
    TriggerLaw(e, t);
    var n := Trigger(e, t);
    hide Missing, IsSet, Trigger, Run;
    assert t in Missing(n.received, n.used);
    AllMissingSent(n, answers);
    var r := Run(n, answers);
    assert r.sent[|e.sent|..] == Missing(n.received, n.used);
  }

  /** Registration forgets what was received and how often it was tried. What was under way goes on: a
      pending change stays pending, an exchange that was interrupted or rejected sends again; a channel
      at rest waits. Nothing else changes. */
  lemma RegisteredLaw(e: Exchange)
    ensures var n := Registered(e);
            && n.received == 0 && n.attempts == 0 && !Finished(n)
            && n.(state := e.state, received := e.received, attempts := e.attempts) == e
            && (n.state == WaitForConfigFinished <==> e.state == None || e.state == WaitForConfigFinished)
            && (n.state == LocalChangePending <==> e.state == LocalChangePending)
            && (n.state == ResendConfig <==>
                  e.state == SetChannelConfigSend || e.state == SetChannelConfigFailed
                  || e.state == ResendConfig || e.state == LocalChangeSent)
            && Missing(n.received, n.used) == Missing(0, e.used)
  {}

  /** The end of the server's configs: what is missing will be sent, whatever the state; if nothing is,
      a channel that waited is at rest and any other state is kept. */
  lemma FinishedLaw(e: Exchange)
    requires OnlyTypes(e.used) && OnlyTypes(e.received)
    ensures var n := ConfigFinished(e);
            && Finished(n) && n.attempts == 0
            && n.(state := e.state, received := e.received, attempts := e.attempts) == e
            && Missing(n.received, n.used) == Missing(e.received, e.used)
            && (e.received & 0xFE == e.used & 0xFE ==>
                  Missing(e.received, e.used) == []
                  && n.state == if e.state == WaitForConfigFinished then None else e.state)
            && (e.received & 0xFE != e.used & 0xFE ==> n.state == ResendConfig)
            && (Missing(e.received, e.used) != [] ==> n.state == ResendConfig)
  {
    FinishedIsNoType(e.received, e.used);
    FinishedDiffers(e.received, e.used);
    NothingMissingIfSame(e.received, e.used);
    FinishedIsSet(e.received);
    hide Missing, SetFinished;
  }

  lemma FinishedIsSet(received: bv8)
    ensures SetFinished(received) & FINISHED != 0
  {}

  /** Bits for types and the finished message only. */
  predicate OnlyTypes(b: bv8) {
    b & 0xC0 == 0
  }

  // ----- the ordinary connection

  /** The server sends configs that are taken, among them one of every used type. */
  ghost predicate SendsAll(used: bv8, cs: seq<Config>) {
    && (forall c <- cs :: c.func != 0 && (c.apply == Success || c.apply == NotSupported))
    && forall t <- TYPES :: IsSet(used, t) ==> exists c <- cs :: c.configType == t
  }

  lemma {:induction false} ConfigsAreReceived(e: Exchange, cs: seq<Config>)
    requires e.state == WaitForConfigFinished
    requires forall c <- cs :: c.func != 0 && (c.apply == Success || c.apply == NotSupported)
    ensures var h := HandleAll(e, cs);
            && h.state == e.state && h.used == e.used && h.sent == e.sent && h.flag == e.flag
            && (forall x :: x in Missing(h.received, h.used) <==>
                            x in Missing(e.received, e.used) && forall c <- cs :: c.configType != x)
            && (e.received & !e.used == 0 ==> h.received & !h.used == 0)
    decreases |cs|
  {
    hide Missing, SetType, ClearType, IsSet;
    if cs != [] {
      assert cs[0] in cs && cs == [cs[0]] + cs[1..];
      OneConfigReceived(e, cs[0]);
      hide HandleConfig;
      ConfigsAreReceived(HandleConfig(e, cs[0], false), cs[1..]);
    }
  }

  lemma OneConfigReceived(e: Exchange, c: Config)
    requires e.state == WaitForConfigFinished && c.func != 0 && (c.apply == Success || c.apply == NotSupported)
    ensures var h := HandleConfig(e, c, false);
            && h.state == e.state && h.used == e.used && h.sent == e.sent && h.flag == e.flag
            && (forall x :: x in Missing(h.received, h.used) <==> x in Missing(e.received, e.used) && x != c.configType)
            && (e.received & !e.used == 0 ==> h.received & !h.used == 0)
  {
    if e.received & !e.used == 0 {
      OnlyUsed(e, c);
    }
    MissingIsUsed(e.received, e.used);
    if IsSet(e.used, c.configType) {
      ConfigApplied(e, c, false);
    } else {
      ConfigNotApplied(e, c, false);
    }
    hide IsSet, Missing, HandleConfig;
  }

  lemma MissingIsUsed(received: bv8, used: bv8)
    ensures forall x <- Missing(received, used) :: x in TYPES && IsSet(used, x)
  {
    MissingMeaning(received, used);
  }

  /** Only used types are ever received. */
  lemma OnlyUsed(e: Exchange, c: Config)
    requires e.received & !e.used == 0 && (c.apply == Success || c.apply == NotSupported)
    ensures HandleConfig(e, c, false).received & !HandleConfig(e, c, false).used == 0
  {
    if IsSet(e.used, c.configType) {
      UsedTypeSet(e.received, e.used, c.configType);
    }
    NoneBeyond(e.used);
    hide IsSet, SetType;
  }

  lemma UsedTypeSet(received: bv8, used: bv8, t: int)
    requires received & !used == 0 && IsSet(used, t)
    ensures SetType(received, t) & !used == 0
  {}

  lemma ZeroIsUsed(used: bv8)
    ensures 0 & !used == 0
  {}

  lemma NoneBeyond(used: bv8)
    ensures used & !used == 0
  {}

  /** The law of the ordinary connection: from registration at rest, when the server sends every used
      type and finishes, the channel is at rest again, and no iteration sends anything. */
  lemma OrdinaryConnection(e: Exchange, cs: seq<Config>, iterations: seq<Event>)
    requires e.state == None && OnlyTypes(e.used) && SendsAll(e.used, cs)
    requires forall ev <- iterations :: ev.OnIterate?
    ensures var f := ConfigFinished(HandleAll(Registered(e), cs));
            f.state == None && f.sent == e.sent && f.flag == e.flag && History(f, iterations) == f
  {
    hide Missing, IsSet, ConfigFinished, HandleConfig;
    var r := Registered(e);
    ConfigsAreReceived(r, cs);
    assert r.received & !r.used == 0 by {
      ZeroIsUsed(r.used);
    }
    var h := HandleAll(r, cs);
    forall x ensures x !in Missing(h.received, h.used) {
      MissingIsUsed(0, e.used);
    }
    if Missing(h.received, h.used) != [] {
      SomeElement(Missing(h.received, h.used));
    }
    NothingMissing(h.received, h.used);
    FinishedLaw(h);
    StaysAtRest(ConfigFinished(h), iterations);
  }

  lemma SomeElement(s: seq<int>)
    requires s != []
    ensures exists x :: x in s
  {
    var x := s[0];
    assert x in s;
  }

  lemma NothingMissing(received: bv8, used: bv8)
    requires Missing(received, used) == [] && OnlyTypes(used) && received & !used == 0
    ensures received & 0xFE == used & 0xFE && OnlyTypes(received)
  {}

  lemma {:induction false} StaysAtRest(e: Exchange, iterations: seq<Event>)
    requires e.state == None && forall ev <- iterations :: ev.OnIterate?
    ensures History(e, iterations) == e
    decreases |iterations|
  {
    if iterations != [] {
      assert iterations[0] in iterations;
      StaysAtRest(e, iterations[1..]);
    }
  }

  // ----- answers, retries, layers

  /** An answer marks its type as received. After a success the exchange goes on while types are missing,
      a change that is on its way being pending again, and is over with the mark cleared when none is; a
      rejection ends it. An answer that was not awaited changes nothing else. */
  lemma AnswerLaw(e: Exchange, t: int, success: bool)
    ensures var n := SetResult(e, t, success);
            var more := Differs(n.received, n.used);
            && n.(state := e.state, attempts := e.attempts, received := e.received, flag := e.flag) == e
            && (forall x :: x in Missing(n.received, n.used) <==> x in Missing(e.received, e.used) && x != t)
            && (!success ==> n.state == SetChannelConfigFailed
                             && (Awaiting(e) || Sending(e) || e.state == WaitForConfigFinished ==> !n.flag))
            && (success && Awaiting(e) && more ==>
                  n.attempts == 0 && n.flag == e.flag
                  && n.state == if e.state == LocalChangeSent then LocalChangePending else ResendConfig)
            && (success && Awaiting(e) && !more ==> n.state == None && !n.flag && n.attempts == e.attempts)
            && (success && !Awaiting(e) ==> n.state == e.state && n.attempts == e.attempts && n.flag == e.flag)
  {
    SetAndClear(e.received, e.used, t);
    hide SetType, ClearType, Missing, IsSet, Differs;
  }

  /** Nothing is sent before the server has finished, without a function, at rest, while an answer is
      awaited or after a rejection. */
  lemma NothingSent(e: Exchange, filled: bool, layers: seq<bool>)
    requires !Finished(e) || e.func == 0 || !Sending(e)
    ensures Iterate(e, filled, layers) == e
  {}

  /** One iteration that has something to send: the lowest missing type. It is tried three times; then it
      is given up, as is one without a config at once. */
  lemma TryLaw(e: Exchange, filled: bool, layers: seq<bool>)
    requires Finished(e) && e.func != 0 && Sending(e) && Missing(e.received, e.used) != []
    ensures var n := Iterate(e, filled, layers);
            var t := Missing(e.received, e.used)[0];
            && n.used == e.used && n.func == e.func && n.flag == e.flag && n.applied == e.applied
            && if e.attempts >= 3 || !filled then
                 && n.sent == e.sent && n.state == e.state
                 && n.attempts == (if e.attempts >= 3 then 0 else e.attempts + 1)
                 && Missing(n.received, n.used) == Missing(e.received, e.used)[1..]
               else
                 && n.received == e.received && n.attempts == e.attempts + 1
                 && n.sent == e.sent + (if true in layers then [t] else [])
                 && (true !in layers ==> n.state == e.state)
                 && (true in layers ==> Awaiting(n))
  {
    hide SetType, IsSet, Missing, Differs;
    NothingMissingIfSame(e.received, e.used);
    ReceiveLowest(e.received, e.used);
    OfferedAccepted(e.state, layers);
    assert e.sent + [] == e.sent;
  }

  /** A pending change that exactly one layer accepts is on its way; with two it is not told from a config
      sent again. */
  lemma {:induction false} OfferedCounts(state: State, layers: seq<bool>)
    requires state == LocalChangePending || state == ResendConfig || state == SetChannelConfigSend
             || state == LocalChangeSent
    ensures Offered(state, layers) ==
            if true !in layers then state
            else if state == LocalChangePending && multiset(layers)[true] == 1 then LocalChangeSent
            else SetChannelConfigSend
    decreases |layers|
  {
    if layers != [] {
      assert layers == [layers[0]] + layers[1..];
      OfferedCounts(if !layers[0] then state
                    else if state == LocalChangePending then LocalChangeSent
                    else SetChannelConfigSend, layers[1..]);
    }
  }

  /** A local change is pending and marked, everything else is as it was. */
  lemma LocalChangeLaw(e: Exchange)
    ensures var n := LocalChange(e);
            n.state == LocalChangePending && n.flag && n.(state := e.state, flag := e.flag) == e
  {}

  /** The mark is cleared together with an exchange that is under way. */
  lemma ClearLaw(e: Exchange)
    ensures if e.state == None || e.state == SetChannelConfigFailed then ClearFlag(e) == e
            else ClearFlag(e).state == None && !ClearFlag(e).flag
                 && ClearFlag(e).(state := e.state, flag := e.flag) == e
  {}

  // ----- the element

  class ElementWithChannelActions {
    var channelConfigState: State
    var setChannelConfigAttempts: nat
    var receivedConfigTypes: bv8
    var usedConfigTypes: bv8
    var channelFunction: nat
    var configChangeFlag: bool
    var applied: seq<int>
    var sent: seq<int>

    ghost function View(): Exchange
      reads this
    {
      Exchange(channelConfigState, setChannelConfigAttempts, receivedConfigTypes, usedConfigTypes,
               channelFunction, configChangeFlag, applied, sent)
    }

    method ClearChannelConfigChangedFlag()
      modifies this
      ensures View() == ClearFlag(old(View()))
    {
      if channelConfigState != None && channelConfigState != SetChannelConfigFailed {
        channelConfigState := None;
        configChangeFlag := false;
      }
    }

    method OnRegistered()
      modifies this
      ensures View() == Registered(old(View()))
    {
      receivedConfigTypes := 0;
      setChannelConfigAttempts := 0;
      match channelConfigState
      case None => channelConfigState := WaitForConfigFinished;
      case WaitForConfigFinished =>
      case LocalChangePending =>
      case _ => channelConfigState := ResendConfig;
    }

    method HandleChannelConfigFinished()
      modifies this
      ensures View() == ConfigFinished(old(View()))
    {
      hide Differs, SetFinished;
      receivedConfigTypes := SetFinished(receivedConfigTypes);
      setChannelConfigAttempts := 0;
      if channelConfigState == WaitForConfigFinished {
        channelConfigState := None;
      }
      if Differs(receivedConfigTypes, usedConfigTypes) {
        channelConfigState := ResendConfig;
      }
    }

    method SetLocalChange()
      modifies this
      ensures View() == LocalChange(old(View()))
    {
      channelConfigState := LocalChangePending;
      configChangeFlag := true;
    }

    method TriggerSetChannelConfig(configType: int)
      modifies this
      ensures View() == Trigger(old(View()), configType)
    {
      if channelConfigState != SetChannelConfigFailed {
        channelConfigState := ResendConfig;
        receivedConfigTypes := ClearType(receivedConfigTypes, configType);
      }
    }

    method HandleChannelConfig(c: Config, local: bool) returns (result: int)
      modifies this
      ensures View() == HandleConfig(old(View()), c, local)
      ensures result == 1 || result == 2 || result == 3
      ensures result == 3 <==>
                c.func != 0 && (!IsSet(usedConfigTypes, c.configType) ||
                                (c.apply.NotSupported? && applied != old(applied)))
      ensures result == 2 <==> c.apply.DataError? && applied != old(applied)
    {
      hide IsSet, SetType, ClearType;
      if c.func != channelFunction {
        channelFunction := StoredFunction(c.func);
      }
      if c.func == 0 {
        channelConfigState := None;
        receivedConfigTypes := usedConfigTypes;
        return 1;
      }
      if !IsSet(usedConfigTypes, c.configType) {
        return 3;
      }
      if c.configType != CONFIG_TYPE_OCR {
        if channelConfigState == LocalChangePending && !local {
          return 1;
        }
      }
      hide ApplyConfig;
      result := ApplyChannelConfig(c);
    }

    method ApplyChannelConfig(c: Config) returns (result: int)
      modifies this
      ensures View() == ApplyConfig(old(View()), c)
      ensures applied == old(applied) + [c.configType] && usedConfigTypes == old(usedConfigTypes)
      ensures result == match c.apply
                        case DataError => 2
                        case NotSupported => 3
                        case _ => 1
    {
      hide IsSet, SetType, ClearType;
      applied := applied + [c.configType];
      match c.apply {
        case Success =>
          receivedConfigTypes := SetType(receivedConfigTypes, c.configType);
          return 1;
        case NotSupported =>
          receivedConfigTypes := SetType(receivedConfigTypes, c.configType);
          return 3;
        case SetChannelConfigNeeded =>
          TriggerSetChannelConfig(c.configType);
          return 1;
        case DataError =>
          return 2;
      }
    }

    method HandleSetChannelConfigResult(configType: int, success: bool)
      modifies this
      ensures View() == SetResult(old(View()), configType, success)
    {
      receivedConfigTypes := SetType(receivedConfigTypes, configType);
      if channelConfigState == SetChannelConfigSend || channelConfigState == LocalChangeSent {
        if Differs(receivedConfigTypes, usedConfigTypes) {
          setChannelConfigAttempts := 0;
          if channelConfigState == SetChannelConfigSend {
            channelConfigState := ResendConfig;
          } else {
            channelConfigState := LocalChangePending;
          }
        } else {
          ClearChannelConfigChangedFlag();
        }
      }
      if !success {
        ClearChannelConfigChangedFlag();
        channelConfigState := SetChannelConfigFailed;
      }
    }

    /** The lowest type that is used but not received, or -1. */
    method GetNextConfigType() returns (t: int)
      ensures t == NextConfigType(receivedConfigTypes, usedConfigTypes)
    {
      hide IsSet, Differs, Missing;
      if Differs(receivedConfigTypes, usedConfigTypes) {
        t := LowestSet(!receivedConfigTypes & usedConfigTypes);
        LowestIsNext(receivedConfigTypes, usedConfigTypes, t);
        return;
      }
      return -1;
    }

    static method LowestSet(notReceived: bv8) returns (t: int)
      ensures -1 <= t < 8
      ensures t >= 0 ==> IsSet(notReceived, t)
      ensures forall k :: 0 <= k < (if t >= 0 then t else 8) ==> !IsSet(notReceived, k)
    {
      hide IsSet;
      var i := 0;
      while i < 8
        invariant 0 <= i <= 8
        invariant forall k :: 0 <= k < i ==> !IsSet(notReceived, k)
      {
        if IsSet(notReceived, i) {
          return i;
        }
        i := i + 1;
      }
      return -1;
    }

    /** The result says whether the main loop may go on with the next element: false after a send. */
    method IterateConfigExchange(filled: bool, layers: seq<bool>) returns (r: bool)
      modifies this
      ensures View() == Iterate(old(View()), filled, layers)
      ensures !r <==> sent != old(sent)
    {
      hide SetType, IsSet, Missing, Differs;
      if receivedConfigTypes & FINISHED == 0 {
        return true;
      }
      if channelFunction == 0 {
        return true;
      }
      if channelConfigState == LocalChangePending || channelConfigState == ResendConfig {
        var next := GetNextConfigType();
        if next == -1 {
          ClearChannelConfigChangedFlag();
          return true;
        }
        if setChannelConfigAttempts < 3 {
          setChannelConfigAttempts := setChannelConfigAttempts + 1;
          if filled {
            OfferedAccepted(channelConfigState, layers);
            var sendResult := Offer(layers);
            if sendResult {
              sent := sent + [next];
              return false;
            }
          } else {
            receivedConfigTypes := SetType(receivedConfigTypes, next);
          }
        } else {
          receivedConfigTypes := SetType(receivedConfigTypes, next);
          setChannelConfigAttempts := 0;
        }
      }
      return true;
    }

    /** The loop over the protocol layers. */
    method Offer(layers: seq<bool>) returns (accepted: bool)
      modifies this`channelConfigState
      ensures channelConfigState == Offered(old(channelConfigState), layers)
      ensures accepted == (true in layers)
    {
      accepted := false;
      var i := 0;
      while i < |layers|
        invariant 0 <= i <= |layers|
        invariant Offered(channelConfigState, layers[i..]) == Offered(old(channelConfigState), layers)
        invariant accepted == (true in layers[..i])
      {
        if layers[i] {
          channelConfigState := if channelConfigState == LocalChangePending then LocalChangeSent
                                else SetChannelConfigSend;
          accepted := true;
        }
        i := i + 1;
      }
      assert layers[..i] == layers;
    }
  }

  lemma TestNotReceived(received: bv8, used: bv8, notReceived: bv8, k: int)
    requires notReceived == !received & used
    ensures IsSet(notReceived, k) == (IsSet(used, k) && !IsSet(received, k))
    ensures IsSet(notReceived, k) ==> k in TYPES
  {}

  /** The lowest set bit of the not received types is the first of the missing ones. */
  lemma LowestIsNext(received: bv8, used: bv8, t: int)
    requires -1 <= t < 8 && (t >= 0 ==> IsSet(!received & used, t))
    requires var notReceived := !received & used;
             forall k :: 0 <= k < (if t >= 0 then t else 8) ==> !IsSet(notReceived, k)
    ensures t == if Missing(received, used) == [] then -1 else Missing(received, used)[0]
  {
    hide IsSet;
    var notReceived := !received & used;
    TestNotReceived(received, used, notReceived, t);
    TestNotReceived(received, used, notReceived, 0);
    TestNotReceived(received, used, notReceived, 2);
    TestNotReceived(received, used, notReceived, 3);
    TestNotReceived(received, used, notReceived, 4);
    TestNotReceived(received, used, notReceived, 5);
  }
}

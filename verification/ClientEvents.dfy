/** What the client does as a function of the events alone: how far discovery has come, which handles
    it holds, and what its event handler asks for on a button signal or a value. */
module ClientEvents {
  import opened Client
  import opened ClientRuns

  // ----- What a trace of events means -----

  /** The procedures completed in the discovery under way, or -1: a discovery begins when a connection
      is opened and the first request accepted, and ends when the connection is closed. */
  function Completions(inputs: seq<Input>): (c: int)
    ensures c >= -1
  {
    if inputs == [] then -1
    else
      var before, last := Completions(inputs[..|inputs| - 1]), inputs[|inputs| - 1];
      match last.event
      case ConnectionClosed => -1
      case ConnectionOpened(_) => if before < 0 && last.machineAccepted then 0 else before
      case ProcedureCompleted(_) => if before >= 0 then before + 1 else before
      case _ => before
  }

  /** The notification setting the user has asked for: off at boot, on when the fifth procedure of a
      discovery, setting the notification, completes, and the other one at each button signal. */
  function Wanted(inputs: seq<Input>): bool {
    if inputs == [] then false
    else
      var before, last := inputs[..|inputs| - 1], inputs[|inputs| - 1];
      match last.event
      case Boot => false
      case ExternalSignal => !Wanted(before)
      case ProcedureCompleted(_) => Completions(before) == 4 || Wanted(before)
      case _ => Wanted(before)
  }

  function IsOpen(inputs: seq<Input>): bool {
    if inputs == [] then false
    else
      match inputs[|inputs| - 1].event
      case ConnectionOpened(_) => true
      case ConnectionClosed => false
      case _ => IsOpen(inputs[..|inputs| - 1])
  }

  /** The connection named last: by a scan report, or by an opening outside a discovery. */
  function NamedConnection(inputs: seq<Input>): nat {
    if inputs == [] then 0
    else
      var before, e := inputs[..|inputs| - 1], inputs[|inputs| - 1].event;
      if e.ServerFound? || (e.ConnectionOpened? && Completions(before) < 0) then e.connection
      else NamedConnection(before)
  }

  /** Does a reported UUID start with these bytes? */
  predicate StartsWith(reported: seq<nat>, bytes: seq<nat>) {
    |bytes| <= |reported| && reported[..|bytes|] == bytes
  }

  /** The service reported last under a UUID, 0 if none. */
  function LastService(inputs: seq<Input>, bytes: seq<nat>): nat {
    if inputs == [] then 0
    else
      var e := inputs[|inputs| - 1].event;
      if e.Service? && StartsWith(e.uuid, bytes) then e.service
      else LastService(inputs[..|inputs| - 1], bytes)
  }

  function LastCharacteristic(inputs: seq<Input>, bytes: seq<nat>): nat {
    if inputs == [] then 0
    else
      var e := inputs[|inputs| - 1].event;
      if e.Characteristic? && StartsWith(e.uuid, bytes) then e.characteristic
      else LastCharacteristic(inputs[..|inputs| - 1], bytes)
  }

  /** The UUIDs of the server's services and characteristics, as the stack reports them. */
  const KEYPAD_SERVICE: seq<nat> := [0x09, 0x18]
  const KEYPAD: seq<nat> := [0x1C, 0x2A]
  const LED_SERVICE: seq<nat> := [0x89, 0x62, 0x13, 0x2d, 0x2a, 0x65, 0xec, 0x87, 0x3e, 0x43, 0xc8, 0x38, 1, 0, 0, 0]
  const LED: seq<nat> := [0x89, 0x62, 0x13, 0x2d, 0x2a, 0x65, 0xec, 0x87, 0x3e, 0x43, 0xc8, 0x38, 2, 0, 0, 0]

  // ----- Every run follows its events -----

  ghost predicate StateFollows(d: Data, inputs: seq<Input>) {
    var c := Completions(inputs);
    && d.state.Index() == (if c < 0 then 0 else if c < 5 then c + 1 else 6)
    && d.notificationFlag == Wanted(inputs)
    && d.connectionOpen == IsOpen(inputs)
    && d.connection == NamedConnection(inputs)
  }

  ghost predicate HandlesFollow(d: Data, inputs: seq<Input>) {
    && d.keypadService == LastService(inputs, KEYPAD_SERVICE)
    && d.ledService == LastService(inputs, LED_SERVICE)
    && d.keypadCharacteristic == LastCharacteristic(inputs, KEYPAD)
    && d.ledCharacteristic == LastCharacteristic(inputs, LED)
  }

  lemma StepFollowsState(d: Data, inputs: seq<Input>)
    requires inputs != [] && StateFollows(d, inputs[..|inputs| - 1])
    ensures StateFollows(Step(d, inputs[|inputs| - 1]), inputs)
  {
    hide Uuid.Names, Record, HandlerRequests, MachineRequests;
  }

  lemma StepFollowsHandles(d: Data, inputs: seq<Input>)
    requires inputs != [] && HandlesFollow(d, inputs[..|inputs| - 1])
    ensures HandlesFollow(Step(d, inputs[|inputs| - 1]), inputs)
  {
    hide Record, HandlerRequests, MachineRequests, NextState;
  }

  /** For every event trace and all answers of the stack: the state counts the completed procedures of
      the discovery under way, so `Wait` means that all five have completed; the notification flag
      is the setting asked for; the open flag, the connection and the four handles are the last
      ones reported. */
  lemma {:induction false} EveryRunFollowsEvents(inputs: seq<Input>)
    ensures StateFollows(Run(BEGIN, inputs).d, inputs) && HandlesFollow(Run(BEGIN, inputs).d, inputs)
    ensures Run(BEGIN, inputs).d.state == Wait <==> Completions(inputs) >= 5
  {
    if inputs == [] {
    } else {
      hide StateFollows, HandlesFollow, Step;
      EveryRunFollowsEvents(inputs[..|inputs| - 1]);
      StepFollowsState(Run(BEGIN, inputs[..|inputs| - 1]).d, inputs);
      StepFollowsHandles(Run(BEGIN, inputs[..|inputs| - 1]).d, inputs);
    }
    WaitIsLast(Run(BEGIN, inputs).d, inputs);
  }

  lemma WaitIsLast(d: Data, inputs: seq<Input>)
    requires StateFollows(d, inputs)
    ensures d.state == Wait <==> Completions(inputs) >= 5
  {
  }

  // ----- What the handler asks for -----

  /** On every run, a button signal asks the stack for the other setting than the one asked for last. */
  lemma SignalAsksForOtherSetting(inputs: seq<Input>, i: Input)
    requires i.event.ExternalSignal?
    ensures var d := Run(BEGIN, inputs).d;
            Observe(Run(BEGIN, inputs), i).d.calls == d.calls +
              [Call(false, SetNotification(d.connection, LastCharacteristic(inputs, KEYPAD), !Wanted(inputs)),
                    i.handlerAccepted)]
  {
    EveryRunFollowsEvents(inputs);
    StepEffect(Run(BEGIN, inputs).d, i);
    hide Run, Step, Wanted, LastCharacteristic;
  }

  /** On every run, a value makes the handler read again exactly when it belongs to the keypad
      characteristic and was notified or read. */
  lemma ValueIsReadAgainIff(inputs: seq<Input>, i: Input)
    requires i.event.Value?
    ensures var d := Run(BEGIN, inputs).d;
            var c := i.event.characteristic;
            Observe(Run(BEGIN, inputs), i).d.calls == d.calls +
              if c == LastCharacteristic(inputs, KEYPAD) && i.event.opcode in {Notification, ReadResponse}
              then [Call(false, ReadValue(d.connection, c), i.handlerAccepted)] else []
  {
    EveryRunFollowsEvents(inputs);
    StepEffect(Run(BEGIN, inputs).d, i);
    hide Run, Step, LastCharacteristic;
  }

  /** On every run, an opened connection and each completed procedure make the machine ask for the next
      thing, with the handles reported last; the fifth completion and any other event ask for
      nothing. */
  lemma MachineAsksInTurn(inputs: seq<Input>, i: Input)
    requires i.event.ConnectionOpened? || i.event.ProcedureCompleted?
    ensures var d, e := Run(BEGIN, inputs).d, i.event;
            Observe(Run(BEGIN, inputs), i).d.calls == d.calls +
              match Completions(inputs) {
                case -1 =>
                  if e.ConnectionOpened?
                  then [Call(true, DiscoverServices(e.connection, KeypadService), i.machineAccepted)] else []
                case 0 =>
                  if e.ProcedureCompleted?
                  then [Call(true, DiscoverServices(d.connection, LedService), i.machineAccepted)] else []
                case 1 =>
                  if e.ProcedureCompleted?
                  then var service := LastService(inputs, KEYPAD_SERVICE);
                       [Call(true, DiscoverCharacteristics(d.connection, service, KeypadCharac), i.machineAccepted)]
                  else []
                case 2 =>
                  if e.ProcedureCompleted?
                  then var service := LastService(inputs, LED_SERVICE);
                       [Call(true, DiscoverCharacteristics(d.connection, service, LedCharac), i.machineAccepted)]
                  else []
                case 3 =>
                  if e.ProcedureCompleted?
                  then [Call(true, SetNotification(d.connection, LastCharacteristic(inputs, KEYPAD), true),
                             i.machineAccepted)] else []
                case _ => []
              }
  {
    EveryRunFollowsEvents(inputs);
    StepEffect(Run(BEGIN, inputs).d, i);
    hide Run, Step, LastCharacteristic, LastService, Wanted;
  }

  /** Other events make nobody ask for anything. */
  lemma OtherEventsAskNothing(inputs: seq<Input>, i: Input)
    requires !i.event.ConnectionOpened? && !i.event.ProcedureCompleted? && !i.event.ExternalSignal? && !i.event.Value?
    ensures Observe(Run(BEGIN, inputs), i).d.calls == Run(BEGIN, inputs).d.calls
  {
    StepEffect(Run(BEGIN, inputs).d, i);
    hide Run, Step;
  }

  /** As long as nothing else is asked for: no boot, no signal, and no notification set by discovery. */
  ghost predicate Undisturbed(inputs: seq<Input>, between: seq<Input>) {
    forall k :: 0 <= k < |between| ==>
      && !between[k].event.Boot? && !between[k].event.ExternalSignal?
      && (between[k].event.ProcedureCompleted? ==> Wanted(inputs) || Completions(inputs + between[..k]) != 4)
  }

  lemma {:induction false} WantedStays(inputs: seq<Input>, between: seq<Input>)
    requires Undisturbed(inputs, between)
    ensures Wanted(inputs + between) == Wanted(inputs)
  {
    if between == [] {
      assert inputs + between == inputs;
    } else {
      var n := |between| - 1;
      assert (inputs + between)[..|inputs + between| - 1] == inputs + between[..n];
      assert forall k :: 0 <= k < n ==> between[..n][..k] == between[..k];
      WantedStays(inputs, between[..n]);
    }
  }

  /** Successive signals ask for opposite settings, whatever the stack answered... */
  lemma SignalsAlternate(inputs: seq<Input>, s: Input, between: seq<Input>, s': Input)
    requires s.event.ExternalSignal? && s'.event.ExternalSignal? && Undisturbed(inputs + [s], between)
    ensures var first := Observe(Run(BEGIN, inputs), s).d.calls;
            var second := Observe(Run(BEGIN, inputs + [s] + between), s').d.calls;
            && first != [] && first[|first| - 1].request.SetNotification?
            && second != [] && second[|second| - 1].request.SetNotification?
            && first[|first| - 1].request.enable != second[|second| - 1].request.enable
  {
    hide Run, Observe, LastCharacteristic, Undisturbed;
    assert (inputs + [s])[..|inputs|] == inputs;
    assert Wanted(inputs + [s]) == !Wanted(inputs);
    hide Wanted;
    WantedStays(inputs + [s], between);
    SignalAsksForOtherSetting(inputs, s);
    SignalAsksForOtherSetting(inputs + [s] + between, s');
  }

  /** ... and the first one after a finished discovery switches the notifications off. */
  lemma FirstSignalAfterDiscoveryDisables(inputs: seq<Input>, done: Input, between: seq<Input>, s: Input)
    requires done.event.ProcedureCompleted? && Completions(inputs) == 4 && s.event.ExternalSignal?
    requires forall k :: 0 <= k < |between| ==> !between[k].event.Boot? && !between[k].event.ExternalSignal?
    ensures var w := Run(BEGIN, inputs + [done] + between);
            Observe(w, s).d.calls == w.d.calls +
              [Call(false, SetNotification(w.d.connection, w.d.keypadCharacteristic, false), s.handlerAccepted)]
  {
    hide Run, Observe, LastCharacteristic, LastService, Completions;
    assert (inputs + [done])[..|inputs|] == inputs;
    assert Wanted(inputs + [done]);
    hide Wanted;
    WantedStays(inputs + [done], between);
    SignalAsksForOtherSetting(inputs + [done] + between, s);
    EveryRunFollowsEvents(inputs + [done] + between);
  }

  // ----- Reading for ever -----

  function Repeated(i: Input, n: nat): seq<Input> {
    seq(n, _ => i)
  }

  function Calls(c: Call, n: nat): seq<Call> {
    seq(n, _ => c)
  }

  lemma OneMoreRead(before: seq<Input>, i: Input)
    requires i.event == Value(LastCharacteristic(before, KEYPAD), ReadResponse)
    ensures var d, d' := Run(BEGIN, before).d, Run(BEGIN, before + [i]).d;
            && d'.connection == d.connection
            && d'.calls == d.calls + [Call(false, ReadValue(d.connection, i.event.characteristic), i.handlerAccepted)]
    ensures LastCharacteristic(before + [i], KEYPAD) == LastCharacteristic(before, KEYPAD)
  {
    assert (before + [i])[..|before|] == before;
    ValueIsReadAgainIff(before, i);
    ValueKeepsConnection(Run(BEGIN, before), i);
    hide Observe;
  }

  lemma ValueKeepsConnection(w: World, i: Input)
    requires i.event.Value?
    ensures Observe(w, i).d.connection == w.d.connection
  {
  }

  /** The handler answers the response to its read with another read: after any run, `n` responses for
      the keypad characteristic make it read `n` more times, so it reads for as long as the server
      answers. */
  lemma {:induction false} ReadingNeverEnds(inputs: seq<Input>, i: Input, n: nat)
    requires i.event == Value(LastCharacteristic(inputs, KEYPAD), ReadResponse)
    ensures var d, d' := Run(BEGIN, inputs).d, Run(BEGIN, inputs + Repeated(i, n)).d;
            var read := Call(false, ReadValue(d.connection, i.event.characteristic), i.handlerAccepted);
            d'.connection == d.connection && d'.calls == d.calls + Calls(read, n)
    ensures LastCharacteristic(inputs + Repeated(i, n), KEYPAD) == LastCharacteristic(inputs, KEYPAD)
  {
    hide Run, LastCharacteristic;
    if n == 0 {
      assert inputs + Repeated(i, 0) == inputs;
    } else {
      assert inputs + Repeated(i, n) == (inputs + Repeated(i, n - 1)) + [i];
      ReadingNeverEnds(inputs, i, n - 1);
      OneMoreRead(inputs + Repeated(i, n - 1), i);
    }
  }
}

/** What every run of the client keeps: the order of discovery, which handles it uses, and how many
    attribute-protocol requests are outstanding (Bluetooth Core Specification, Vol 3, Part F,
    section 3.3.2 allows one). */
module ClientRuns {
  import opened Client

  // ----- Observing a run -----

  /** What a run has to remember beside the client's own data: where the current discovery starts in
      the list of calls, the handles reported in the open connection, whether the
      procedure the machine waits for has delivered its result, whether the machine ever used
      a handle that was not reported in the current connection, and how many accepted requests
      have not completed. */
  datatype History = History(start: nat,
                             keypadServices: set<nat>, ledServices: set<nat>, keypadCharacteristics: set<nat>,
                             answered: bool, usedStaleHandle: bool, outstanding: nat)

  datatype World = World(d: Data, h: History)

  const BEGIN := World(RESET, History(0, {}, {}, {}, false, false, 0))

  /** The result the machine waits for in each discovery state. */
  predicate IsResult(state: Discovery, e: Event) {
    match state
    case KeypadServices => e.Service? && Uuid.KeypadService.Names(e.uuid)
    case LedServices => e.Service? && Uuid.LedService.Names(e.uuid)
    case KeypadCharacteristics => e.Characteristic? && Uuid.KeypadCharac.Names(e.uuid)
    case LedCharacteristics => e.Characteristic? && Uuid.LedCharac.Names(e.uuid)
    case _ => false
  }

  /** The handles of one kind reported in the open connection; there are none without one. */
  function Reported(seen: set<nat>, connectionOpen: bool, e: Event, matches: bool, handle: nat): set<nat> {
    if e.ConnectionOpened? || e.ConnectionClosed? then {}
    else if matches && connectionOpen then seen + {handle}
    else seen
  }

  function AcceptedIn(calls: seq<Call>): nat {
    if calls == [] then 0 else AcceptedIn(calls[..|calls| - 1]) + (if calls[|calls| - 1].accepted then 1 else 0)
  }

  /** A handle in a request that is not among those reported in this connection. */
  predicate StaleRequest(h: History, r: Request) {
    match r
    case DiscoverCharacteristics(_, service, uuid) =>
      service !in (if uuid == KeypadCharac then h.keypadServices else h.ledServices)
    case SetNotification(_, characteristic, _) => characteristic !in h.keypadCharacteristics
    case ReadValue(_, characteristic) => characteristic !in h.keypadCharacteristics
    case DiscoverServices(_, _) => false
  }

  /** Does the machine make a request in this step? */
  predicate MachineCalls(d: Data, i: Input) {
    if d.state.Open? then i.event.ConnectionOpened?
    else i.event.ProcedureCompleted? && d.state.Index() <= 4
  }

  function Observe(w: World, i: Input): World {
    var (d, h, e) := (w.d, w.h, i.event);
    var d' := Step(d, i);
    var h1 := h.(
      keypadServices := Reported(
        h.keypadServices, d.connectionOpen, e,
        e.Service? && Uuid.KeypadService.Names(e.uuid), if e.Service? then e.service else 0),
      ledServices := Reported(
        h.ledServices, d.connectionOpen, e,
        e.Service? && Uuid.LedService.Names(e.uuid), if e.Service? then e.service else 0),
      keypadCharacteristics := Reported(
        h.keypadCharacteristics, d.connectionOpen, e,
        e.Characteristic? && Uuid.KeypadCharac.Names(e.uuid), if e.Characteristic? then e.characteristic else 0));
    var before := if e.ConnectionClosed? then 0
                  else if e.ProcedureCompleted? && h.outstanding > 0 then h.outstanding - 1
                  else h.outstanding;
    var made := if |d.calls| <= |d'.calls| then d'.calls[|d.calls|..] else [];
    World(d', h1.(
      start := if d.state.Open? then |d.calls| else h.start,
      answered := if MachineCalls(d, i) then false else h.answered || IsResult(d.state, e),
      usedStaleHandle :=
        h.usedStaleHandle || (made != [] && made[|made| - 1].byMachine && StaleRequest(h1, made[|made| - 1].request)),
      outstanding := before + AcceptedIn(made)))
  }

  function Run(w: World, inputs: seq<Input>): World {
    if inputs == [] then w else Observe(Run(w, inputs[..|inputs| - 1]), inputs[|inputs| - 1])
  }

  // ----- The order of discovery -----

  datatype Kind = FindService(uuid: Uuid) | FindCharacteristic(uuid: Uuid) | Subscribe | Unsubscribe | Read

  function KindOf(r: Request): Kind {
    match r
    case DiscoverServices(_, uuid) => FindService(uuid)
    case DiscoverCharacteristics(_, _, uuid) => FindCharacteristic(uuid)
    case SetNotification(_, _, enable) => if enable then Subscribe else Unsubscribe
    case ReadValue(_, _) => Read
  }

  function MachineKinds(calls: seq<Call>): seq<Kind> {
    if calls == [] then []
    else
      var last := calls[|calls| - 1];
      MachineKinds(calls[..|calls| - 1]) + (if last.byMachine then [KindOf(last.request)] else [])
  }

  /** The five requests of a discovery. */
  const DISCOVERY: seq<Kind> := [
    FindService(KeypadService), FindService(LedService),
    FindCharacteristic(KeypadCharac), FindCharacteristic(LedCharac), Subscribe]

  /** While a discovery is under way, the connection is open and the machine has made exactly the
      first requests of the list, as many as the state says. */
  ghost predicate InOrder(w: World) {
    w.d.state != Open ==>
      && w.d.connectionOpen && w.h.start <= |w.d.calls|
      && MachineKinds(w.d.calls[w.h.start..]) == FirstRequests(w.d.state)
  }

  /** The first `min(state, 5)` requests of the list. */
  function FirstRequests(state: Discovery): seq<Kind> {
    DISCOVERY[..if state.Index() <= 5 then state.Index() else 5]
  }

  // ----- What a step does -----

  lemma StepEffect(d: Data, i: Input)
    ensures var d' := Step(d, i);
            && d'.state == NextState(d.state, i.event, i.machineAccepted)
            && d'.calls == Record(Record(d.calls, false, HandlerRequests(d, i.event), i.handlerAccepted),
                                  true, MachineRequests(d, i.event), i.machineAccepted)
            && (MachineRequests(d, i.event) != [] ==> HandlerRequests(d, i.event) == [])
  {
    var d1 := Handle(d, i.event, i.handlerAccepted);
    assert MachineRequests(d1, i.event) == MachineRequests(d, i.event);
  }

  // ----- Every run discovers in order -----

  lemma KindsOfRecord(calls: seq<Call>, byMachine: bool, requests: seq<Request>, accepted: bool)
    ensures MachineKinds(Record(calls, byMachine, requests, accepted))
            == MachineKinds(calls) + (if byMachine && requests != [] then [KindOf(requests[0])] else [])
  {
    if requests == [] || !byMachine {
      assert MachineKinds(calls) + [] == MachineKinds(calls);
    }
    if requests != [] {
      var c := Call(byMachine, requests[0], accepted);
      assert (calls + [c])[..|calls|] == calls;
    }
  }

  lemma RecordSuffix(calls: seq<Call>, start: nat, byMachine: bool, requests: seq<Request>, accepted: bool)
    requires start <= |calls|
    ensures start <= |Record(calls, byMachine, requests, accepted)|
    ensures Record(calls, byMachine, requests, accepted)[start..] ==
            Record(calls[start..], byMachine, requests, accepted)
  {
  }

  function NextKinds(d: Data, e: Event): seq<Kind> {
    if MachineRequests(d, e) == [] then [] else [KindOf(MachineRequests(d, e)[0])]
  }

  /** The kinds of the machine's requests from `start` on, after one step. */
  lemma KindsAfterStep(d: Data, i: Input, start: nat)
    requires start <= |d.calls|
    ensures var d' := Step(d, i);
            && start <= |d'.calls|
            && MachineKinds(d'.calls[start..]) == MachineKinds(d.calls[start..]) + NextKinds(d, i.event)
  {
    StepEffect(d, i);
    hide Step, Record, MachineKinds, MachineRequests, HandlerRequests;
    var hr, mr := HandlerRequests(d, i.event), MachineRequests(d, i.event);
    var c1 := Record(d.calls, false, hr, i.handlerAccepted);
    RecordSuffix(d.calls, start, false, hr, i.handlerAccepted);
    RecordSuffix(c1, start, true, mr, i.machineAccepted);
    KindsOfRecord(d.calls[start..], false, hr, i.handlerAccepted);
    KindsOfRecord(c1[start..], true, mr, i.machineAccepted);
    var kinds := MachineKinds(d.calls[start..]);
    assert kinds + [] == kinds;
  }

  /** Each move of the machine makes the next request of the list. */
  lemma MovesMakeNextRequest(d: Data, e: Event, accepted: bool)
    requires NextState(d.state, e, accepted) != Open
    ensures FirstRequests(NextState(d.state, e, accepted)) == FirstRequests(d.state) + NextKinds(d, e)
  {
    var k := d.state.Index();
    if MachineRequests(d, e) != [] {
      assert KindOf(MachineRequests(d, e)[0]) == DISCOVERY[k];
    }
  }

  lemma StepKeepsOrder(w: World, i: Input)
    requires InOrder(w)
    ensures InOrder(Observe(w, i))
  {
    StepEffect(w.d, i);
    var start := if w.d.state.Open? then |w.d.calls| else w.h.start;
    KindsAfterStep(w.d, i, start);
    if NextState(w.d.state, i.event, i.machineAccepted) != Open {
      MovesMakeNextRequest(w.d, i.event, i.machineAccepted);
    }
    assert w.d.calls[|w.d.calls|..] == [] && FirstRequests(Open) == [];
    OpenOnlyWhileConnected(w.d, i);
    hide Step, NextState, MachineRequests, FirstRequests, NextKinds, StaleRequest;
  }

  lemma OpenOnlyWhileConnected(d: Data, i: Input)
    requires d.state != Open ==> d.connectionOpen
    ensures Step(d, i).state != Open ==> Step(d, i).connectionOpen
  {
  }

  /** For every event trace and all answers of the stack: the machine's requests since it left
      `Open` are exactly the first `min(state, 5)` of the discovery list, in order, a state
      other than `Open` means that the connection is open, and a close event ends in `Open` from
      any state. */
  lemma {:induction false} EveryRunDiscoversInOrder(inputs: seq<Input>)
    ensures InOrder(Run(BEGIN, inputs))
    ensures inputs != [] && inputs[|inputs| - 1].event.ConnectionClosed? ==> Run(BEGIN, inputs).d.state == Open
  {
    if inputs == [] {
    } else {
      EveryRunDiscoversInOrder(inputs[..|inputs| - 1]);
      StepKeepsOrder(Run(BEGIN, inputs[..|inputs| - 1]), inputs[|inputs| - 1]);
    }
  }

  // ----- The handles used by discovery -----

  /** Each stored handle is one reported in the open connection as soon as any has been. */
  ghost predicate HandlesReported(w: World) {
    && (!w.d.connectionOpen ==>
          w.h.keypadServices == {} && w.h.ledServices == {} && w.h.keypadCharacteristics == {})
    && (w.d.keypadService in w.h.keypadServices <==> w.h.keypadServices != {})
    && (w.d.ledService in w.h.ledServices <==> w.h.ledServices != {})
    && (w.d.keypadCharacteristic in w.h.keypadCharacteristics <==> w.h.keypadCharacteristics != {})
  }

  lemma StepKeepsHandlesReported(w: World, i: Input)
    requires HandlesReported(w)
    ensures HandlesReported(Observe(w, i))
  {
    hide Uuid.Names;
  }

  /** Has nothing been reported yet in this connection for the handle the machine sends next? */
  predicate NothingReported(w: World) {
    match w.d.state
    case LedServices => w.h.keypadServices == {}
    case KeypadCharacteristics => w.h.ledServices == {}
    case LedCharacteristics => w.h.keypadCharacteristics == {}
    case _ => false
  }

  /** For every event trace, a stored handle is one reported in the current connection exactly when
      the connection has reported one. */
  lemma {:induction false} EveryRunTracksHandles(inputs: seq<Input>)
    ensures HandlesReported(Run(BEGIN, inputs))
  {
    if inputs == [] {
    } else {
      EveryRunTracksHandles(inputs[..|inputs| - 1]);
      StepKeepsHandlesReported(Run(BEGIN, inputs[..|inputs| - 1]), inputs[|inputs| - 1]);
    }
  }

  lemma StaleStep(w: World, i: Input)
    requires HandlesReported(w)
    ensures Observe(w, i).h.usedStaleHandle <==>
              w.h.usedStaleHandle || (i.event.ProcedureCompleted? && NothingReported(w))
  {
    StepEffect(w.d, i);
    var made := Step(w.d, i).calls[|w.d.calls|..];
    var mr := MachineRequests(w.d, i.event);
    if mr != [] {
      assert made == [Call(true, mr[0], i.machineAccepted)];
    }
  }

  /** After every event trace, the next event makes the machine use a stale handle exactly when it
      moves on although nothing has been reported for that handle since the connection was opened. */
  lemma StaleIffNothingReported(inputs: seq<Input>, i: Input)
    ensures var w := Run(BEGIN, inputs);
            Observe(w, i).h.usedStaleHandle <==>
              w.h.usedStaleHandle || (i.event.ProcedureCompleted? && NothingReported(w))
  {
    EveryRunTracksHandles(inputs);
    StaleStep(Run(BEGIN, inputs), i);
  }

  /** The environment of a well-behaved connection: a procedure delivers its result before it
      completes, and no connection is opened while one is open. */
  predicate WellBehaved(w: World, e: Event) {
    && (e.ProcedureCompleted? && 1 <= w.d.state.Index() <= 4 ==> w.h.answered)
    && (e.ConnectionOpened? ==> !w.d.connectionOpen)
  }

  ghost predicate AllWellBehaved(inputs: seq<Input>) {
    forall k :: 0 <= k < |inputs| ==> WellBehaved(Run(BEGIN, inputs[..k]), inputs[k].event)
  }

  ghost predicate ResultsSoFar(w: World) {
    var k := w.d.state.Index();
    && !w.h.usedStaleHandle
    && (k >= 2 || (k == 1 && w.h.answered) ==> w.h.keypadServices != {})
    && (k >= 3 || (k == 2 && w.h.answered) ==> w.h.ledServices != {})
    && (k >= 4 || (k == 3 && w.h.answered) ==> w.h.keypadCharacteristics != {})
  }

  lemma StepKeepsResults(w: World, i: Input)
    requires InOrder(w) && HandlesReported(w) && ResultsSoFar(w) && WellBehaved(w, i.event)
    ensures ResultsSoFar(Observe(w, i))
  {
    StaleStep(w, i);
    StepEffect(w.d, i);
    hide Uuid.Names, MachineKinds, InOrder, HandlesReported, Handle, Machine, Step, Record, StaleRequest, AcceptedIn;
    assert w.d.state != Open ==> w.d.connectionOpen;
  }

  /** On every well-behaved run, the service handles the machine passes to both characteristic
      discoveries and the characteristic handle it passes to set-notification were reported in
      the current connection. The handler's own requests are another matter. */
  lemma {:induction false} WellBehavedRunsUseReportedHandles(inputs: seq<Input>)
    requires AllWellBehaved(inputs)
    ensures !Run(BEGIN, inputs).h.usedStaleHandle
    ensures ResultsSoFar(Run(BEGIN, inputs))
  {
    if inputs == [] {
    } else {
      var n := |inputs| - 1;
      var before := inputs[..n];
      forall k | 0 <= k < n ensures WellBehaved(Run(BEGIN, before[..k]), before[k].event) {
        assert before[..k] == inputs[..k];
      }
      WellBehavedRunsUseReportedHandles(before);
      EveryRunDiscoversInOrder(before);
      EveryRunTracksHandles(before);
      StepKeepsResults(Run(BEGIN, before), inputs[n]);
    }
  }

  /** After every event trace, a request of the handler, on a button signal or a value of the keypad,
      carries a stale handle exactly when no keypad characteristic has been reported in an open
      connection: the handler asks neither how far discovery has come nor whether there is one. */
  lemma HandlerUsesStaleHandleIff(inputs: seq<Input>, i: Input)
    requires HandlerRequests(Run(BEGIN, inputs).d, i.event) != []
    ensures var w := Run(BEGIN, inputs);
            var request := HandlerRequests(w.d, i.event)[0];
            && Observe(w, i).d.calls == w.d.calls + [Call(false, request, i.handlerAccepted)]
            && (StaleRequest(Observe(w, i).h, request) <==> w.h.keypadCharacteristics == {})
  {
    EveryRunTracksHandles(inputs);
    StepEffect(Run(BEGIN, inputs).d, i);
    hide Run, Uuid.Names;
  }

  const OPEN_1 := Input(ConnectionOpened(1), true, true)
  const REPORT_5 := Input(Characteristic(5, [0x1C, 0x2A]), true, true)  // the keypad characteristic
  const CLOSE := Input(ConnectionClosed, true, true)
  const SIGNAL := Input(ExternalSignal, true, true)

  /** A button signal right after the connection is opened, on a well-behaved run: the handle passed
      to set-notification is the one the data were reset to. */
  lemma SignalBeforeReportIsStale()
    ensures var w := Run(BEGIN, [OPEN_1, SIGNAL]);
            && AllWellBehaved([OPEN_1, SIGNAL])
            && w.d.calls[|w.d.calls| - 1..] == [Call(false, SetNotification(1, 0, true), true)]
            && StaleRequest(w.h, SetNotification(1, 0, true))
  {
    var w := Observe(BEGIN, OPEN_1);
    assert w.d.connection == 1 && w.d.keypadCharacteristic == 0 && w.h.keypadCharacteristics == {};
    assert [OPEN_1, SIGNAL][..1] == [OPEN_1] && [OPEN_1][..0] == [];
    assert Run(BEGIN, [OPEN_1]) == w;
    assert HandlerRequests(w.d, SIGNAL.event) == [SetNotification(1, 0, true)];
    HandlerUsesStaleHandleIff([OPEN_1], SIGNAL);
    IncompleteRunIsWellBehaved([OPEN_1, SIGNAL]);
    hide Observe;
    assert Run(BEGIN, [OPEN_1, SIGNAL]) == Observe(w, SIGNAL);
  }

  /** A button signal after the connection was closed, on a well-behaved run: the handle is one of
      the closed connection. */
  lemma SignalAfterCloseIsStale()
    ensures var w := Run(BEGIN, [OPEN_1, REPORT_5, CLOSE, SIGNAL]);
            && AllWellBehaved([OPEN_1, REPORT_5, CLOSE, SIGNAL])
            && !Run(BEGIN, [OPEN_1, REPORT_5, CLOSE]).d.connectionOpen
            && w.d.calls[|w.d.calls| - 1..] == [Call(false, SetNotification(1, 5, true), true)]
            && StaleRequest(w.h, SetNotification(1, 5, true))
  {
    var e := [OPEN_1, REPORT_5, CLOSE, SIGNAL];
    AfterClose();
    HandlerUsesStaleHandleIff([OPEN_1, REPORT_5, CLOSE], SIGNAL);
    assert e[..3] == [OPEN_1, REPORT_5, CLOSE];
    assert Run(BEGIN, e) == Observe(Run(BEGIN, e[..3]), SIGNAL);
    IncompleteRunIsWellBehaved(e);
  }

  lemma IncompleteRunIsWellBehaved(inputs: seq<Input>)
    requires forall k :: 0 <= k < |inputs| ==> !inputs[k].event.ProcedureCompleted?
    requires forall k :: 0 < k < |inputs| ==> !inputs[k].event.ConnectionOpened?
    ensures AllWellBehaved(inputs)
  {
    assert inputs[..0] == [];
  }

  lemma AfterClose()
    ensures var d := Run(BEGIN, [OPEN_1, REPORT_5, CLOSE]).d;
            && !d.connectionOpen && HandlerRequests(d, SIGNAL.event) == [SetNotification(1, 5, true)]
    ensures Run(BEGIN, [OPEN_1, REPORT_5, CLOSE]).h.keypadCharacteristics == {}
  {
    var e := [OPEN_1, REPORT_5, CLOSE];
    var w1 := Observe(BEGIN, OPEN_1);
    assert Uuid.KeypadCharac.Names([0x1C, 0x2A]);
    var w2 := Observe(w1, REPORT_5);
    assert w2.d.keypadCharacteristic == 5 && w2.d.connection == 1 && !w2.d.notificationFlag;
    var w3 := Observe(w2, CLOSE);
    assert HandlerRequests(w3.d, SIGNAL.event) == [SetNotification(1, 5, true)];
    assert w3.h.keypadCharacteristics == {} && !w3.d.connectionOpen;
    hide Observe;
    assert e[..2] == [OPEN_1, REPORT_5] && e[..2][..1] == [OPEN_1] && [OPEN_1][..0] == [];
    assert Run(BEGIN, [OPEN_1]) == w1;
    assert Run(BEGIN, e[..2]) == w2;
    assert Run(BEGIN, e) == w3;
  }

  // ----- The connection the machine's requests name -----

  function ConnectionOf(r: Request): nat {
    match r
    case DiscoverServices(c, _) => c
    case DiscoverCharacteristics(c, _, _) => c
    case SetNotification(c, _, _) => c
    case ReadValue(c, _) => c
  }

  /** The connection opened last. */
  function LastOpened(inputs: seq<Input>): nat {
    if inputs == [] then 0
    else
      var e := inputs[|inputs| - 1].event;
      if e.ConnectionOpened? then e.connection else LastOpened(inputs[..|inputs| - 1])
  }

  /** The connection named last, by an opening or by a scan report. */
  function LastNamed(inputs: seq<Input>): nat {
    if inputs == [] then 0
    else
      var e := inputs[|inputs| - 1].event;
      if e.ConnectionOpened? || e.ServerFound? then e.connection else LastNamed(inputs[..|inputs| - 1])
  }

  /** No connection is opened while one is open. */
  ghost predicate OneAtATime(inputs: seq<Input>) {
    forall k :: 0 <= k < |inputs| && inputs[k].event.ConnectionOpened? ==> !Run(BEGIN, inputs[..k]).d.connectionOpen
  }

  lemma OneAtATimePrefix(inputs: seq<Input>, n: nat)
    requires OneAtATime(inputs) && n <= |inputs|
    ensures OneAtATime(inputs[..n])
  {
    hide Run;
    assert forall k :: 0 <= k < n ==> inputs[..n][..k] == inputs[..k];
  }

  lemma {:induction false} ConnectionIsLastNamed(inputs: seq<Input>)
    requires OneAtATime(inputs)
    ensures Run(BEGIN, inputs).d.connection == LastNamed(inputs)
  {
    if inputs == [] {
    } else {
      var n := |inputs| - 1;
      OneAtATimePrefix(inputs, n);
      ConnectionIsLastNamed(inputs[..n]);
      EveryRunDiscoversInOrder(inputs[..n]);
      assert inputs[n].event.ConnectionOpened? ==> !Run(BEGIN, inputs[..n]).d.connectionOpen;
      ConnectionAfter(Run(BEGIN, inputs[..n]), inputs[n]);
    }
  }

  lemma ConnectionAfter(w: World, i: Input)
    requires InOrder(w) && (i.event.ConnectionOpened? ==> !w.d.connectionOpen)
    ensures Observe(w, i).d.connection ==
            if i.event.ConnectionOpened? || i.event.ServerFound? then i.event.connection else w.d.connection
  {
    hide Uuid.Names, Record, MachineKinds, FirstRequests;
  }

  /** On every run on which no connection is opened while one is open, a request of the machine names
      the open connection exactly when the machine has just seen it opened, or no scan report
      since has named another: a scan report overwrites the handle the machine goes on using. */
  lemma MachineUsesOpenConnectionIff(inputs: seq<Input>, i: Input)
    requires OneAtATime(inputs) && MachineRequests(Run(BEGIN, inputs).d, i.event) != []
    ensures var w := Run(BEGIN, inputs);
            var request := MachineRequests(w.d, i.event)[0];
            && Observe(w, i).d.calls == w.d.calls + [Call(true, request, i.machineAccepted)]
            && (ConnectionOf(request) == LastOpened(inputs + [i]) <==>
                i.event.ConnectionOpened? || LastNamed(inputs) == LastOpened(inputs))
  {
    ConnectionIsLastNamed(inputs);
    RequestOfStep(Run(BEGIN, inputs), i);
    assert (inputs + [i])[..|inputs|] == inputs;
    hide Run, Observe, LastNamed, MachineRequests, ConnectionOf, OneAtATime;
  }

  lemma RequestOfStep(w: World, i: Input)
    requires MachineRequests(w.d, i.event) != []
    ensures var request := MachineRequests(w.d, i.event)[0];
            && Observe(w, i).d.calls == w.d.calls + [Call(true, request, i.machineAccepted)]
            && ConnectionOf(request) == if i.event.ConnectionOpened? then i.event.connection else w.d.connection
  {
    StepEffect(w.d, i);
    hide Step, Uuid.Names;
  }

  /** In particular all requests do while no scan report arrives during a connection... */
  lemma {:induction false} QuietScannerKeepsConnection(inputs: seq<Input>)
    requires OneAtATime(inputs)
    requires forall k :: 0 <= k < |inputs| && Run(BEGIN, inputs[..k]).d.connectionOpen ==> !inputs[k].event.ServerFound?
    ensures Run(BEGIN, inputs).d.connectionOpen ==> LastNamed(inputs) == LastOpened(inputs)
  {
    if inputs == [] {
    } else {
      var n := |inputs| - 1;
      OneAtATimePrefix(inputs, n);
      assert forall k :: 0 <= k < n ==> inputs[..n][..k] == inputs[..k];
      QuietScannerKeepsConnection(inputs[..n]);
      OpensOnlyByEvent(Run(BEGIN, inputs[..n]), inputs[n]);
    }
  }

  lemma OpensOnlyByEvent(w: World, i: Input)
    ensures Observe(w, i).d.connectionOpen ==> w.d.connectionOpen || i.event.ConnectionOpened?
  {
    hide Uuid.Names, Record;
  }

  /** ... and one scan report during discovery sends the next request elsewhere. */
  lemma ScanReportDivertsDiscovery()
    ensures var open, report := Input(ConnectionOpened(1), true, true), Input(ServerFound(2), true, true);
            var completed := Input(ProcedureCompleted(0), true, true);
            var w := Run(BEGIN, [open, report, completed]);
            && LastOpened([open, report, completed]) == 1
            && w.d.calls == [Call(true, DiscoverServices(1, KeypadService), true),
                             Call(true, DiscoverServices(2, LedService), true)]
  {
    var open, report := Input(ConnectionOpened(1), true, true), Input(ServerFound(2), true, true);
    var completed := Input(ProcedureCompleted(0), true, true);
    var e := [open, report, completed];
    var w1 := Observe(BEGIN, open);
    var w2 := Observe(w1, report);
    var w3 := Observe(w2, completed);
    assert w1.d.calls == [Call(true, DiscoverServices(1, KeypadService), true)];
    assert w2.d.calls == w1.d.calls && w2.d.connection == 2;
    assert w3.d.calls == w1.d.calls + [Call(true, DiscoverServices(2, LedService), true)];
    assert e[..2] == [open, report] && e[..2][..1] == [open] && [open][..0] == [];
    hide Observe;
    assert Run(BEGIN, [open]) == w1;
    assert Run(BEGIN, e[..2]) == w2;
    assert Run(BEGIN, e) == w3;
    assert LastOpened([open]) == 1;
    assert LastOpened(e[..2]) == 1;
  }

  // ----- Outstanding requests -----

  lemma AcceptedInOne(c: Call)
    ensures AcceptedIn([c]) == if c.accepted then 1 else 0
  {
    assert [c][..0] == [];
  }

  lemma OutstandingAfter(w: World, i: Input)
    ensures Observe(w, i).h.outstanding ==
            (if i.event.ConnectionClosed? then 0
             else if i.event.ProcedureCompleted? && w.h.outstanding > 0 then w.h.outstanding - 1
             else w.h.outstanding)
            + (if HandlerRequests(w.d, i.event) != [] && i.handlerAccepted then 1 else 0)
            + (if MachineRequests(w.d, i.event) != [] && i.machineAccepted then 1 else 0)
  {
    StepEffect(w.d, i);
    hide Step;
    var hr, mr := HandlerRequests(w.d, i.event), MachineRequests(w.d, i.event);
    var made := Step(w.d, i).calls[|w.d.calls|..];
    if mr != [] {
      AcceptedInOne(Call(true, mr[0], i.machineAccepted));
      assert made == [Call(true, mr[0], i.machineAccepted)];
    } else if hr != [] {
      AcceptedInOne(Call(false, hr[0], i.handlerAccepted));
      assert made == [Call(false, hr[0], i.handlerAccepted)];
    } else {
      assert made == [];
    }
  }

  /** With at most one request outstanding, a step makes it two exactly when the handler sends one of
      its own, on a button signal or a value of the keypad, or a connection is opened in state
      `Open`, while one is outstanding: the machine itself waits for completions. */
  lemma BreaksOneRequestRuleIff(w: World, i: Input)
    requires w.h.outstanding <= 1
    ensures Observe(w, i).h.outstanding > 1 <==>
              && w.h.outstanding == 1
              && (|| (i.handlerAccepted && (i.event.ExternalSignal? || OwnValue(w.d, i.event)))
                  || (i.machineAccepted && w.d.state.Open? && i.event.ConnectionOpened?))
  {
    OutstandingAfter(w, i);
  }

  ghost predicate Quiet(inputs: seq<Input>) {
    forall k :: 0 <= k < |inputs| ==>
      !inputs[k].event.ExternalSignal? && !OwnValue(Run(BEGIN, inputs[..k]).d, inputs[k].event)
  }

  ghost predicate OneRequest(w: World) {
    w.h.outstanding <= 1 && (w.d.state in {Open, Wait} ==> w.h.outstanding == 0)
  }

  lemma QuietStepKeepsOneRequest(w: World, i: Input)
    requires OneRequest(w) && !i.event.ExternalSignal? && !OwnValue(w.d, i.event)
    ensures OneRequest(Observe(w, i))
  {
    OutstandingAfter(w, i);
    StepEffect(w.d, i);
  }

  /** On every run without button signals and keypad values the one-request rule holds. */
  lemma {:induction false} QuietRunsKeepOneRequestRule(inputs: seq<Input>)
    requires Quiet(inputs)
    ensures OneRequest(Run(BEGIN, inputs))
  {
    hide Observe, OneRequest;
    if inputs == [] {
      BeginHasNoRequest();
    } else {
      var n := |inputs| - 1;
      var before := inputs[..n];
      forall k | 0 <= k < n
        ensures !before[k].event.ExternalSignal? && !OwnValue(Run(BEGIN, before[..k]).d, before[k].event)
      {
        assert before[..k] == inputs[..k];
      }
      QuietRunsKeepOneRequestRule(before);
      QuietStepKeepsOneRequest(Run(BEGIN, before), inputs[n]);
    }
  }

  lemma BeginHasNoRequest()
    ensures OneRequest(BEGIN)
  {
  }

  /** A button signal during discovery breaks the rule. */
  lemma SignalDuringDiscoveryBreaksRule()
    ensures Run(BEGIN, [Input(ConnectionOpened(1), true, true), Input(ExternalSignal, true, true)]).h.outstanding == 2
  {
    var open, signal := Input(ConnectionOpened(1), true, true), Input(ExternalSignal, true, true);
    var w := Observe(BEGIN, open);
    OutstandingAfter(BEGIN, open);
    OutstandingAfter(w, signal);
    assert w.h.outstanding == 1 && Observe(w, signal).h.outstanding == 2;
    hide Observe;
    assert [open, signal][..1] == [open] && [open][..0] == [];
    assert Run(BEGIN, [open]) == w;
    assert Run(BEGIN, [open, signal]) == Observe(w, signal);
  }
}

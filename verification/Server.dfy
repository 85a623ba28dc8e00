/** The BLE server: button signals become attribute writes and at most one unconfirmed notification,
    sent only while the client's characteristic configuration asks for it. */
module Server {

  const EVEN_PRESSED := 1
  const ODD_PRESSED := 2

  datatype StatusFlags = ClientConfig | Confirmation | OtherFlags
  datatype Config = Disable | Notification | OtherConfig

  datatype Event =
    | Boot
    | ConnectionOpened(connection: nat)
    | ConnectionClosed
    | CharacteristicStatus(isButton: bool, connection: nat, flags: StatusFlags, config: Config)
    | ExternalSignal(signals: nat, oddDown: bool, evenDown: bool)
    | Other  // timers, security prompts and the rest

  /** A notification handed to the stack, and whether the stack accepted it. */
  datatype Send = Send(connection: nat, button: nat, accepted: bool)

  datatype Keypad = Idle | KeypadToGatt

  datatype Data = Data(connectionOpen: bool, clientHandle: nat, connection: nat,
                       okToSend: bool, notifInFlight: bool, keypad: Keypad, attribute: nat, sends: seq<Send>)

  const RESET := Data(false, 0, 0, false, false, Idle, 0, [])

  /** An event with the stack's answers to the attribute write and to the notification. */
  datatype Input = Input(event: Event, writeAccepted: bool, sendAccepted: bool)

  predicate ButtonSignal(e: Event) {
    e.ExternalSignal? && (e.signals == EVEN_PRESSED || e.signals == ODD_PRESSED)
  }

  function ButtonOf(e: Event): nat
    requires e.ExternalSignal?
  {
    if e.oddDown then 1 else if e.evenDown then 2 else 0
  }

  /** Does this event set the button's client configuration? */
  predicate Configures(e: Event) {
    e.CharacteristicStatus? && e.isButton && e.flags == ClientConfig && e.config != OtherConfig
  }

  /** A confirmation is taken from any characteristic. */
  predicate Confirms(e: Event) {
    e.CharacteristicStatus? && e.flags == Confirmation
  }

  /** Does this event make the server hand a notification to the stack? */
  predicate Sends(d: Data, e: Event) {
    ButtonSignal(e) && d.okToSend && !d.notifInFlight
  }

  function Handle(d: Data, i: Input): Data {
    var e := i.event;
    d.(connectionOpen := if e.ConnectionOpened? then true else if e.ConnectionClosed? then false else d.connectionOpen,
       clientHandle := if e.ConnectionOpened? then e.connection else d.clientHandle,
       connection := if e.CharacteristicStatus? && e.isButton then e.connection else d.connection,
       okToSend := if Configures(e) then e.config == Notification else d.okToSend,
       attribute := if ButtonSignal(e) && d.okToSend && i.writeAccepted then ButtonOf(e) else d.attribute,
       sends := if Sends(d, e) then d.sends + [Send(d.connection, ButtonOf(e), i.sendAccepted)] else d.sends,
       notifInFlight := if Sends(d, e) && i.sendAccepted then true else if Confirms(e) then false else d.notifInFlight)
  }

  function Machine(d: Data, e: Event): Data {
    if !d.connectionOpen || !e.ExternalSignal? then d
    else match d.keypad
         case Idle => if ButtonSignal(e) then d.(keypad := KeypadToGatt) else d
         case KeypadToGatt => if d.okToSend then d.(keypad := Idle) else d
  }

  function Step(d: Data, i: Input): Data {
    Machine(Handle(d, i), i.event)
  }

  // ----- The code -----

  class BleServer {
    var connectionOpen: bool
    var handleForClient: nat
    var connectionHandle: nat
    var okToSendHtmNotif: bool
    var notifInFlight: bool
    var currentState: Keypad
    var attribute: nat
    var sends: seq<Send>

    constructor ()
      ensures View() == RESET
    {
      connectionOpen, handleForClient, connectionHandle := false, 0, 0;
      okToSendHtmNotif, notifInFlight, currentState := false, false, Idle;
      attribute, sends := 0, [];
    }

    ghost function View(): Data
      reads this
    {
      Data(connectionOpen, handleForClient, connectionHandle,
           okToSendHtmNotif, notifInFlight, currentState, attribute, sends)
    }

    /** `button_state_to_gatt` */
    method ButtonStateToGatt(button: nat, writeAccepted: bool, sendAccepted: bool)
      modifies this`attribute, this`sends, this`notifInFlight
      ensures attribute == if writeAccepted then button else old(attribute)
      ensures sends == if old(notifInFlight) then old(sends)
                       else old(sends) + [Send(connectionHandle, button, sendAccepted)]
      ensures notifInFlight == (old(notifInFlight) || sendAccepted)
    {
      if writeAccepted {
        attribute := button;
      }
      if !notifInFlight {
        sends := sends + [Send(connectionHandle, button, sendAccepted)];
        if sendAccepted {
          notifInFlight := true;
        }
      }
    }

    /** `handle_ble_event_server` */
    method HandleEvent(i: Input)
      modifies this
      ensures View() == Handle(old(View()), i)
    {
      match i.event {
        case ConnectionOpened(c) =>
          connectionOpen := true;
          handleForClient := c;
        case ConnectionClosed =>
          connectionOpen := false;
        case ExternalSignal(signals, oddDown, evenDown) =>
          if okToSendHtmNotif && (signals == EVEN_PRESSED || signals == ODD_PRESSED) {
            if oddDown {
              ButtonStateToGatt(1, i.writeAccepted, i.sendAccepted);
            } else if evenDown {
              ButtonStateToGatt(2, i.writeAccepted, i.sendAccepted);
            } else {
              ButtonStateToGatt(0, i.writeAccepted, i.sendAccepted);
            }
          }
        case CharacteristicStatus(isButton, c, flags, config) =>
          if isButton {
            connectionHandle := c;
            if flags == ClientConfig {
              if config == Disable {
                okToSendHtmNotif := false;
              } else if config == Notification {
                okToSendHtmNotif := true;
              }
            }
          }
          if flags == Confirmation {
            notifInFlight := false;
          }
        case Boot =>
        case Other =>
      }
    }

    /** `keypad_server_state_machine` */
    method KeypadStateMachine(e: Event)
      modifies this`currentState
      ensures View() == Machine(old(View()), e)
    {
      if connectionOpen && e.ExternalSignal? {
        match currentState {
          case Idle =>
            if e.signals == EVEN_PRESSED || e.signals == ODD_PRESSED {
              currentState := KeypadToGatt;
            }
          case KeypadToGatt =>
            if okToSendHtmNotif {
              currentState := Idle;
            }
        }
      }
    }

    /** `sl_bt_on_event` in the server build */
    method OnEvent(i: Input)
      modifies this
      ensures View() == Step(old(View()), i)
    {
      HandleEvent(i);
      KeypadStateMachine(i.event);
    }
  }

  // ----- What every run keeps -----

  datatype Setting = Unset | Disabled | Enabled

  /** What a run has to remember, taken from the events, the stack's answers and the notifications
      handed over. `unconfirmed` counts the accepted sends since the last confirmation, `confirmed`
      the confirmations that answered one, `setting` is the client's last configuration of the
      button and `settingHere` its last one in the current connection, `peer` the client at the
      other end of the open connection, `pressed` the button state of the last signal that came
      while the setting was notification and whose attribute write was accepted. */
  datatype World = World(d: Data, unconfirmed: nat, confirmed: nat,
                         setting: Setting, settingHere: Setting, peer: Peer, pressed: nat)

  datatype Peer = Nobody | Client(connection: nat)

  const BEGIN := World(RESET, 0, 0, Unset, Unset, Nobody, 0)

  function SettingAfter(s: Setting, e: Event): Setting {
    match e
    case CharacteristicStatus(true, _, ClientConfig, Disable) => Disabled
    case CharacteristicStatus(true, _, ClientConfig, Notification) => Enabled
    case _ => s
  }

  predicate IsConfirmation(e: Event) {
    match e
    case CharacteristicStatus(_, _, Confirmation, _) => true
    case _ => false
  }

  /** One of the two signals of the button, and nothing else signalled with it. */
  predicate IsPress(e: Event) {
    match e
    case ExternalSignal(signals, _, _) => signals == EVEN_PRESSED || signals == ODD_PRESSED
    case _ => false
  }

  function Observe(w: World, i: Input): World {
    var d, e := Step(w.d, i), i.event;
    var sent := |d.sends| > |w.d.sends| && d.sends[|d.sends| - 1].accepted;
    World(d,
          if IsConfirmation(e) then 0 else if sent then w.unconfirmed + 1 else w.unconfirmed,
          if IsConfirmation(e) && w.unconfirmed > 0 then w.confirmed + 1 else w.confirmed,
          SettingAfter(w.setting, e),
          if e.ConnectionOpened? || e.ConnectionClosed? then Unset else SettingAfter(w.settingHere, e),
          if e.ConnectionOpened? then Client(e.connection) else if e.ConnectionClosed? then Nobody else w.peer,
          if IsPress(e) && w.setting == Enabled && i.writeAccepted
          then (if e.oddDown then 1 else if e.evenDown then 2 else 0) else w.pressed)
  }

  function Run(w: World, inputs: seq<Input>): World {
    if inputs == [] then w else Observe(Run(w, inputs[..|inputs| - 1]), inputs[|inputs| - 1])
  }

  function Accepted(sends: seq<Send>): nat {
    if sends == [] then 0 else Accepted(sends[..|sends| - 1]) + (if sends[|sends| - 1].accepted then 1 else 0)
  }

  ghost predicate FlowControlled(w: World) {
    && w.unconfirmed == (if w.d.notifInFlight then 1 else 0)
    && Accepted(w.d.sends) == w.confirmed + w.unconfirmed
    && (w.d.okToSend <==> w.setting == Enabled)
  }

  lemma MachineOnlyMovesKeypad(d: Data, e: Event)
    ensures Machine(d, e) == d.(keypad := Machine(d, e).keypad)
  {
  }

  /** Does this step hand a notification to the stack? */
  predicate HandsOver(w: World, i: Input) {
    Observe(w, i).d.sends != w.d.sends
  }

  /** Flow control is kept, and a notification is handed over exactly on a press while the last
      setting is notification and nothing is unconfirmed. */
  lemma StepKeepsFlowControl(w: World, i: Input)
    requires FlowControlled(w)
    ensures FlowControlled(Observe(w, i))
    ensures HandsOver(w, i) <==> IsPress(i.event) && w.setting == Enabled && w.unconfirmed == 0
  {
    MachineOnlyMovesKeypad(Handle(w.d, i), i.event);
    hide Machine;
    if Sends(w.d, i.event) {
      var s := Send(w.d.connection, ButtonOf(i.event), i.sendAccepted);
      assert (w.d.sends + [s])[..|w.d.sends|] == w.d.sends;
    }
  }

  /** For every event trace and all answers of the stack: the accepted sends since the last
      confirmation number one exactly while one is in flight, all accepted sends are confirmed
      ones plus that one, and sending is enabled exactly while the client's last setting was
      notification. */
  lemma {:induction false} EveryRunIsFlowControlled(inputs: seq<Input>)
    ensures FlowControlled(Run(BEGIN, inputs))
  {
    if inputs == [] {
    } else {
      EveryRunIsFlowControlled(inputs[..|inputs| - 1]);
      StepKeepsFlowControl(Run(BEGIN, inputs[..|inputs| - 1]), inputs[|inputs| - 1]);
    }
  }

  function Confirmations(inputs: seq<Input>): nat {
    if inputs == [] then 0
    else Confirmations(inputs[..|inputs| - 1]) + (if IsConfirmation(inputs[|inputs| - 1].event) then 1 else 0)
  }

  /** The flag survives a disconnect, and what it waits for answers indications, not the notifications
      the server sends (Bluetooth Core Specification, Vol 3, Part F, section 3.4.7). On every run,
      over all its connections, the stack accepts at most one notification more than there are
      confirmation events: without any, one and no more. */
  lemma EachConfirmationAllowsOneMore(inputs: seq<Input>)
    ensures var w := Run(BEGIN, inputs);
            Accepted(w.d.sends) <= Confirmations(inputs) + 1
  {
    EveryRunIsFlowControlled(inputs);
    ConfirmedAtMost(inputs);
    hide Run, Accepted, Confirmations;
  }

  lemma {:induction false} ConfirmedAtMost(inputs: seq<Input>)
    ensures Run(BEGIN, inputs).confirmed <= Confirmations(inputs)
  {
    if inputs == [] {
    } else {
      hide Observe;
      ConfirmedAtMost(inputs[..|inputs| - 1]);
      ConfirmedAfter(Run(BEGIN, inputs[..|inputs| - 1]), inputs[|inputs| - 1]);
    }
  }

  lemma ConfirmedAfter(w: World, i: Input)
    ensures Observe(w, i).confirmed <= w.confirmed + if IsConfirmation(i.event) then 1 else 0
  {
    hide Step, Sends;
  }

  // ----- Whom the notifications reach -----

  ghost predicate TracksPeer(w: World) {
    w.peer == if w.d.connectionOpen then Client(w.d.clientHandle) else Nobody
  }

  lemma {:induction false} EveryRunTracksPeer(inputs: seq<Input>)
    ensures TracksPeer(Run(BEGIN, inputs))
  {
    if inputs == [] {
    } else {
      EveryRunTracksPeer(inputs[..|inputs| - 1]);
    }
  }

  /** Does this step hand over a notification addressed to the client at the other end of the open
      connection? */
  predicate ReachesPeer(w: World, i: Input) {
    var sends := Observe(w, i).d.sends;
    |sends| == |w.d.sends| + 1 && w.peer == Client(sends[|w.d.sends|].connection)
  }

  /** A notification is addressed to the connection of the last event about the button, whether that
      is still open or not. On every run, a notification handed over is addressed to the open
      connection exactly when there is one and that event came from it. */
  lemma ReachesPeerIff(inputs: seq<Input>, i: Input)
    requires HandsOver(Run(BEGIN, inputs), i)
    ensures var w := Run(BEGIN, inputs);
            ReachesPeer(w, i) <==> w.d.connectionOpen && w.d.connection == w.d.clientHandle
  {
    EveryRunTracksPeer(inputs);
    SendOfStep(Run(BEGIN, inputs), i);
    hide Run, Observe;
  }

  lemma SendOfStep(w: World, i: Input)
    requires HandsOver(w, i)
    ensures i.event.ExternalSignal?
    ensures var e := i.event;
            var button := if e.oddDown then 1 else if e.evenDown then 2 else 0;
            Observe(w, i).d.sends == w.d.sends + [Send(w.d.connection, button, i.sendAccepted)]
  {
    MachineOnlyMovesKeypad(Handle(w.d, i), i.event);
    hide Machine;
  }

  /** A stack that keeps to its connections: events about the button come from the open one. */
  predicate FromPeer(w: World, e: Event) {
    e.CharacteristicStatus? && e.isButton ==> w.peer == Client(e.connection)
  }

  ghost predicate AllFromPeer(inputs: seq<Input>) {
    forall k :: 0 <= k < |inputs| ==> FromPeer(Run(BEGIN, inputs[..k]), inputs[k].event)
  }

  ghost predicate SettingNamesPeer(w: World) {
    w.settingHere != Unset ==> w.peer == Client(w.d.connection)
  }

  lemma {:induction false} SettingHereNamesPeer(inputs: seq<Input>)
    requires AllFromPeer(inputs)
    ensures SettingNamesPeer(Run(BEGIN, inputs))
  {
    hide Observe, FromPeer;
    if inputs == [] {
    } else {
      var n := |inputs| - 1;
      assert forall k :: 0 <= k < n ==> inputs[..n][..k] == inputs[..k];
      SettingHereNamesPeer(inputs[..n]);
      StepNamesPeer(Run(BEGIN, inputs[..n]), inputs[n]);
    }
  }

  lemma StepNamesPeer(w: World, i: Input)
    requires SettingNamesPeer(w) && FromPeer(w, i.event)
    ensures SettingNamesPeer(Observe(w, i))
  {
    MachineOnlyMovesKeypad(Handle(w.d, i), i.event);
    hide Machine;
  }

  /** A client that has subscribed in its connection gets every notification handed over in it. */
  lemma SubscribedClientIsReached(inputs: seq<Input>, i: Input)
    requires AllFromPeer(inputs) && HandsOver(Run(BEGIN, inputs), i)
    requires Run(BEGIN, inputs).settingHere == Enabled
    ensures ReachesPeer(Run(BEGIN, inputs), i)
  {
    SettingHereNamesPeer(inputs);
    EveryRunTracksPeer(inputs);
    ReachesPeerIff(inputs, i);
  }

  // ----- What the notifications and the attribute say -----

  ghost predicate AttributeFollows(w: World) {
    w.d.attribute == w.pressed
  }

  lemma StepKeepsAttribute(w: World, i: Input)
    requires AttributeFollows(w) && FlowControlled(w)
    ensures AttributeFollows(Observe(w, i))
  {
    MachineOnlyMovesKeypad(Handle(w.d, i), i.event);
    hide Machine, Sends;
  }

  /** After every run the attribute is the button state of the last press that came while the setting
      was notification and whose write was accepted. */
  lemma {:induction false} EveryRunKeepsAttribute(inputs: seq<Input>)
    ensures AttributeFollows(Run(BEGIN, inputs))
  {
    if inputs == [] {
    } else {
      EveryRunKeepsAttribute(inputs[..|inputs| - 1]);
      EveryRunIsFlowControlled(inputs[..|inputs| - 1]);
      StepKeepsAttribute(Run(BEGIN, inputs[..|inputs| - 1]), inputs[|inputs| - 1]);
    }
  }

  /** On every run a notification says 1 exactly when the odd pin is down, 2 exactly when only the even
      pin is down, and 0 otherwise; a client that reads the attribute then, if its write was
      accepted, reads what it was sent. */
  lemma NotificationCarriesButton(inputs: seq<Input>, i: Input)
    requires HandsOver(Run(BEGIN, inputs), i)
    ensures i.event.ExternalSignal?
    ensures var w, w', e := Run(BEGIN, inputs), Observe(Run(BEGIN, inputs), i), i.event;
            && |w'.d.sends| == |w.d.sends| + 1 && w'.d.sends[..|w.d.sends|] == w.d.sends
            && var b := w'.d.sends[|w.d.sends|].button;
               && (b == 1 <==> e.oddDown)
               && (b == 2 <==> e.evenDown && !e.oddDown)
               && (b == 0 <==> !e.evenDown && !e.oddDown)
               && (i.writeAccepted ==> w'.d.attribute == b)
  {
    var w := Run(BEGIN, inputs);
    SendOfStep(w, i);
    EveryRunIsFlowControlled(inputs);
    StepKeepsFlowControl(w, i);
    EveryRunKeepsAttribute(inputs);
    StepKeepsAttribute(w, i);
    if i.writeAccepted {
      PressedAfter(w, i);
    }
    hide Run, Observe, HandsOver, FlowControlled;
  }

  lemma PressedAfter(w: World, i: Input)
    requires IsPress(i.event) && w.setting == Enabled && i.writeAccepted
    ensures Observe(w, i).pressed == if i.event.oddDown then 1 else if i.event.evenDown then 2 else 0
  {
    hide Step;
  }

  // ----- The keypad machine -----

  /** On every run, the keypad machine moves exactly on external signals while a connection is open: from
      idle on a press, and back when the last setting is notification. */
  lemma KeypadMovesIff(inputs: seq<Input>, i: Input)
    ensures var w := Run(BEGIN, inputs);
            Observe(w, i).d.keypad != w.d.keypad <==>
              && i.event.ExternalSignal? && w.peer != Nobody
              && if w.d.keypad == Idle then IsPress(i.event) else w.setting == Enabled
  {
    EveryRunTracksPeer(inputs);
    EveryRunIsFlowControlled(inputs);
    hide Run;
  }

  /** It has no influence on anything else. */
  lemma KeypadIsInert(d: Data, k: Keypad, i: Input)
    ensures Step(d.(keypad := k), i) == Step(d, i).(keypad := Step(d.(keypad := k), i).keypad)
  {
    MachineOnlyMovesKeypad(Handle(d, i), i.event);
    MachineOnlyMovesKeypad(Handle(d.(keypad := k), i), i.event);
    hide Machine;
  }

  // ----- Settings and connections -----

  /** Does this step notify the client of the open connection, which has not asked for it since it
      connected? */
  predicate Unasked(w: World, i: Input) {
    HandsOver(w, i) && ReachesPeer(w, i) && w.settingHere != Enabled
  }

  ghost predicate SettingCarriesOver(w: World) {
    w.settingHere == Unset || w.settingHere == w.setting
  }

  lemma {:induction false} SettingHereIsLatest(inputs: seq<Input>)
    ensures SettingCarriesOver(Run(BEGIN, inputs))
  {
    if inputs == [] {
    } else {
      SettingHereIsLatest(inputs[..|inputs| - 1]);
    }
  }

  /** The configuration is a property of one connection (Bluetooth Core Specification, Vol 3, Part G,
      section 3.3.3.3), but the flag survives a disconnect. On every run, an event notifies a
      client that has not subscribed since it connected exactly when it is a press with
      nothing unconfirmed, the previous setting was notification, no new one has been made,
      and the open connection has the handle of the last event about the button. */
  lemma UnaskedIffSettingIsLeftOver(inputs: seq<Input>, i: Input)
    ensures var w := Run(BEGIN, inputs);
            Unasked(w, i) <==>
              && IsPress(i.event) && w.unconfirmed == 0
              && w.setting == Enabled && w.settingHere == Unset
              && w.d.connectionOpen && w.d.connection == w.d.clientHandle
  {
    EveryRunIsFlowControlled(inputs);
    StepKeepsFlowControl(Run(BEGIN, inputs), i);
    SettingHereIsLatest(inputs);
    if HandsOver(Run(BEGIN, inputs), i) {
      ReachesPeerIff(inputs, i);
    }
    hide Run, Observe, ReachesPeer, HandsOver;
  }

  /** A subscribed client leaves. What the next button signal does depends on who is there then: a
      client whose connection has the same handle is notified without having asked... */
  lemma LeftOverSettingNotifiesNextClient()
    ensures var before := Run(BEGIN, [OPEN_1, SUBSCRIBE_1, CLOSE, OPEN_1]);
            Unasked(before, SIGNAL)
  {
    AfterSubscriberLeft(OPEN_1);
    UnaskedIffSettingIsLeftOver([OPEN_1, SUBSCRIBE_1, CLOSE, OPEN_1], SIGNAL);
  }

  /** ... with another handle, the notification goes to the closed connection and the client there
      gets none... */
  lemma LeftOverSettingNotifiesClosedConnection()
    ensures var before := Run(BEGIN, [OPEN_1, SUBSCRIBE_1, CLOSE, OPEN_2]);
            && before.peer == Client(2)
            && Observe(before, SIGNAL).d.sends == [Send(1, 1, true)] && !ReachesPeer(before, SIGNAL)
  {
    AfterSubscriberLeft(OPEN_2);
    SendOfStep(Run(BEGIN, [OPEN_1, SUBSCRIBE_1, CLOSE, OPEN_2]), SIGNAL);
  }

  /** ... and with no client there it is handed over all the same. */
  lemma LeftOverSettingNotifiesNobody()
    ensures var before := Run(BEGIN, [OPEN_1, SUBSCRIBE_1, CLOSE]);
            && before.peer == Nobody
            && Observe(before, SIGNAL).d.sends == [Send(1, 1, true)] && !ReachesPeer(before, SIGNAL)
  {
    AfterSubscriberLeft(OPEN_1);
    SendOfStep(Run(BEGIN, [OPEN_1, SUBSCRIBE_1, CLOSE]), SIGNAL);
  }

  const OPEN_1 := Input(ConnectionOpened(1), true, true)
  const OPEN_2 := Input(ConnectionOpened(2), true, true)
  const SUBSCRIBE_1 := Input(CharacteristicStatus(true, 1, ClientConfig, Notification), true, true)
  const CLOSE := Input(ConnectionClosed, true, true)
  const SIGNAL := Input(ExternalSignal(ODD_PRESSED, true, false), true, true)

  lemma AfterSubscriberLeft(open: Input)
    requires open.event.ConnectionOpened?
    ensures Run(BEGIN, [OPEN_1, SUBSCRIBE_1, CLOSE]) ==
            World(Data(false, 1, 1, true, false, Idle, 0, []), 0, 0, Enabled, Unset, Nobody, 0)
    ensures var c := open.event.connection;
            Run(BEGIN, [OPEN_1, SUBSCRIBE_1, CLOSE, open]) ==
            World(Data(true, c, 1, true, false, Idle, 0, []), 0, 0, Enabled, Unset, Client(c), 0)
  {
    var w1 := Observe(BEGIN, OPEN_1);
    var w2 := Observe(w1, SUBSCRIBE_1);
    var w3 := Observe(w2, CLOSE);
    var e := [OPEN_1, SUBSCRIBE_1, CLOSE, open];
    assert e[..3] == [OPEN_1, SUBSCRIBE_1, CLOSE] && e[..3][..2] == [OPEN_1, SUBSCRIBE_1];
    assert [OPEN_1, SUBSCRIBE_1][..1] == [OPEN_1] && [OPEN_1][..0] == [];
    assert w3 == World(Data(false, 1, 1, true, false, Idle, 0, []), 0, 0, Enabled, Unset, Nobody, 0);
    var w4 := Observe(w3, open);
    hide Observe;
    assert Run(BEGIN, [OPEN_1]) == w1;
    assert Run(BEGIN, [OPEN_1, SUBSCRIBE_1]) == w2;
    assert Run(BEGIN, e[..3]) == w3;
    assert Run(BEGIN, e) == w4;
  }
}

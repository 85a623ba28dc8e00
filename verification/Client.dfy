/** The BLE client: every stack event goes first to `handle_ble_event_client` and then to
    `discovery_state_machine`, which share `ble_data`. The stack is foreign: its events are inputs,
    its answers to requests are inputs too, and the attribute-protocol requests are recorded. */
module Client {

  // ----- Events, requests, state -----

  /** The UUIDs the client knows, little endian. */
  datatype Uuid = KeypadService | KeypadCharac | LedService | LedCharac {
    function Bytes(): seq<nat> {
      match this
      case KeypadService => [0x09, 0x18]
      case KeypadCharac => [0x1C, 0x2A]
      case LedService =>
        [0x89, 0x62, 0x13, 0x2d, 0x2a, 0x65, 0xec, 0x87, 0x3e, 0x43, 0xc8, 0x38, 0x01, 0x00, 0x00, 0x00]
      case LedCharac =>
        [0x89, 0x62, 0x13, 0x2d, 0x2a, 0x65, 0xec, 0x87, 0x3e, 0x43, 0xc8, 0x38, 0x02, 0x00, 0x00, 0x00]
    }

    /** The bytes compared by the source are those of this UUID. */
    predicate Names(reported: seq<nat>) {
      |reported| >= |Bytes()| && reported[..|Bytes()|] == Bytes()
    }
  }

  datatype Opcode = Notification | ReadResponse | OtherOpcode

  datatype Event =
    | Boot
    | ConnectionOpened(connection: nat)
    | ConnectionClosed
    | ServerFound(connection: nat)  // the scan report that makes the client open a connection
    | ProcedureCompleted(result: nat)
    | Service(service: nat, uuid: seq<nat>)
    | Characteristic(characteristic: nat, uuid: seq<nat>)
    | Value(characteristic: nat, opcode: Opcode)
    | ExternalSignal
    | Other  // security prompts and the rest: no attribute request, nothing modelled changes

  datatype Request =
    | DiscoverServices(connection: nat, uuid: Uuid)
    | DiscoverCharacteristics(connection: nat, service: nat, uuid: Uuid)
    | SetNotification(connection: nat, characteristic: nat, enable: bool)
    | ReadValue(connection: nat, characteristic: nat)

  /** A request, who made it, and whether the stack accepted it. */
  datatype Call = Call(byMachine: bool, request: Request, accepted: bool)

  datatype Discovery =
    | Open | KeypadServices | LedServices | KeypadCharacteristics | LedCharacteristics | KeypadNotif | Wait
  {
    function Index(): nat {
      match this
      case Open => 0
      case KeypadServices => 1
      case LedServices => 2
      case KeypadCharacteristics => 3
      case LedCharacteristics => 4
      case KeypadNotif => 5
      case Wait => 6
    }
  }

  /** `ble_data` as far as the client uses it, the machine's state and the requests made. */
  datatype Data = Data(state: Discovery, connectionOpen: bool, connection: nat,
                       keypadService: nat, ledService: nat, keypadCharacteristic: nat, ledCharacteristic: nat,
                       notificationFlag: bool, calls: seq<Call>)

  const RESET := Data(Open, false, 0, 0, 0, 0, 0, false, [])

  // ----- What one event does -----

  /** Does this value event carry the keypad characteristic? */
  predicate OwnValue(d: Data, e: Event) {
    e.Value? && e.characteristic == d.keypadCharacteristic && !e.opcode.OtherOpcode?
  }

  /** The request the handler makes: read a value that was notified, or toggle the notifications. */
  function HandlerRequests(d: Data, e: Event): seq<Request> {
    match e
    case Value(_, _) => if OwnValue(d, e) then [ReadValue(d.connection, d.keypadCharacteristic)] else []
    case ExternalSignal => [SetNotification(d.connection, d.keypadCharacteristic, !d.notificationFlag)]
    case _ => []
  }

  /** The request the machine makes when it moves on. */
  function MachineRequests(d: Data, e: Event): seq<Request> {
    if d.state.Open? then
      (if e.ConnectionOpened? then [DiscoverServices(e.connection, KeypadService)] else [])
    else if !e.ProcedureCompleted? then []
    else match d.state
         case KeypadServices => [DiscoverServices(d.connection, LedService)]
         case LedServices => [DiscoverCharacteristics(d.connection, d.keypadService, KeypadCharac)]
         case KeypadCharacteristics => [DiscoverCharacteristics(d.connection, d.ledService, LedCharac)]
         case LedCharacteristics => [SetNotification(d.connection, d.keypadCharacteristic, true)]
         case _ => []
  }

  function Record(calls: seq<Call>, byMachine: bool, requests: seq<Request>, accepted: bool): seq<Call> {
    if requests == [] then calls else calls + [Call(byMachine, requests[0], accepted)]
  }

  /** Only the first request has to be accepted; later states are left on a completed procedure
      whatever became of the request made there. */
  function NextState(state: Discovery, e: Event, accepted: bool): Discovery {
    match state
    case Open => if e.ConnectionOpened? && accepted then KeypadServices else Open
    case KeypadServices =>
      if e.ProcedureCompleted? then LedServices else if e.ConnectionClosed? then Open else state
    case LedServices =>
      if e.ProcedureCompleted? then KeypadCharacteristics else if e.ConnectionClosed? then Open else state
    case KeypadCharacteristics =>
      if e.ProcedureCompleted? then LedCharacteristics else if e.ConnectionClosed? then Open else state
    case LedCharacteristics =>
      if e.ProcedureCompleted? then KeypadNotif else if e.ConnectionClosed? then Open else state
    case KeypadNotif =>
      if e.ProcedureCompleted? then Wait else if e.ConnectionClosed? then Open else state
    case Wait => if e.ConnectionClosed? then Open else Wait
  }

  function Handle(d: Data, e: Event, accepted: bool): Data {
    d.(calls := Record(d.calls, false, HandlerRequests(d, e), accepted),
       connectionOpen := if e.ConnectionOpened? then true else if e.ConnectionClosed? then false else d.connectionOpen,
       connection := if e.ServerFound? then e.connection else d.connection,
       keypadService := if e.Service? && Uuid.KeypadService.Names(e.uuid) then e.service else d.keypadService,
       ledService := if e.Service? && Uuid.LedService.Names(e.uuid) then e.service else d.ledService,
       keypadCharacteristic :=
         if e.Characteristic? && Uuid.KeypadCharac.Names(e.uuid) then e.characteristic else d.keypadCharacteristic,
       ledCharacteristic :=
         if e.Characteristic? && Uuid.LedCharac.Names(e.uuid) then e.characteristic else d.ledCharacteristic,
       notificationFlag :=
         if e.Boot? then false else if e.ExternalSignal? then !d.notificationFlag else d.notificationFlag)
  }

  function Machine(d: Data, e: Event, accepted: bool): Data {
    d.(calls := Record(d.calls, true, MachineRequests(d, e), accepted),
       state := NextState(d.state, e, accepted),
       connection := if d.state.Open? && e.ConnectionOpened? then e.connection else d.connection,
       notificationFlag := d.notificationFlag || (d.state.KeypadNotif? && e.ProcedureCompleted?))
  }

  /** An event with the stack's answers to the request of the handler and of the machine, if any. */
  datatype Input = Input(event: Event, handlerAccepted: bool, machineAccepted: bool)

  function Step(d: Data, i: Input): Data {
    Machine(Handle(d, i.event, i.handlerAccepted), i.event, i.machineAccepted)
  }

  // ----- The code -----

  class BleClient {
    var currentState: Discovery
    var connectionOpen: bool
    var connectionHandle: nat
    var keypadServiceHandle: nat
    var ledServiceHandle: nat
    var keypadCharacteristicsHandle: nat
    var ledCharacteristicsHandle: nat
    var buttonNotificationFlag: bool
    var calls: seq<Call>

    constructor ()
      ensures View() == RESET
    {
      currentState, connectionOpen, connectionHandle := Open, false, 0;
      keypadServiceHandle, ledServiceHandle := 0, 0;
      keypadCharacteristicsHandle, ledCharacteristicsHandle := 0, 0;
      buttonNotificationFlag, calls := false, [];
    }

    ghost function View(): Data
      reads this
    {
      Data(currentState, connectionOpen, connectionHandle, keypadServiceHandle, ledServiceHandle,
           keypadCharacteristicsHandle, ledCharacteristicsHandle, buttonNotificationFlag, calls)
    }

    method Send(byMachine: bool, request: Request, accepted: bool)
      modifies this`calls
      ensures calls == old(calls) + [Call(byMachine, request, accepted)]
    {
      calls := calls + [Call(byMachine, request, accepted)];
    }

    /** `handle_ble_event_client` */
    method HandleEvent(e: Event, accepted: bool)
      modifies this
      ensures View() == Handle(old(View()), e, accepted)
    {
      hide Uuid.Names;
      match e {
        case Boot =>
          buttonNotificationFlag := false;
        case ConnectionOpened(_) =>
          connectionOpen := true;
        case ConnectionClosed =>
          connectionOpen := false;
        case ServerFound(c) =>
          connectionHandle := c;
        case Service(h, uuid) =>
          if Uuid.KeypadService.Names(uuid) {
            keypadServiceHandle := h;
          }
          if Uuid.LedService.Names(uuid) {
            ledServiceHandle := h;
          }
        case Characteristic(h, uuid) =>
          if Uuid.KeypadCharac.Names(uuid) {
            keypadCharacteristicsHandle := h;
          }
          if Uuid.LedCharac.Names(uuid) {
            ledCharacteristicsHandle := h;
          }
        case Value(h, opcode) =>
          if h == keypadCharacteristicsHandle && (opcode == Notification || opcode == ReadResponse) {
            Send(false, ReadValue(connectionHandle, keypadCharacteristicsHandle), accepted);
          }
        case ExternalSignal =>
          if !buttonNotificationFlag {
            Send(false, SetNotification(connectionHandle, keypadCharacteristicsHandle, true), accepted);
            buttonNotificationFlag := true;
          } else {
            Send(false, SetNotification(connectionHandle, keypadCharacteristicsHandle, false), accepted);
            buttonNotificationFlag := false;
          }
        case ProcedureCompleted(_) =>
        case Other =>
      }
    }

    /** `discovery_state_machine` */
    method DiscoveryStateMachine(e: Event, accepted: bool)
      modifies this
      ensures View() == Machine(old(View()), e, accepted)
    {
      match currentState {
        case Open =>
          if e.ConnectionOpened? {
            connectionHandle := e.connection;
            Send(true, DiscoverServices(connectionHandle, KeypadService), accepted);
            if accepted {
              currentState := KeypadServices;
            }
          }
        case KeypadServices =>
          if e.ProcedureCompleted? {
            Send(true, DiscoverServices(connectionHandle, LedService), accepted);
            currentState := LedServices;
          } else if e.ConnectionClosed? {
            currentState := Open;
          }
        case LedServices =>
          if e.ProcedureCompleted? {
            Send(true, DiscoverCharacteristics(connectionHandle, keypadServiceHandle, KeypadCharac), accepted);
            currentState := KeypadCharacteristics;
          } else if e.ConnectionClosed? {
            currentState := Open;
          }
        case KeypadCharacteristics =>
          if e.ProcedureCompleted? {
            Send(true, DiscoverCharacteristics(connectionHandle, ledServiceHandle, LedCharac), accepted);
            currentState := LedCharacteristics;
          } else if e.ConnectionClosed? {
            currentState := Open;
          }
        case LedCharacteristics =>
          if e.ProcedureCompleted? {
            Send(true, SetNotification(connectionHandle, keypadCharacteristicsHandle, true), accepted);
            currentState := KeypadNotif;
          } else if e.ConnectionClosed? {
            currentState := Open;
          }
        case KeypadNotif =>
          if e.ProcedureCompleted? {
            buttonNotificationFlag := true;
            currentState := Wait;
          } else if e.ConnectionClosed? {
            currentState := Open;
          }
        case Wait =>
          if e.ConnectionClosed? {
            currentState := Open;
          }
      }
    }

    /** `sl_bt_on_event` in the client build */
    method OnEvent(i: Input)
      modifies this
      ensures View() == Step(old(View()), i)
    {
      HandleEvent(i.event, i.handlerAccepted);
      DiscoveryStateMachine(i.event, i.machineAccepted);
    }
  }
}

/** Class `Driver`: eight send queues feed one outstanding message; ACK, NAK, CAN,
    timeouts and replies drive retries and completion.

    Each region under a mutex is one step. Messages are not encrypted and no nonce
    report is pending. `pending` holds the wake-up queue of each node, `awake` the
    nodes that are awake. */
module ZWaveDriver {
  import opened ZWaveMsg
  import opened ZWaveQueue
  import opened ZWaveLedger

  const COMMAND: nat := 0
  const CONTROLLER: nat := 3
  const WAKEUP: nat := 4
  const QUERY: nat := 6
  const QUEUE_COUNT: nat := 8

  const ACK: bv8 := 0x06
  const NAK: bv8 := 0x15
  const CAN: bv8 := 0x18

  const FUNC_ID_APPLICATION_COMMAND_HANDLER: bv8 := 0x04
  const FUNC_ID_ZW_SEND_NODE_INFORMATION: bv8 := 0x12
  const FUNC_ID_ZW_GET_NODE_PROTOCOL_INFO: bv8 := 0x41
  const FUNC_ID_ZW_ASSIGN_RETURN_ROUTE: bv8 := 0x46
  const FUNC_ID_ZW_DELETE_RETURN_ROUTE: bv8 := 0x47
  const FUNC_ID_ZW_REQUEST_NODE_NEIGHBOR_UPDATE: bv8 := 0x48
  const FUNC_ID_ZW_ENABLE_SUC: bv8 := 0x52
  const FUNC_ID_ZW_SET_SUC_NODE_ID: bv8 := 0x54
  const FUNC_ID_ZW_REQUEST_NODE_NEIGHBOR_UPDATE_OPTIONS: bv8 := 0x5a
  const FUNC_ID_ZW_REQUEST_NODE_INFO: bv8 := 0x60
  const FUNC_ID_ZW_GET_ROUTING_INFO: bv8 := 0x80

  /** The replies that do not say which node they come from. */
  predicate Anonymous(reply: bv8) {
    || reply == FUNC_ID_ZW_GET_NODE_PROTOCOL_INFO || reply == FUNC_ID_ZW_REQUEST_NODE_INFO
    || reply == FUNC_ID_ZW_GET_ROUTING_INFO || reply == FUNC_ID_ZW_ASSIGN_RETURN_ROUTE
    || reply == FUNC_ID_ZW_DELETE_RETURN_ROUTE || reply == FUNC_ID_ZW_SEND_DATA
    || reply == FUNC_ID_ZW_SEND_NODE_INFORMATION || reply == FUNC_ID_ZW_REQUEST_NODE_NEIGHBOR_UPDATE
    || reply == FUNC_ID_ZW_ENABLE_SUC || reply == FUNC_ID_ZW_SET_SUC_NODE_ID
    || reply == FUNC_ID_ZW_REQUEST_NODE_NEIGHBOR_UPDATE_OPTIONS
  }

  /** The limit of attempts after a CAN. */
  function Raised(limit: nat): nat { if limit + 1 < MAX_MAX_TRIES then limit + 1 else limit }

  datatype NodeInfo = NodeInfo(alive: bool, listening: bool, frequentListening: bool, hasWakeUp: bool)

  /** What the controller delivers in one `ReadMsg`. A frame has the length that
      its second byte announces; `handleCallback` is what the handler for its
      function decides. */
  datatype Input =
    | Nothing
    | Incoming(bytes: seq<bv8>, handleCallback: bool)
    | Aborted
    | Byte(b: bv8)

  predicate WellFormed(input: Input) {
    input.Incoming? ==>
      |input.bytes| >= 2 && input.bytes[0] == SOF && |input.bytes| == input.bytes[1] as int + 2
  }

  class Driver {
    const ids: CallbackCounter
    const controllerNodeId: NodeId
    /** Option `AssumeAwake`: whether a node counts as awake at first. */
    const assumeAwake: bool

    var nodes: map<NodeId, NodeInfo>
    var awake: set<NodeId>
    var pending: map<NodeId, seq<Item>>

    var currentMsg: Msg?
    var waitingForAck: bool
    var expectedCallbackId: bv8
    var expectedReply: bv8
    var expectedCommandClassId: bv8
    var expectedNodeId: NodeId

    var msgQueue: seq<seq<Item>>
    var queueEvent: seq<bool>
    var currentControllerCommand: ControllerCommandItem?

    /** Everything written to the controller. */
    ghost var sent: seq<seq<bv8>>
    /** The message objects in use. */
    ghost var msgs: set<Msg>
    /** The controller command items in use. */
    ghost var commands: set<ControllerCommandItem>
    /** All that was ever put aside for each node, and what became of it. */
    ghost var log: map<NodeId, seq<Entry>>
    /** What became of the messages taken from the queues. */
    ghost var dequeued: multiset<Msg>
    ghost var completed: multiset<Msg>
    ghost var dropped: multiset<Msg>
    ghost var moved: multiset<Msg>
    ghost var discarded: multiset<Msg>
    /** The current message: its attempts and limit when it was taken from its
        queue, and its writes and the CANs received since. */
    ghost var startAttempts: nat
    ghost var startMax: nat
    ghost var writes: nat
    ghost var cans: nat

    // ---- invariants ----

    /** Something is awaited from the controller. */
    predicate Awaiting()
      reads this`waitingForAck, this`expectedCallbackId, this`expectedReply
    {
      waitingForAck || expectedCallbackId != 0 || expectedReply != 0
    }

    ghost predicate QueueShape()
      reads this`msgQueue, this`queueEvent
    {
      && |msgQueue| == |queueEvent| == QUEUE_COUNT
      && forall q, x | 0 <= q < QUEUE_COUNT && x in msgQueue[q] && x.Controller? :: q == CONTROLLER
    }

    /** Events say which queues have something to send; the one of the controller
        queue may stay reset while a command is in progress. */
    ghost predicate EventsFit()
      requires QueueShape()
      reads this`msgQueue, this`queueEvent
    {
      && (forall q | 0 <= q < QUEUE_COUNT && q != CONTROLLER :: queueEvent[q] <==> msgQueue[q] != [])
      && (queueEvent[CONTROLLER] ==> msgQueue[CONTROLLER] != [])
    }

    ghost predicate EventsAgree()
      requires QueueShape()
      reads this`msgQueue, this`queueEvent, this`currentControllerCommand
    {
      && EventsFit()
      && (currentControllerCommand != null ==> Controller(currentControllerCommand) in msgQueue[CONTROLLER])
    }

    ghost predicate Owned(s: seq<Item>)
      reads this`msgs, this`commands
    {
      && (forall x | x in s && x.SendMsg? :: x.msg in msgs)
      && (forall x | x in s && x.Controller? :: x.cci in commands)
    }

    ghost function LogOf(node: NodeId): seq<Entry>
      reads this`log
    {
      At(log, node)
    }

    /** What waits for a node to wake up is about that node; a controller command may
        wait for another node than its own, whose message was to be sent. */
    static ghost predicate AtHome(s: seq<Item>, node: NodeId) {
      forall x | x in s && !x.Controller? :: NodeOf(x) == node
    }

    /** Every message in use is a finished frame of its own. */
    ghost predicate MsgsFinished()
      reads this`msgs, msgs`length, msgs`maxSendAttempts, msgs`final, msgs`payload, msgs`callbackId,
            set m | m in msgs :: m.buffer
    {
      && (forall m | m in msgs :: m.Valid() && m.final)
      && (forall m, n | m in msgs && n in msgs && m != n :: m.buffer != n.buffer)
    }

    ghost predicate Objects()
      reads this`msgQueue, this`pending, this`log, this`msgs, this`commands, ids
      reads msgs`length, msgs`maxSendAttempts, msgs`final, msgs`payload, msgs`callbackId, set m | m in msgs :: m.buffer
    {
      && ids.Valid() && MsgsFinished() && Recorded(pending, log)
      && (forall q | 0 <= q < |msgQueue| :: Owned(msgQueue[q]))
      && (forall n | n in pending :: Owned(pending[n]) && AtHome(pending[n], n))
    }

    /** Exactly one fate for every message that was taken from a queue. */
    ghost predicate Accounted()
      reads this`currentMsg, this`dequeued, this`completed, this`dropped, this`moved, this`discarded
    {
      Balanced(dequeued, completed, dropped, moved, discarded, currentMsg)
    }

    static ghost predicate Balanced(dequeued: multiset<Msg>, completed: multiset<Msg>, dropped: multiset<Msg>,
                                    moved: multiset<Msg>, discarded: multiset<Msg>, current: Msg?)
    {
      dequeued == completed + dropped + moved + discarded + if current == null then multiset{} else multiset{current}
    }

    static lemma BalancedBegin(d: multiset<Msg>, a: multiset<Msg>, b: multiset<Msg>, m: multiset<Msg>,
                               x: multiset<Msg>, current: Msg)
      requires Balanced(d, a, b, m, x, null)
      ensures Balanced(d + multiset{current}, a, b, m, x, current)
    {
    }

    static lemma BalancedEnd(d: multiset<Msg>, a: multiset<Msg>, b: multiset<Msg>, m: multiset<Msg>, x: multiset<Msg>,
                             current: Msg)
      requires Balanced(d, a, b, m, x, current)
      ensures Balanced(d, a + multiset{current}, b, m, x, null)
      ensures Balanced(d, a, b + multiset{current}, m, x, null)
      ensures Balanced(d, a, b, m + multiset{current}, x, null)
      ensures Balanced(d, a, b, m, x + multiset{current}, null)
    {
    }

    /** The attempts of the current message are its writes, within its limit, and
        only a CAN raises the limit. */
    ghost predicate Retries()
      reads this`currentMsg, this`startAttempts, this`startMax, this`writes, this`cans
      reads (if currentMsg == null then {} else {currentMsg})`sendAttempts,
            (if currentMsg == null then {} else {currentMsg})`maxSendAttempts
    {
      currentMsg != null ==>
        && currentMsg.sendAttempts == startAttempts + writes
        && currentMsg.maxSendAttempts <= startMax + cans
        && (writes > 0 ==> currentMsg.sendAttempts <= currentMsg.maxSendAttempts)
    }

    ghost predicate Sound()
      reads this, currentMsg, ids, msgs, set m | m in msgs :: m.buffer
    {
      QueueShape() && EventsAgree() && Objects() && Accounted() && Retries()
      && (currentMsg != null ==> currentMsg in msgs)
    }

    /** A message is outstanding exactly while something is awaited. */
    ghost predicate Valid()
      reads this, currentMsg, ids, msgs, set m | m in msgs :: m.buffer
    {
      Sound() && (currentMsg != null <==> Awaiting())
    }

    /** No fresh message is written more than six times, nor more than once without CANs. */
    lemma RetryBound()
      requires Valid() && currentMsg != null && startAttempts == 0 && startMax == MAX_TRIES
      ensures writes <= 6 && writes <= 1 + cans
    {
      assert currentMsg.Valid();
    }

    constructor (controllerNodeId: NodeId, nodes: map<NodeId, NodeInfo>, assumeAwake: bool)
      ensures Valid() && fresh(ids) && this.nodes == nodes && awake == if assumeAwake then nodes.Keys else {}
      ensures currentMsg == null && currentControllerCommand == null && !Awaiting()
      ensures msgs == {} && pending == map[] && msgQueue == seq(QUEUE_COUNT, _ => [])
      ensures sent == [] && dequeued == multiset{} && log == map[] && commands == {}
      ensures ids.next == FIRST_CALLBACK_ID
    {
      ids := new CallbackCounter();
      this.controllerNodeId, this.nodes, this.assumeAwake := controllerNodeId, nodes, assumeAwake;
      awake, pending := if assumeAwake then nodes.Keys else {}, map[];
      currentMsg, waitingForAck, expectedCallbackId, expectedReply := null, false, 0, 0;
      expectedCommandClassId, expectedNodeId := 0, 0;
      msgQueue, queueEvent := seq(QUEUE_COUNT, _ => []), seq(QUEUE_COUNT, _ => false);
      currentControllerCommand := null;
      sent, msgs, commands, log := [], {}, {}, map[];
      dequeued, completed, dropped, moved, discarded := multiset{}, multiset{}, multiset{}, multiset{}, multiset{};
      startAttempts, startMax, writes, cans := 0, 0, 0, 0;
    }

    // ---- queues ----

    method PushBack(q: nat, item: Item)
      requires q < QUEUE_COUNT && QueueShape() && (item.Controller? ==> q == CONTROLLER)
      modifies this`msgQueue, this`queueEvent
      ensures QueueShape()
      ensures msgQueue == old(msgQueue)[q := old(msgQueue[q]) + [item]] && queueEvent == old(queueEvent)[q := true]
      ensures old(EventsAgree()) ==> EventsAgree()
      ensures old(Objects()) && (item.SendMsg? ==> item.msg in msgs) && (item.Controller? ==> item.cci in commands) ==>
                Objects()
    {
      hide MsgsFinished, Recorded;
      msgQueue := msgQueue[q := msgQueue[q] + [item]];
      queueEvent := queueEvent[q := true];
    }

    method PopFront(q: nat)
      requires q < QUEUE_COUNT && QueueShape() && msgQueue[q] != []
      modifies this`msgQueue, this`queueEvent
      ensures QueueShape()
      ensures msgQueue == old(msgQueue)[q := old(msgQueue[q])[1..]]
      ensures queueEvent == if old(|msgQueue[q]|) == 1 then old(queueEvent)[q := false] else old(queueEvent)
      ensures old(EventsAgree()) ==>
              old(currentControllerCommand == null || Controller(currentControllerCommand) != msgQueue[q][0]) ==>
              EventsAgree()
      ensures old(Objects()) ==> Objects()
    {
      hide MsgsFinished, Recorded;
      msgQueue := msgQueue[q := msgQueue[q][1..]];
      if msgQueue[q] == [] { queueEvent := queueEvent[q := false]; }
    }

    function PendingOf(node: NodeId): seq<Item>
      reads this`pending
    {
      At(pending, node)
    }

    // ---- controller commands ----

    method UpdateControllerState(state: ControllerState)
      requires |queueEvent| == QUEUE_COUNT
      modifies this`queueEvent, currentControllerCommand
      ensures currentControllerCommand != null ==> currentControllerCommand.state == state
      ensures currentControllerCommand != null ==>
                && currentControllerCommand.stateChanged
                     == old(currentControllerCommand.stateChanged || currentControllerCommand.state != state)
                && currentControllerCommand.done == old(
                     currentControllerCommand.done || (currentControllerCommand.state != state && Terminal(state)))
      ensures queueEvent ==
                if currentControllerCommand != null && old(currentControllerCommand.state) != state && Terminal(state)
                then old(queueEvent)[CONTROLLER := true] else old(queueEvent)
      ensures old(QueueShape() && EventsAgree()) ==> QueueShape() && EventsAgree()
    {
      if currentControllerCommand != null && state != currentControllerCommand.state {
        currentControllerCommand.stateChanged := true;
        currentControllerCommand.state := state;
        if Terminal(state) {
          currentControllerCommand.done := true;
          queueEvent := queueEvent[CONTROLLER := true];
        }
      }
    }

    ghost method Enlist(c: ControllerCommandItem)
      requires Objects()
      modifies this`commands
      ensures Objects() && commands == old(commands) + {c}
    {
      hide MsgsFinished, Recorded;
      commands := commands + {c};
    }

    method BeginControllerCommand(command: nat, callback: nat, node: NodeId)
      returns (ok: bool, ghost cci: ControllerCommandItem?)
      requires Valid()
      modifies this`commands
      modifies this`msgQueue, this`queueEvent
      ensures Valid() && ok == (command != 0) == (cci != null)
      ensures commands == old(commands) + if ok then {cci} else {}
      ensures !ok ==> msgQueue == old(msgQueue) && queueEvent == old(queueEvent)
      ensures ok ==>
        && fresh(cci) && cci.command == command && cci.callback == callback && cci.node == node
        && cci.state == Normal && !cci.stateChanged && !cci.done
        && msgQueue == old(msgQueue)[CONTROLLER := old(msgQueue[CONTROLLER]) + [Controller(cci)]]
        && queueEvent == old(queueEvent)[CONTROLLER := true]
    {
      hide Accounted, Retries, Objects, EventsAgree;
      if command == 0 { return false, null; }
      var item := new ControllerCommandItem(command, callback, node);
      Enlist(item);
      PushBack(CONTROLLER, Controller(item));
      return true, item;
    }

    // ---- the current message ----

    /** `RemoveCurrentMsg`. */
    method RemoveCurrentMsg()
      modifies this`currentMsg, this`waitingForAck, this`expectedCallbackId, this`expectedReply
      modifies this`expectedCommandClassId, this`expectedNodeId
      ensures currentMsg == null && !Awaiting() && expectedCommandClassId == 0 && expectedNodeId == 0
    {
      currentMsg := null;
      expectedCallbackId := 0;
      expectedCommandClassId := 0;
      expectedNodeId := 0;
      expectedReply := 0;
      waitingForAck := false;
    }

    /** Whether `WriteMsg` gives a message up. */
    predicate GivesUp(m: Msg)
      reads this`nodes, m`sendAttempts, m`maxSendAttempts, m`final, m`length, m.buffer
    {
      || m.sendAttempts >= m.maxSendAttempts
      || (m.targetNodeId in nodes && !nodes[m.targetNodeId].alive && (m.buffer.Length == 256 ==> !m.IsNoOperation()))
    }

    /** A message with attempts left is given up exactly if its node is known to be dead,
        unless it is the probe of `NoOperation`: a payload of nine bytes with a callback
        id, or of ten without one, that sends data of the class and command 0. */
    lemma GivesUpIff(m: Msg)
      requires m.Valid() && m.final && m.sendAttempts < m.maxSendAttempts
      ensures GivesUp(m) <==>
        && m.targetNodeId in nodes && !nodes[m.targetNodeId].alive
        && !(|m.payload| == (if m.callbackRequired then 9 else 10) && m.payload[3] == FUNC_ID_ZW_SEND_DATA
             && m.payload[6..8] == [0, 0])
    {
      hide Xor;
      var frame := Frame(m.payload, m.callbackRequired, m.callbackId);
      assert m.buffer[..m.length] == frame;
      if m.length == 11 {
        assert forall k | 2 <= k < |m.payload| :: m.buffer[k] == m.buffer[..m.length][k] == frame[k] == m.payload[k];
      }
    }

    lemma CurrentIsReady()
      requires Sound() && currentMsg != null
      ensures currentMsg.Valid() && currentMsg.final && currentMsg in msgs
    {
    }

    /** The id that the next writing of a message carries: a new one, unless it is the first. */
    ghost function NextId(m: Msg?): bv8
      reads ids
      reads (if m == null then {} else {m})`sendAttempts, (if m == null then {} else {m})`callbackId
    {
      if m == null then 0
      else if m.callbackRequired && m.sendAttempts != 0 && ids.Valid() then ids.Upcoming()
      else m.callbackId
    }

    /** The bytes that the next writing of a message puts on the wire: the frame of its payload. */
    ghost function Wire(m: Msg?): seq<bv8>
      reads ids
      reads (if m == null then {} else {m})`sendAttempts, (if m == null then {} else {m})`callbackId
      reads (if m == null then {} else {m})`payload
    {
      if m != null && Framable(m.payload, m.callbackRequired) then Frame(m.payload, m.callbackRequired, NextId(m))
      else []
    }

    /** They are an intact frame, which carries the id before its checksum. */
    lemma WireIsFrame(m: Msg)
      requires m.Valid() && m.final
      ensures Accepts(Wire(m)) && Wire(m) == Frame(m.payload, m.callbackRequired, NextId(m))
      ensures m.callbackRequired ==> Wire(m)[|m.payload|] == NextId(m) && |Wire(m)| == |m.payload| + 2
    {
      hide Xor;
      FrameAccepted(m.payload, m.callbackRequired, NextId(m));
    }

    /** The end of `WriteMsg` that gives the message up. */
    method Drop()
      requires Sound() && currentMsg != null
      modifies this`currentMsg, this`waitingForAck, this`expectedCallbackId, this`expectedReply
      modifies this`expectedCommandClassId, this`expectedNodeId, this`dropped, this`queueEvent, currentControllerCommand
      ensures Valid() && currentMsg == null && dropped == old(dropped) + multiset{old(currentMsg)}
      ensures currentControllerCommand != null ==> currentControllerCommand.state == ErrorState
    {
      hide EventsAgree, Objects, Accounted, Retries;
      if currentControllerCommand != null { UpdateControllerState(ErrorState); }
      RemoveDropped();
    }

    method RemoveDropped()
      requires Accounted() && currentMsg != null
      modifies this`currentMsg, this`waitingForAck, this`expectedCallbackId, this`expectedReply
      modifies this`expectedCommandClassId, this`expectedNodeId, this`dropped
      ensures Accounted() && Retries() && !Awaiting()
      ensures currentMsg == null && dropped == old(dropped) + multiset{old(currentMsg)}
    {
      hide Balanced;
      BalancedEnd(dequeued, completed, dropped, moved, discarded, currentMsg);
      dropped := dropped + multiset{currentMsg};
      RemoveCurrentMsg();
    }

    /** A message that is written again gets a new callback id. */
    method Renumber()
      requires Objects() && currentMsg != null && currentMsg in msgs
      modifies ids, currentMsg`callbackId, currentMsg.buffer
      ensures Objects() && currentMsg.Valid() && currentMsg.final && currentMsg.callbackId == old(NextId(currentMsg))
    {
      hide Owned, Msg.Valid;
      if currentMsg.sendAttempts != 0 { currentMsg.UpdateCallbackId(ids); }
    }

    /** The end of `WriteMsg` that writes the message. */
    method Transmit()
      requires Sound() && currentMsg != null && currentMsg.sendAttempts < currentMsg.maxSendAttempts
      modifies this`waitingForAck, this`expectedCallbackId, this`expectedReply
      modifies this`expectedCommandClassId, this`expectedNodeId, this`writes, this`sent
      modifies ids, currentMsg`callbackId, currentMsg`sendAttempts, currentMsg.buffer
      ensures Valid() && waitingForAck && expectedReply == currentMsg.expectedReply
              && expectedNodeId == currentMsg.targetNodeId
      ensures expectedCommandClassId == currentMsg.expectedCommandClassId && writes == old(writes) + 1
      ensures sent == old(sent) + [old(Wire(currentMsg))] && expectedCallbackId == old(NextId(currentMsg))
    {
      hide EventsAgree, QueueShape, Objects, Accounted, Wire, NextId, Msg.Valid, Frame;
      Prepare();
      Send();
    }

    /** The attempt is counted, and the frame is as it will be written. */
    method Prepare()
      requires Objects() && currentMsg != null && currentMsg in msgs
      modifies ids, currentMsg`callbackId, currentMsg`sendAttempts, currentMsg.buffer
      ensures Objects() && currentMsg.Valid() && currentMsg.final
      ensures currentMsg.sendAttempts == old(currentMsg.sendAttempts) + 1
      ensures currentMsg.callbackId == old(NextId(currentMsg))
      ensures Framable(currentMsg.payload, currentMsg.callbackRequired)
      ensures old(Wire(currentMsg)) == Frame(currentMsg.payload, currentMsg.callbackRequired, currentMsg.callbackId)
    {
      hide Objects, Wire, NextId, Msg.Valid, Frame;
      Ready(currentMsg);
      WireIsFrame(currentMsg);
      Renumber();
      currentMsg.SetSendAttempts(currentMsg.sendAttempts + 1);
    }

    lemma Ready(m: Msg)
      requires Objects() && m in msgs
      ensures m.Valid() && m.final && Framable(m.payload, m.callbackRequired)
    {
    }

    method Send()
      requires currentMsg != null && currentMsg.Valid() && currentMsg.final
      requires Framable(currentMsg.payload, currentMsg.callbackRequired)
      modifies this`waitingForAck, this`expectedCallbackId, this`expectedReply
      modifies this`expectedCommandClassId, this`expectedNodeId, this`writes, this`sent
      ensures waitingForAck && expectedReply == currentMsg.expectedReply && expectedNodeId == currentMsg.targetNodeId
      ensures expectedCommandClassId == currentMsg.expectedCommandClassId && writes == old(writes) + 1
      ensures sent == old(sent) + [Frame(currentMsg.payload, currentMsg.callbackRequired, currentMsg.callbackId)]
      ensures expectedCallbackId == currentMsg.callbackId
    {
      hide Accepts, Xor;
      expectedCallbackId := currentMsg.callbackId;
      expectedCommandClassId := currentMsg.expectedCommandClassId;
      expectedNodeId := currentMsg.targetNodeId;
      expectedReply := currentMsg.expectedReply;
      waitingForAck := true;
      writes := writes + 1;
      sent := sent + [currentMsg.buffer[..currentMsg.length]];
    }

    /** `WriteMsg`: writes the current message once more, or drops it. */
    method WriteMsg() returns (ok: bool)
      requires Sound()
      modifies this`currentMsg, this`waitingForAck, this`expectedCallbackId, this`expectedReply
      modifies this`expectedCommandClassId, this`expectedNodeId, this`writes, this`sent, this`dropped, this`queueEvent
      modifies ids, (if currentMsg == null then {} else {currentMsg})`callbackId,
               (if currentMsg == null then {} else {currentMsg})`sendAttempts
      modifies if currentMsg == null then {} else {currentMsg.buffer}, currentControllerCommand
      ensures Valid()
      ensures ok <==> old(currentMsg != null && !GivesUp(currentMsg))
      ensures !ok ==> currentMsg == null && sent == old(sent)
      ensures old(currentMsg) == null ==> dropped == old(dropped)
      ensures !ok && old(currentMsg) != null ==> dropped == old(dropped) + multiset{old(currentMsg)}
      ensures !ok && old(currentMsg) != null && currentControllerCommand != null ==>
                currentControllerCommand.state == ErrorState
      ensures ok ==>
        && currentMsg == old(currentMsg) && dropped == old(dropped) && queueEvent == old(queueEvent)
        && waitingForAck && expectedReply == currentMsg.expectedReply && expectedNodeId == currentMsg.targetNodeId
        && expectedCommandClassId == currentMsg.expectedCommandClassId
        && writes == old(writes) + 1
      ensures ok ==> sent == old(sent) + [old(Wire(currentMsg))] && expectedCallbackId == old(NextId(currentMsg))
    {
      hide EventsAgree, QueueShape, Objects, Accounted, Retries;
      if currentMsg == null {
        RemoveCurrentMsg();
        return false;
      }
      CurrentIsReady();
      if GivesUp(currentMsg) {
        Drop();
        return false;
      }
      Transmit();
      return true;
    }

    // ---- messages for sleeping nodes ----

    /** The node's messages wait in its wake-up queue. */
    predicate Sleeps(node: NodeId)
      reads this`nodes, this`awake
    {
      node in nodes && !nodes[node].listening && nodes[node].hasWakeUp && node !in awake
    }

    /** `WakeUp::QueueMsg`: replaces older copies of the item. */
    method QueueMsg(node: NodeId, item: Item)
      requires MsgsFinished() && Owned(PendingOf(node)) && (item.SendMsg? ==> item.msg in msgs)
      modifies this`pending, (if item.SendMsg? then {item.msg} else {})`sendAttempts
      ensures pending == old(pending)[node := Without(old(PendingOf(node)), item, Views(msgs)) + [item]]
      ensures item.SendMsg? ==> item.msg.sendAttempts == 0
    {
      hide MsgsFinished, Views;
      var kept := WithoutCopies(PendingOf(node), item);
      if item.SendMsg? { item.msg.SetSendAttempts(0); }
      pending := pending[node := kept + [item]];
    }

    /** The loop of `QueueMsg`. */
    method WithoutCopies(list: seq<Item>, item: Item) returns (kept: seq<Item>)
      requires MsgsFinished() && Owned(list) && (item.SendMsg? ==> item.msg in msgs)
      ensures kept == Without(list, item, Views(msgs))
    {
      hide MsgsFinished, Views, IsCopy, Without;
      WithoutEmpty(item, Views(msgs));
      ghost var views := Views(msgs);
      var s := list;
      kept := [];
      while s != []
        invariant Owned(s)
        invariant kept + Without(s, item, views) == Without(list, item, views)
      {
        WithoutStep(kept, s, item, views);
        var copy := Same(s[0], item);
        if !copy { kept := kept + [s[0]]; }
        s := s[1..];
      }
    }

    /** `MsgQueueItem::operator==`. */
    method Same(a: Item, b: Item) returns (same: bool)
      requires MsgsFinished() && (a.SendMsg? ==> a.msg in msgs) && (b.SendMsg? ==> b.msg in msgs)
      ensures same == IsCopy(a, b, Views(msgs))
    {
      match b {
        case SendMsg(n) =>
          if !a.SendMsg? { return false; }
          same := n.Matches(a.msg);
        case QueryStageComplete(i, s, _) =>
          same := a.QueryStageComplete? && a.nodeId == i && a.stage == s;
        case Controller(c) =>
          same := a.Controller? && a.cci.command == c.command && a.cci.callback == c.callback;
      }
    }

    /** A message may be handed over for sending: it owns its buffer and can be finished. */
    ghost predicate Sendable(msg: Msg)
      reads this`msgs, msg, msg.buffer
    {
      && msg.Valid()
      && (msg in msgs || forall m | m in msgs :: m.buffer != msg.buffer)
      && (msg.final || (msg.FinalLength() <= 255 && msg.Wrappable()))
    }

    /** `Finalize` for a message that is handed over. */
    method Finish(msg: Msg)
      requires Objects() && Sendable(msg)
      modifies msg`length, msg`final, msg`callbackId, msg`payload, msg.buffer, ids
      ensures Objects() && Sendable(msg) && msg.final && msg.payload == old(msg.Said())
      ensures msg.callbackId == if old(msg.final) then old(msg.callbackId)
                                else if msg.callbackRequired then old(ids.Upcoming()) else 0
    {
      hide Owned, Msg.Valid, Msg.FinalLength, Msg.Said;
      msg.Finalize(ids);
      msg.IdFits();
    }

    ghost method Adopt(msg: Msg)
      requires Objects() && Sendable(msg) && msg.final
      modifies this`msgs
      ensures Objects() && msgs == old(msgs) + {msg}
    {
      hide Msg.Valid, Msg.FinalLength;
      msgs := msgs + {msg};
    }

    method Pend(node: NodeId, item: Item)
      requires Objects() && (item.SendMsg? ==> item.msg in msgs && item.msg != currentMsg)
      requires item.Controller? ==> item.cci in commands
      requires !item.Controller? ==> NodeOf(item) == node
      modifies this`pending, this`log, (if item.SendMsg? then {item.msg} else {})`sendAttempts
      ensures Objects() && PendsNext(old(pending), old(log), node, item) && AllExtend(old(log), log)
    {
      hide MsgsFinished, Noted, Views, Recorded, AllExtend;
      RecordedNext(pending, log, node, item, Views(msgs));
      QueueMsg(node, item);
      log := log[node := Noted(LogOf(node), item, Views(msgs))];
      WithoutMembers(old(PendingOf(node)), item, Views(msgs));
      forall n | n in pending ensures Owned(pending[n]) {
        if n != node { assert Owned(old(pending)[n]); } else { assert Owned(old(PendingOf(node))); }
      }
      forall n | n in pending ensures AtHome(pending[n], n) {
        if n != node { assert AtHome(old(pending)[n], n); } else { assert AtHome(old(PendingOf(node)), n); }
      }
    }

    method SendMsg(msg: Msg, q: nat)
      requires Valid() && q < QUEUE_COUNT && Sendable(msg) && (Sleeps(msg.targetNodeId) ==> msg != currentMsg)
      modifies this`commands
      modifies this`pending, this`log, this`msgs, this`msgQueue, this`queueEvent, ids, currentControllerCommand
      modifies msg`length, msg`final, msg`callbackId, msg`payload, msg`sendAttempts, msg.buffer
      ensures Valid() && msg.final && msg.payload == old(msg.Said())
      ensures msg.callbackId == if old(msg.final) then old(msg.callbackId)
                                else if msg.callbackRequired then old(ids.Upcoming()) else 0
      ensures AllExtend(old(log), log)
      ensures fresh(commands - old(commands)) && old(commands) <= commands
      ensures old(msgs) <= msgs <= old(msgs) + {msg}
      ensures !Sleeps(msg.targetNodeId) ==>
        && msgs == old(msgs) + {msg} && pending == old(pending) && log == old(log)
        && commands == old(commands) && msg.sendAttempts == old(msg.sendAttempts)
        && (currentControllerCommand == null || unchanged(currentControllerCommand))
        && msgQueue == old(msgQueue)[q := old(msgQueue[q]) + [Item.SendMsg(msg)]]
        && queueEvent == old(queueEvent)[q := true]
      ensures Sleeps(msg.targetNodeId) && currentControllerCommand == null ==>
        && msgs == old(msgs) + {msg} && msgQueue == old(msgQueue) && queueEvent == old(queueEvent)
        && PendsNext(old(pending), old(log), msg.targetNodeId, Item.SendMsg(msg))
      ensures Sleeps(msg.targetNodeId) && currentControllerCommand != null ==>
        && msgs == old(msgs) && msgQueue == old(msgQueue) && currentControllerCommand.state == Sleeping
        && currentControllerCommand.done
             == old(currentControllerCommand.done || currentControllerCommand.state != Sleeping)
        && exists c ::
             && fresh(c) && c in commands && SameCommand(currentControllerCommand, c)
             && c.state == old(currentControllerCommand.state)
             && PendsNext(old(pending), old(log), msg.targetNodeId, Controller(c))
    {
      hide Objects, EventsAgree, Accounted, Retries, Sendable, PendsNext, AllExtend, Msg.Said;
      SelfExtends(log);
      Finish(msg);
      if Sleeps(msg.targetNodeId) { Postpone(msg); } else { Enqueue(msg, q); }
    }

    method Enqueue(msg: Msg, q: nat)
      requires QueueShape() && EventsAgree() && Objects() && Sendable(msg) && msg.final && q < QUEUE_COUNT
      modifies this`msgs, this`msgQueue, this`queueEvent
      ensures QueueShape() && EventsAgree() && Objects() && msgs == old(msgs) + {msg}
      ensures msgQueue == old(msgQueue)[q := old(msgQueue[q]) + [Item.SendMsg(msg)]]
      ensures queueEvent == old(queueEvent)[q := true]
    {
      hide Objects, EventsAgree, Sendable;
      Adopt(msg);
      PushBack(q, Item.SendMsg(msg));
    }

    /** The part of `SendMsg` for a sleeping node: a controller command is kept
        instead of its message. */
    method Postpone(msg: Msg)
      requires QueueShape() && EventsAgree() && Objects() && Retries() && Sendable(msg) && msg.final
               && msg != currentMsg
      modifies this`commands
      modifies this`pending, this`log, this`msgs, this`queueEvent, currentControllerCommand, msg`sendAttempts
      ensures QueueShape() && EventsAgree() && Objects() && Retries() && AllExtend(old(log), log)
      ensures fresh(commands - old(commands)) && old(commands) <= commands
      ensures currentControllerCommand == null ==>
        && msgs == old(msgs) + {msg} && queueEvent == old(queueEvent)
        && PendsNext(old(pending), old(log), msg.targetNodeId, Item.SendMsg(msg))
      ensures currentControllerCommand != null ==>
        && msgs == old(msgs) && currentControllerCommand.state == Sleeping
        && currentControllerCommand.done
             == old(currentControllerCommand.done || currentControllerCommand.state != Sleeping)
        && exists c ::
             && fresh(c) && c in commands && SameCommand(currentControllerCommand, c)
             && c.state == old(currentControllerCommand.state)
             && PendsNext(old(pending), old(log), msg.targetNodeId, Controller(c))
    {
      hide Objects, EventsAgree, Sendable, PendsNext, AllExtend;
      if currentControllerCommand != null {
        PostponeCommand(msg.targetNodeId);
      } else {
        Adopt(msg);
        Pend(msg.targetNodeId, Item.SendMsg(msg));
      }
    }

    method PostponeCommand(node: NodeId)
      requires QueueShape() && EventsAgree() && Objects() && currentControllerCommand != null
      modifies this`commands
      modifies this`pending, this`log, this`queueEvent, currentControllerCommand
      ensures QueueShape() && EventsAgree() && Objects() && AllExtend(old(log), log)
      ensures fresh(commands - old(commands)) && old(commands) <= commands
      ensures currentControllerCommand.state == Sleeping
      ensures currentControllerCommand.done
              == old(currentControllerCommand.done || currentControllerCommand.state != Sleeping)
      ensures exists c ::
        && fresh(c) && c in commands && SameCommand(currentControllerCommand, c)
        && c.state == old(currentControllerCommand.state)
        && PendsNext(old(pending), old(log), node, Controller(c))
    {
      hide Objects, EventsAgree, PendsNext, AllExtend;
      var c := new ControllerCommandItem.Copy(currentControllerCommand);
      Enlist(c);
      UpdateControllerState(Sleeping);
      Pend(node, Controller(c));
    }

    /** The wake-up queue of the node now ends in the item, without older copies of it, and so says its record. */
    ghost predicate PendsNext(before: map<NodeId, seq<Item>>, logs: map<NodeId, seq<Entry>>, node: NodeId, item: Item)
      reads this`pending, this`log, this`msgs, msgs`final, msgs`length, set m | m in msgs :: m.buffer
    {
      && pending == before[node := Without(At(before, node), item, Views(msgs)) + [item]]
      && log == logs[node := Noted(At(logs, node), item, Views(msgs))]
    }

    method SendQueryStageComplete(node: NodeId, stage: nat)
      requires Valid()
      modifies this`pending, this`log, this`msgQueue, this`queueEvent
      ensures Valid() && AllExtend(old(log), log)
      ensures node !in nodes ==> pending == old(pending) && log == old(log) && msgQueue == old(msgQueue)
      ensures Sleeps(node) ==>
        && msgQueue == old(msgQueue)
        && PendsNext(old(pending), old(log), node, QueryStageComplete(node, stage, false))
      ensures node in nodes && !Sleeps(node) ==>
        && pending == old(pending) && log == old(log)
        && msgQueue == old(msgQueue)[QUERY := old(msgQueue[QUERY]) + [QueryStageComplete(node, stage, false)]]
    {
      hide Objects, EventsAgree, Accounted, Retries, PendsNext, AllExtend;
      SelfExtends(log);
      var item := QueryStageComplete(node, stage, false);
      if node in nodes {
        if Sleeps(node) { Pend(node, item); } else { PushBack(QUERY, item); }
      }
    }

    // ---- nodes that wake up, and nodes that change ----

    /** A pending item goes to the queue for its kind. */
    method HandOver(item: Item) returns (ghost begun: Item)
      requires Valid() && (!item.Controller? ==> NodeOf(item) in nodes && !Sleeps(NodeOf(item)))
      requires item.SendMsg? ==> item.msg in msgs && Sendable(item.msg)
      modifies this`commands
      modifies this`pending, this`log, this`msgs, this`msgQueue, this`queueEvent, ids, currentControllerCommand
      modifies (if item.SendMsg? then {item.msg, item.msg.buffer} else {})
      ensures Valid() && pending == old(pending) && log == old(log) && msgs == old(msgs)
      ensures commands == old(commands) + if begun.Controller? then {begun.cci} else {}
      ensures currentControllerCommand == null || unchanged(currentControllerCommand)
      ensures item.SendMsg? ==> msgQueue == old(msgQueue)[WAKEUP := old(msgQueue[WAKEUP]) + [item]]
      ensures item.QueryStageComplete? ==>
                msgQueue == old(msgQueue)[QUERY := old(msgQueue[QUERY]) + [item.(retry := false)]]
      ensures !item.Controller? ==> begun == item
      ensures item.Controller? ==>
        && begun.Controller? && fresh(begun.cci) && SameCommand(item.cci, begun.cci) && begun.cci.state == Normal
        && !begun.cci.done
        && msgQueue == old(msgQueue)[CONTROLLER := old(msgQueue[CONTROLLER]) + [begun]]
    {
      hide Objects, EventsAgree, Accounted, Retries, Sendable, PendsNext;
      begun := item;
      if item.SendMsg? {
        SendMsg(item.msg, WAKEUP);
      } else if item.QueryStageComplete? {
        SendQueryStageComplete(item.nodeId, item.stage);
      } else {
        ghost var cci;
        var ok;
        ok, cci := BeginControllerCommand(item.cci.command, item.cci.callback, item.cci.node);
        begun := Controller(cci);
      }
    }

    /** What waits for a node can be handed over when it wakes up. */
    lemma PendingFront(node: NodeId)
      requires Objects() && PendingOf(node) != []
      ensures var item := PendingOf(node)[0];
              && (!item.Controller? ==> NodeOf(item) == node)
              && (item.SendMsg? ==> item.msg in msgs && Sendable(item.msg))
    {
      assert Owned(pending[node]) && AtHome(pending[node], node);
      assert PendingOf(node)[0] in pending[node];
    }

    method ErasePending(node: NodeId)
      requires Objects() && PendingOf(node) != []
      modifies this`pending, this`log
      ensures Objects() && PendingOf(node) == old(PendingOf(node))[1..]
      ensures PartlyHanded(old(pending), old(log), pending, log, node)
    {
      hide MsgsFinished, HandedFirst, Recorded;
      RecordedHanded(pending, log, node);
      log := log[node := HandedFirst(LogOf(node))];
      assert Owned(pending[node]) && AtHome(pending[node], node);
      pending := pending[node := pending[node][1..]];
      forall n | n in pending ensures Owned(pending[n]) && AtHome(pending[n], n) {
        if n != node { assert Owned(old(pending)[n]) && AtHome(old(pending)[n], n); }
      }
    }

    /** The queues after a list was handed over, its commands begun anew. */
    static ghost function Handed(queues: seq<seq<Item>>, list: seq<Item>, begun: seq<Item>): (r: seq<seq<Item>>)
      requires |queues| == QUEUE_COUNT
      ensures |r| == QUEUE_COUNT
    {
      queues[WAKEUP := queues[WAKEUP] + Messages(list)]
      [QUERY := queues[QUERY] + Stages(list)]
      [CONTROLLER := queues[CONTROLLER] + begun]
    }

    static lemma HandedNothing(queues: seq<seq<Item>>, list: seq<Item>)
      requires |queues| == QUEUE_COUNT
      ensures Handed(queues, list[..0], []) == queues && BegunAnew(Commands(list[..0]), [])
    {
      PartsNone(list);
      assert queues[WAKEUP] + [] == queues[WAKEUP] && queues[QUERY] + [] == queues[QUERY];
      assert queues[CONTROLLER] + [] == queues[CONTROLLER];
    }

    /** One more item handed over. */
    static lemma HandedNext(queues: seq<seq<Item>>, list: seq<Item>, k: nat, begun: seq<Item>, again: Item)
      requires |queues| == QUEUE_COUNT && k < |list|
      requires BegunAnew(Commands(list[..k]), begun)
      ensures
        var now, item := Handed(queues, list[..k], begun), list[k];
        && |now| == QUEUE_COUNT
        && (item.SendMsg? ==> now[WAKEUP := now[WAKEUP] + [item]] == Handed(queues, list[..k + 1], begun))
        && (item.QueryStageComplete? ==>
             now[QUERY := now[QUERY] + [item.(retry := false)]] == Handed(queues, list[..k + 1], begun))
        && (item.Controller? ==>
             now[CONTROLLER := now[CONTROLLER] + [again]] == Handed(queues, list[..k + 1], begun + [again]))
        && (!item.Controller? ==> BegunAnew(Commands(list[..k + 1]), begun))
        && (item.Controller? && again.Controller? && SameCommand(item.cci, again.cci) ==>
              BegunAnew(Commands(list[..k + 1]), begun + [again]))
    {
      hide Messages, Stages, Commands;
      PartsNext(list, k);
      var item := list[k];
      var m, s := Messages(list[..k]), Stages(list[..k]);
      AppendTwice(queues[WAKEUP], m, item);
      AppendTwice(queues[CONTROLLER], begun, again);
      var stage := if item.QueryStageComplete? then item.(retry := false) else item;
      AppendTwice(queues[QUERY], s, stage);
      var now := Handed(queues, list[..k], begun);
      if item.QueryStageComplete? {
        var left, right := now[QUERY := now[QUERY] + [stage]], Handed(queues, list[..k + 1], begun);
        assert forall q | 0 <= q < QUEUE_COUNT :: left[q] == right[q];
      } else if item.Controller? {
        var left, right := now[CONTROLLER := now[CONTROLLER] + [again]], Handed(queues, list[..k + 1], begun + [again]);
        assert forall q | 0 <= q < QUEUE_COUNT :: left[q] == right[q];
      }
    }

    static lemma AppendTwice(q: seq<Item>, list: seq<Item>, x: Item)
      ensures q + list + [x] == q + (list + [x]) && list + [] == list
    {
    }

    /** The first pending item is handed over and erased. */
    method HandFront(node: NodeId) returns (ghost begun: Item)
      requires Valid() && PendingOf(node) != [] && node in nodes && !Sleeps(node)
      modifies this`commands
      modifies this`pending, this`log, this`msgs, this`msgQueue, this`queueEvent, ids, currentControllerCommand
      modifies msgs, set m | m in msgs :: m.buffer
      ensures Valid() && msgs == old(msgs) && PendingOf(node) == old(PendingOf(node))[1..]
      ensures PartlyHanded(old(pending), old(log), pending, log, node)
      ensures currentControllerCommand == null || unchanged(currentControllerCommand)
      ensures
        var item := old(PendingOf(node))[0];
        && (!item.Controller? ==> begun == item)
        && (item.SendMsg? ==> msgQueue == old(msgQueue)[WAKEUP := old(msgQueue[WAKEUP]) + [item]])
        && (item.QueryStageComplete? ==>
             msgQueue == old(msgQueue)[QUERY := old(msgQueue[QUERY]) + [item.(retry := false)]])
        && (item.Controller? ==>
              && begun.Controller? && fresh(begun.cci) && SameCommand(item.cci, begun.cci) && begun.cci.state == Normal
              && !begun.cci.done
              && msgQueue == old(msgQueue)[CONTROLLER := old(msgQueue[CONTROLLER]) + [begun]])
      ensures commands == old(commands) + if begun.Controller? then {begun.cci} else {}
    {
      hide Objects, EventsAgree, Accounted, Retries, Sendable, SameCommand;
      PendingFront(node);
      begun := HandOver(PendingOf(node)[0]);
      ErasePending(node);
    }

    /** One round of the loop of `WakeUp::SendPending`, with what was handed over before. */
    method HandNext(node: NodeId, ghost queues: seq<seq<Item>>, ghost list: seq<Item>, ghost k: nat,
                    ghost begun: seq<Item>)
      returns (ghost next: seq<Item>)
      requires Valid() && node in nodes && !Sleeps(node)
      requires k < |list| && PendingOf(node) == list[k..] && |queues| == QUEUE_COUNT
      requires BegunAnew(Commands(list[..k]), begun) && msgQueue == Handed(queues, list[..k], begun)
      modifies this`commands
      modifies this`pending, this`log, this`msgs, this`msgQueue, this`queueEvent, ids, currentControllerCommand
      modifies msgs, set m | m in msgs :: m.buffer
      ensures Valid() && msgs == old(msgs) && PendingOf(node) == list[k + 1..]
      ensures PartlyHanded(old(pending), old(log), pending, log, node)
      ensures currentControllerCommand == null || unchanged(currentControllerCommand)
      ensures BegunAnew(Commands(list[..k + 1]), next) && msgQueue == Handed(queues, list[..k + 1], next)
      ensures list[k].Controller? ==>
        && |next| == |begun| + 1 && next == begun + [next[|begun|]] && next[|begun|].Controller?
        && fresh(next[|begun|].cci) && next[|begun|].cci.state == Normal && !next[|begun|].cci.done
        && commands == old(commands) + {next[|begun|].cci}
      ensures !list[k].Controller? ==> next == begun && commands == old(commands)
    {
      hide Objects, EventsAgree, Accounted, Retries, Sendable, Commands, Handed, BegunAnew, SameCommand, Valid, Sound;
      hide PartlyHanded, AllHanded;
      ghost var again := HandFront(node);
      HandedNext(queues, list, k, begun, again);
      next := if list[k].Controller? then begun + [again] else begun;
    }

    /** The loop of `WakeUp::SendPending`. */
    method HandOverAll(node: NodeId) returns (ghost begun: seq<Item>)
      requires Valid() && node in nodes && !Sleeps(node)
      modifies this`commands
      modifies this`pending, this`log, this`msgs, this`msgQueue, this`queueEvent, ids, currentControllerCommand
      modifies msgs, set m | m in msgs :: m.buffer
      ensures Valid() && msgs == old(msgs) && AllHanded(old(pending), old(log), pending, log, node)
      ensures currentControllerCommand == null || unchanged(currentControllerCommand)
      ensures BegunAnew(Commands(old(PendingOf(node))), begun)
      ensures forall x | x in begun :: x.Controller? && fresh(x.cci) && x.cci.state == Normal && !x.cci.done
      ensures msgQueue == Handed(old(msgQueue), old(PendingOf(node)), begun)
      ensures fresh(commands - old(commands)) && old(commands) <= commands
    {
      hide Objects, EventsAgree, Accounted, Retries, Sendable, Commands, Handed, BegunAnew, SameCommand, Valid, Sound;
      hide PartlyHanded, AllHanded;
      ghost var list, k := PendingOf(node), 0;
      begun := [];
      ShapeOf();
      HandedNothing(msgQueue, list);
      NoneHanded(pending, log, node);
      while PendingOf(node) != []
        invariant Valid() && k <= |list| && PendingOf(node) == list[k..]
        invariant PartlyHanded(old(pending), old(log), pending, log, node)
        invariant msgs == old(msgs) && (currentControllerCommand == null || unchanged(currentControllerCommand))
        invariant BegunAnew(Commands(list[..k]), begun)
        invariant forall x | x in begun :: x.Controller? && fresh(x.cci) && x.cci.state == Normal && !x.cci.done
        invariant msgQueue == Handed(old(msgQueue), list[..k], begun)
        invariant fresh(commands - old(commands)) && old(commands) <= commands
        decreases |list| - k
      {
        ghost var waiting, noted := pending, log;
        begun := HandNext(node, old(msgQueue), list, k, begun);
        BothHanded(old(pending), old(log), waiting, noted, pending, log, node);
        k := k + 1;
      }
      assert list[..k] == list;
      LogsMatch();
      AllAreHanded(old(pending), old(log), pending, log, node);
    }

    /** `WakeUp::SendPending`: the node is awake, and everything that waited for it is
        queued, by its kind and in order. `farewell` is the message that sends the
        node back to sleep, or null. */
    method SendPending(node: NodeId, farewell: Msg?) returns (ghost begun: seq<Item>)
      requires Valid() && node in nodes && nodes[node].hasWakeUp
      requires farewell != null ==> Sendable(farewell) && farewell !in msgs && farewell.targetNodeId == node
      modifies this`commands
      modifies this`awake, this`pending, this`log, this`msgs, this`msgQueue, this`queueEvent, ids,
               currentControllerCommand
      modifies msgs, set m | m in msgs :: m.buffer
      modifies farewell, if farewell == null then {} else {farewell.buffer}
      ensures Valid() && awake == old(awake) + {node}
      ensures AllHanded(old(pending), old(log), pending, log, node)
      ensures msgs == old(msgs) + if farewell == null then {} else {farewell}
      ensures currentControllerCommand == null || unchanged(currentControllerCommand)
      ensures BegunAnew(Commands(old(PendingOf(node))), begun)
      ensures forall x | x in begun :: x.Controller? && fresh(x.cci) && x.cci.state == Normal && !x.cci.done
      ensures
        var handed := Handed(old(msgQueue), old(PendingOf(node)), begun);
        msgQueue == if farewell == null then handed else handed[WAKEUP := handed[WAKEUP] + [Item.SendMsg(farewell)]]
      ensures fresh(commands - old(commands)) && old(commands) <= commands
    {
      hide Objects, EventsAgree, Accounted, Retries, Commands, Handed, BegunAnew, Msg.Valid, Msg.FinalLength, Valid,
           Sound;
      Wake(node);
      begun := HandOverAll(node);
      if farewell != null { SendMsg(farewell, WAKEUP); }
    }

    method Wake(node: NodeId)
      requires Valid()
      modifies this`awake
      ensures Valid() && awake == old(awake) + {node}
    {
      hide EventsAgree, Objects, Accounted, Retries;
      awake := awake + {node};
    }

    /** `WakeUp::SetAwake`. */
    method SetAwake(node: NodeId, state: bool, farewell: Msg?) returns (ghost begun: seq<Item>)
      requires Valid() && node in nodes && nodes[node].hasWakeUp
      requires farewell != null ==> Sendable(farewell) && farewell !in msgs && farewell.targetNodeId == node
      modifies this`commands
      modifies this`awake, this`pending, this`log, this`msgs, this`msgQueue, this`queueEvent, ids,
               currentControllerCommand
      modifies msgs, set m | m in msgs :: m.buffer
      modifies farewell, if farewell == null then {} else {farewell.buffer}
      ensures Valid() && awake == if state then old(awake) + {node} else old(awake) - {node}
      ensures state ==> BegunAnew(Commands(old(PendingOf(node))), begun)
      ensures state ==>
        var handed := Handed(old(msgQueue), old(PendingOf(node)), begun);
        msgQueue == if farewell == null then handed else handed[WAKEUP := handed[WAKEUP] + [Item.SendMsg(farewell)]]
      ensures msgs == old(msgs) + if state && farewell != null then {farewell} else {}
      ensures !state ==> pending == old(pending) && msgQueue == old(msgQueue)
      ensures if state then AllHanded(old(pending), old(log), pending, log, node) else log == old(log)
      ensures fresh(commands - old(commands)) && old(commands) <= commands
    {
      hide Objects, EventsAgree, Accounted, Retries, Commands, Handed, BegunAnew, Sendable, Valid, Sound;
      begun := [];
      if state { begun := SendPending(node, farewell); } else { Doze(node); }
    }

    /** `InitNode`: a new node replaces an old one, whose pending items are gone. */
    method InitNode(node: NodeId, info: NodeInfo)
      requires Valid()
      modifies this`nodes, this`awake, this`pending, this`log
      ensures Valid() && nodes == old(nodes)[node := info] && pending == old(pending) - {node}
      ensures log == old(log)[node := Closed(old(LogOf(node)), Abandoned)]
      ensures awake == if assumeAwake then old(awake) + {node} else old(awake) - {node}
    {
      hide EventsAgree, Objects, Accounted, Retries;
      DropPending(node);
      Register(node, info);
    }

    method Register(node: NodeId, info: NodeInfo)
      modifies this`nodes, this`awake
      ensures nodes == old(nodes)[node := info]
      ensures awake == if assumeAwake then old(awake) + {node} else old(awake) - {node}
    {
      nodes := nodes[node := info];
      awake := if assumeAwake then awake + {node} else awake - {node};
    }

    method DropPending(node: NodeId)
      requires Objects()
      modifies this`pending, this`log
      ensures Objects() && pending == old(pending) - {node}
      ensures log == old(log)[node := Closed(old(LogOf(node)), Abandoned)]
    {
      hide MsgsFinished, Owned, AtHome, Recorded, Closed;
      RecordedAbandoned(pending, log, node);
      pending := pending - {node};
      log := log[node := Closed(LogOf(node), Abandoned)];
    }

    /** A node that no longer exists: what waits for it is gone, what is queued for it is not. */
    method DeleteNode(node: NodeId)
      requires Valid()
      modifies this`nodes, this`awake, this`pending, this`log
      ensures Valid() && nodes == old(nodes) - {node} && awake == old(awake) - {node}
      ensures pending == old(pending) - {node}
      ensures log == old(log)[node := Closed(old(LogOf(node)), Abandoned)]
    {
      hide EventsAgree, Objects, Accounted, Retries;
      DropPending(node);
      Unregister(node);
    }

    method Unregister(node: NodeId)
      modifies this`nodes, this`awake
      ensures nodes == old(nodes) - {node} && awake == old(awake) - {node}
    {
      nodes, awake := nodes - {node}, awake - {node};
    }

    /** `Node::SetNodeAlive`. */
    method SetNodeAlive(node: NodeId, alive: bool)
      requires Valid() && node in nodes
      modifies this`nodes
      ensures Valid() && nodes == old(nodes)[node := old(nodes[node]).(alive := alive)]
    {
      hide EventsAgree, Objects, Accounted, Retries;
      nodes := nodes[node := nodes[node].(alive := alive)];
    }

    // ---- the next item ----

    /** The message at the front of a queue becomes the current one. */
    method TakeMsg(q: nat)
      requires Valid() && q < QUEUE_COUNT && !Awaiting() && msgQueue[q] != [] && msgQueue[q][0].SendMsg?
      modifies this`currentMsg, this`queueEvent, this`msgQueue
      modifies this`dequeued, this`startAttempts, this`startMax, this`writes, this`cans
      ensures Sound() && currentMsg == old(msgQueue[q][0].msg) && msgQueue == old(msgQueue)[q := old(msgQueue[q])[1..]]
      ensures dequeued == old(dequeued) + multiset{currentMsg} && writes == cans == 0
      ensures startAttempts == currentMsg.sendAttempts && startMax == currentMsg.maxSendAttempts
    {
      hide EventsAgree, Objects, Accounted, Retries;
      FrontOwned(q);
      var m := msgQueue[q][0].msg;
      PopFront(q);
      Begin(m);
    }

    lemma QueueOwned(q: nat)
      requires Objects() && q < |msgQueue|
      ensures Owned(msgQueue[q])
    {
    }

    lemma FrontOwned(q: nat)
      requires Objects() && q < |msgQueue| && msgQueue[q] != [] && msgQueue[q][0].SendMsg?
      ensures msgQueue[q][0].msg in msgs
    {
      assert Owned(msgQueue[q]);
    }

    method Begin(m: Msg)
      requires Accounted() && currentMsg == null && m in msgs
      modifies this`currentMsg, this`dequeued, this`startAttempts, this`startMax, this`writes, this`cans
      ensures Accounted() && Retries()
      ensures currentMsg == m && dequeued == old(dequeued) + multiset{m} && writes == cans == 0
      ensures startAttempts == m.sendAttempts && startMax == m.maxSendAttempts
    {
      hide Balanced;
      BalancedBegin(dequeued, completed, dropped, moved, discarded, m);
      currentMsg := m;
      dequeued := dequeued + multiset{m};
      startAttempts, startMax, writes, cans := m.sendAttempts, m.maxSendAttempts, 0, 0;
    }

    /** `WriteNextMsg` for a message. */
    method NextMsg(q: nat) returns (ok: bool)
      requires Valid() && q < QUEUE_COUNT && !Awaiting() && msgQueue[q] != [] && msgQueue[q][0].SendMsg?
      modifies this`currentMsg, this`waitingForAck, this`expectedCallbackId, this`expectedReply
      modifies this`expectedCommandClassId, this`expectedNodeId, this`sent, this`dropped, this`queueEvent, this`msgQueue
      modifies this`dequeued, this`startAttempts, this`startMax, this`writes, this`cans
      modifies ids, msgQueue[q][0].msg`callbackId, msgQueue[q][0].msg`sendAttempts, msgQueue[q][0].msg.buffer
      modifies currentControllerCommand
      ensures Valid() && msgQueue == old(msgQueue)[q := old(msgQueue[q])[1..]]
      ensures dequeued == old(dequeued) + multiset{old(msgQueue[q][0].msg)}
      ensures ok <==> !old(GivesUp(msgQueue[q][0].msg))
      ensures MsgServed(old(msgQueue[q][0].msg), !ok, old(sent), old(Wire(msgQueue[q][0].msg)),
                        old(NextId(msgQueue[q][0].msg)))
      ensures dropped == old(dropped) + if ok then multiset{} else multiset{old(msgQueue[q][0].msg)}
    {
      hide Objects, EventsAgree, Accounted, Retries, Wire, NextId, GivesUp;
      TakeMsg(q);
      ok := WriteMsg();
    }

    /** `WriteNextMsg` for a completed query stage; what the node does then is left out. */
    method NextStage(q: nat) returns (ok: bool)
      requires Valid() && q < QUEUE_COUNT && !Awaiting() && msgQueue[q] != [] && msgQueue[q][0].QueryStageComplete?
      modifies this`queueEvent, this`msgQueue, this`currentMsg
      ensures Valid() && msgQueue == old(msgQueue)[q := old(msgQueue[q])[1..]]
      ensures ok == (old(msgQueue[q][0].nodeId) in nodes)
    {
      hide Objects, EventsAgree, Accounted, Retries;
      var node := msgQueue[q][0].nodeId;
      PopFront(q);
      return node in nodes;
    }

    /** The command at the front becomes the current one. */
    method Activate(q: nat)
      requires QueueShape() && EventsAgree() && q < QUEUE_COUNT && msgQueue[q] != [] && msgQueue[q][0].Controller?
      modifies this`currentControllerCommand
      ensures EventsAgree() && currentControllerCommand == msgQueue[q][0].cci && q == CONTROLLER
    {
      currentControllerCommand := msgQueue[q][0].cci;
    }

    method FinishCommand(q: nat)
      requires QueueShape() && EventsAgree() && Objects() && q < QUEUE_COUNT && msgQueue[q] != []
               && msgQueue[q][0].Controller?
      modifies this`msgQueue, this`queueEvent, this`currentControllerCommand
      ensures QueueShape() && EventsAgree() && Objects()
      ensures currentControllerCommand == null && msgQueue == old(msgQueue)[q := old(msgQueue[q])[1..]]
    {
      hide EventsAgree, Objects;
      NoCommand();
      PopFront(q);
    }

    method NoCommand()
      requires QueueShape() && EventsAgree()
      modifies this`currentControllerCommand
      ensures EventsAgree() && currentControllerCommand == null
    {
      currentControllerCommand := null;
    }

    predicate HasItem(q: int)
      reads this`msgQueue
    {
      0 <= q < |msgQueue| && msgQueue[q] != []
    }

    /** The queues without the item at the front of one of them. */
    function WithoutFront(q: int): seq<seq<Item>>
      reads this`msgQueue
    {
      if HasItem(q) then msgQueue[q := msgQueue[q][1..]] else msgQueue
    }

    /** The message at the front of a queue, if there is one. */
    function FrontMsg(q: int): Msg?
      reads this`msgQueue
    {
      if 0 <= q < |msgQueue| && msgQueue[q] != [] && msgQueue[q][0].SendMsg? then msgQueue[q][0].msg else null
    }

    /** The controller command at the front of a queue, if there is one. */
    function FrontCommand(q: int): ControllerCommandItem?
      reads this`msgQueue
    {
      if 0 <= q < |msgQueue| && msgQueue[q] != [] && msgQueue[q][0].Controller? then msgQueue[q][0].cci else null
    }

    /** What becomes of the controller command at the front of its queue. One that is
        done leaves; a new one starts with `request`, or waits with its node for it to
        wake up, or fails; a change is reported once; else there is nothing to do. */
    twostate predicate CommandServed(q: int, request: Msg?)
      requires old(FrontCommand(q)) != null
      reads this`msgQueue, this`queueEvent, this`pending, this`log, this`currentControllerCommand, this`commands
      reads this`nodes, this`awake, this`msgs, msgs`final, msgs`length, set m | m in msgs :: m.buffer
      reads currentControllerCommand
    {
      var c := old(FrontCommand(q));
      if old(c.done) then
        && currentControllerCommand == null && msgQueue == old(msgQueue)[q := old(msgQueue[q])[1..]]
        && pending == old(pending) && log == old(log)
      else
        && currentControllerCommand == c
        && (if old(c.state) == Normal && request != null then
              CommandStarted(request)
            else
              && msgQueue == old(msgQueue) && pending == old(pending) && log == old(log)
              && (if old(c.state) == Normal then
                    currentControllerCommand.state == ErrorState && currentControllerCommand.done
                    && |queueEvent| == QUEUE_COUNT && queueEvent[CONTROLLER]
                  else
                    && currentControllerCommand.state == old(c.state) && !currentControllerCommand.done
                    && currentControllerCommand.stateChanged == (old(c.stateChanged) && c.callback == 0)
                    && queueEvent == (if old(c.stateChanged) || |old(queueEvent)| != QUEUE_COUNT then old(queueEvent)
                                      else old(queueEvent)[CONTROLLER := false])))
    }

    /** The message that starts the current command is queued, or the command is kept for its sleeping target. */
    twostate predicate CommandStarted(request: Msg)
      requires currentControllerCommand != null
      reads this`msgQueue, this`queueEvent, this`pending, this`log, this`currentControllerCommand, this`commands
      reads this`nodes, this`awake, this`msgs, msgs`final, msgs`length, set m | m in msgs :: m.buffer
      reads currentControllerCommand
    {
      if Sleeps(request.targetNodeId) then
        && currentControllerCommand.state == Sleeping && currentControllerCommand.done && msgQueue == old(msgQueue)
        && exists c | c in commands - old(commands) ::
             && SameCommand(currentControllerCommand, c)
             && PendsNext(old(pending), old(log), request.targetNodeId, Controller(c))
      else
        && currentControllerCommand.state == Starting && pending == old(pending) && log == old(log)
        && |old(msgQueue)| == |queueEvent| == QUEUE_COUNT && queueEvent[COMMAND]
        && msgQueue == old(msgQueue)[COMMAND := old(msgQueue[COMMAND]) + [Item.SendMsg(request)]]
    }

    method StartCommand(q: nat, request: Msg?)
      requires Valid() && q < QUEUE_COUNT && !Awaiting()
      requires msgQueue[q] != [] && msgQueue[q][0].Controller? && msgQueue[q][0].cci.state == Normal
      requires !msgQueue[q][0].cci.done && (request != null ==> Sendable(request))
      modifies this`commands
      modifies this`pending, this`log, this`msgs, this`msgQueue, this`queueEvent, this`currentControllerCommand
      modifies ids, msgQueue[q][0].cci, request, if request == null then {} else {request.buffer}
      ensures Valid() && CommandServed(q, request) && AllExtend(old(log), log)
      ensures old(msgs) <= msgs <= old(msgs) + (if request == null then {} else {request})
      ensures fresh(commands - old(commands)) && old(commands) <= commands
    {
      hide Objects, EventsAgree, Accounted, Retries, Sendable, AllExtend, PendsNext;
      SelfExtends(log);
      Activate(q);
      if request != null { StartWith(request); } else { FailToStart(); }
    }

    method StartWith(request: Msg)
      requires Valid() && currentMsg == null && Sendable(request)
      requires currentControllerCommand != null && currentControllerCommand.state == Normal
      modifies this`commands
      modifies this`pending, this`log, this`msgs, this`msgQueue, this`queueEvent
      modifies ids, currentControllerCommand, request, request.buffer
      ensures Valid() && CommandStarted(request) && AllExtend(old(log), log)
      ensures old(msgs) <= msgs <= old(msgs) + {request}
      ensures fresh(commands - old(commands)) && old(commands) <= commands
    {
      hide Objects, EventsAgree, Accounted, Retries, Sendable, AllExtend, PendsNext;
      UpdateControllerState(Starting);
      SendMsg(request, COMMAND);
    }

    method FailToStart()
      requires QueueShape() && EventsAgree()
      requires currentControllerCommand != null && currentControllerCommand.state == Normal
      modifies this`queueEvent, currentControllerCommand
      ensures QueueShape() && EventsAgree() && queueEvent[CONTROLLER]
      ensures currentControllerCommand.state == ErrorState && currentControllerCommand.done
    {
      hide EventsAgree;
      UpdateControllerState(Starting);
      UpdateControllerState(ErrorState);
    }

    method NothingToDo(q: nat)
      requires QueueShape() && EventsAgree() && q == CONTROLLER
      modifies this`queueEvent
      ensures QueueShape() && EventsAgree() && queueEvent == old(queueEvent)[q := false]
    {
      queueEvent := queueEvent[q := false];
    }

    /** `WriteNextMsg` for a controller command. `request` is the message that
        `DoControllerCommand` sends to start it, or null if it cannot be started. */
    method NextCommand(q: nat, request: Msg?)
      requires Valid() && q < QUEUE_COUNT && !Awaiting() && msgQueue[q] != [] && msgQueue[q][0].Controller?
      requires request != null ==> Sendable(request)
      modifies this`commands
      modifies this`pending, this`log, this`msgs, this`msgQueue, this`queueEvent, this`currentControllerCommand
      modifies ids, msgQueue[q][0].cci, request, if request == null then {} else {request.buffer}
      ensures Valid() && CommandServed(q, request) && AllExtend(old(log), log)
      ensures old(msgs) <= msgs <= old(msgs) + (if request == null then {} else {request})
      ensures fresh(commands - old(commands)) && old(commands) <= commands
    {
      hide Objects, EventsAgree, Accounted, Retries, Sendable, AllExtend, CommandStarted;
      SelfExtends(log);
      var cci := msgQueue[q][0].cci;
      if cci.done {
        FinishCommand(q);
      } else if cci.state == Normal {
        StartCommand(q, request);
      } else {
        Activate(q);
        if cci.stateChanged {
          if cci.callback != 0 { cci.stateChanged := false; }
        } else {
          NothingToDo(q);
        }
      }
    }

    /** The message was given up, or its frame is the last one written and its answers are awaited. */
    ghost predicate MsgServed(m: Msg, gaveUp: bool, sentBefore: seq<seq<bv8>>, frame: seq<bv8>, id: bv8)
      reads this`currentMsg, this`sent, this`waitingForAck, this`expectedReply, this`expectedCallbackId, this`writes
    {
      if gaveUp then currentMsg == null && sent == sentBefore
      else
        && currentMsg == m && waitingForAck && expectedReply == m.expectedReply && expectedCallbackId == id
        && writes == 1 && sent == sentBefore + [frame]
    }

    /** `WriteNextMsg`: the event of the queue promises that it is not empty. */
    method WriteNextMsg(q: nat, request: Msg?) returns (ok: bool)
      requires Valid() && q < QUEUE_COUNT && !Awaiting() && queueEvent[q]
      requires request != null ==> Sendable(request)
      modifies this`currentMsg, this`waitingForAck, this`expectedCallbackId, this`expectedReply
      modifies this`expectedCommandClassId, this`expectedNodeId, this`sent, this`dropped, this`queueEvent, this`msgQueue
      modifies this`dequeued, this`startAttempts, this`startMax, this`writes, this`cans
      modifies this`pending, this`log, this`msgs, this`commands, this`currentControllerCommand
      modifies ids, request, if request == null then {} else {request.buffer}, currentControllerCommand
      modifies Front(q)
      ensures Valid() && old(HasItem(q)) && old(msgQueue[q]) != []
      ensures AllExtend(old(log), log) && old(msgs) <= msgs <= old(msgs) + (if request == null then {} else {request})
      ensures fresh(commands - old(commands)) && old(commands) <= commands
      ensures old(FrontCommand(q)) != null ==> ok && CommandServed(q, request)
      ensures old(FrontCommand(q)) == null ==>
        && msgQueue == old(WithoutFront(q)) && pending == old(pending) && log == old(log)
        && msgs == old(msgs) && commands == old(commands) && currentControllerCommand == old(currentControllerCommand)
      ensures old(FrontMsg(q)) == null ==> currentMsg == null && dequeued == old(dequeued) && sent == old(sent)
      ensures old(FrontMsg(q)) != null ==>
        && old(FrontMsg(q)).payload == old(FrontMsg(q).payload)
        && dequeued == old(dequeued) + multiset{old(FrontMsg(q))} && ok == !old(GivesUp(FrontMsg(q)))
        && MsgServed(old(FrontMsg(q)), !ok, old(sent), old(Wire(FrontMsg(q))), old(NextId(FrontMsg(q))))
        && dropped == old(dropped) + if ok then multiset{} else multiset{old(FrontMsg(q))}
      ensures old(msgQueue[q][0]).QueryStageComplete? ==> ok == (old(msgQueue[q][0].nodeId) in nodes)
    {
      hide Objects, EventsAgree, Accounted, Retries, Sendable, AllExtend, CommandServed, Wire, NextId, GivesUp,
           MsgServed, Valid, Sound;
      ShapeOf();
      SelfExtends(log);
      EventMeansItem(q);
      var item := msgQueue[q][0];
      if item.SendMsg? {
        ok := NextMsg(q);
      } else if item.QueryStageComplete? {
        ok := NextStage(q);
        ShapeOf();
      } else {
        NextCommand(q, request);
        ok := true;
      }
    }

    lemma EventMeansItem(q: nat)
      requires Valid() && q < QUEUE_COUNT && queueEvent[q]
      ensures msgQueue[q] != []
    {
    }

    /** The objects that the item at the front of a queue refers to. */
    ghost function Front(q: nat): set<object>
      reads this`msgQueue
    {
      if q >= |msgQueue| || msgQueue[q] == [] then {}
      else match msgQueue[q][0]
        case SendMsg(m) => {m, m.buffer}
        case QueryStageComplete(_, _, _) => {}
        case Controller(c) => {c}
    }

    // ---- moving messages aside when a node does not answer ----

    /** An item of the target node goes to its wake-up queue, or is deleted. */
    method MoveItem(target: NodeId, item: Item)
      requires Objects() && (item.SendMsg? ==> item.msg in msgs && item.msg != currentMsg) && NodeOf(item) == target
      requires item.Controller? ==> item.cci in commands
      modifies this`pending, this`log, (if item.SendMsg? then {item.msg} else {})`sendAttempts
      ensures Objects()
      ensures PutAside(old(pending), old(log), pending, log, target,
                       if Disposable(item, Views(msgs)) then [] else [item], Views(msgs))
    {
      hide Objects, Without, IsCopy, Views, Noted, PutAside;
      NonePutAside(pending, log, target, Views(msgs));
      OnePutAside(pending, log, target, item, Views(msgs));
      if item.SendMsg? {
        var unwanted := Unwanted(item.msg);
        if unwanted { return; }
      }
      Pend(target, item);
    }

    /** The messages that are not worth keeping. */
    method Unwanted(m: Msg) returns (unwanted: bool)
      requires Objects() && m in msgs
      ensures unwanted == Disposable(Item.SendMsg(m), Views(msgs))
    {
      hide Owned;
      unwanted := m.IsWakeUpNoMoreInformationCommand() || m.IsNoOperation();
    }

    /** One queue: the items of other nodes stay, in order. */
    method MoveQueue(i: nat, target: NodeId)
      requires QueueShape() && EventsFit() && Objects() && i < QUEUE_COUNT
               && (currentMsg == null || currentMsg.targetNodeId != target)
      modifies this`msgQueue, this`queueEvent, this`pending, this`log, msgs`sendAttempts
      ensures QueueShape() && EventsFit() && Objects()
      ensures msgQueue == old(msgQueue)[i := Others(old(msgQueue[i]), target)]
      ensures queueEvent == if msgQueue[i] == [] then old(queueEvent)[i := false] else old(queueEvent)
      ensures PutAside(old(pending), old(log), pending, log, target,
                       Kept(old(msgQueue[i]), target, Views(msgs)), Views(msgs))
      ensures forall m | m in msgs && m.targetNodeId != target :: m.sendAttempts == old(m.sendAttempts)
    {
      hide Objects, EventsFit, Others, Kept, PutAside, Disposable, Views;
      QueueOwned(i);
      EmptyOthers(msgQueue[i], target);
      var rest := MoveItems(msgQueue[i], target);
      OthersMembers(msgQueue[i], target);
      SetQueue(i, rest);
    }

    method SetQueue(i: nat, list: seq<Item>)
      requires QueueShape() && EventsFit() && Objects() && i < QUEUE_COUNT
      requires (forall x | x in list :: x in msgQueue[i]) && (msgQueue[i] == [] ==> list == [])
      modifies this`msgQueue, this`queueEvent
      ensures QueueShape() && EventsFit() && Objects() && msgQueue == old(msgQueue)[i := list]
      ensures queueEvent == if list == [] then old(queueEvent)[i := false] else old(queueEvent)
    {
      hide MsgsFinished, Recorded;
      assert Owned(msgQueue[i]);
      msgQueue := msgQueue[i := list];
      if list == [] { queueEvent := queueEvent[i := false]; }
    }

    method MoveItems(list: seq<Item>, target: NodeId) returns (rest: seq<Item>)
      requires Objects() && Owned(list) && (currentMsg == null || currentMsg.targetNodeId != target)
      modifies this`pending, this`log, msgs`sendAttempts
      ensures Objects() && rest == Others(list, target)
      ensures PutAside(old(pending), old(log), pending, log, target, Kept(list, target, Views(msgs)), Views(msgs))
      ensures forall m | m in msgs && m.targetNodeId != target :: m.sendAttempts == old(m.sendAttempts)
    {
      hide Objects, Views, Disposable, PutAside;
      ghost var views, done, kept := Views(msgs), [], Kept(list, target, Views(msgs));
      NonePutAside(pending, log, target, views);
      var s := list;
      rest := [];
      while s != []
        invariant Objects() && Owned(s) && views == Views(msgs)
        invariant rest + Others(s, target) == Others(list, target)
        invariant PutAside(old(pending), old(log), pending, log, target, done, views)
        invariant done + Kept(s, target, views) == kept
        invariant forall m | m in msgs && m.targetNodeId != target :: m.sendAttempts == old(m.sendAttempts)
      {
        AppendOne(rest, s[0], Others(s[1..], target));
        if NodeOf(s[0]) == target {
          ghost var next := if Disposable(s[0], views) then [] else [s[0]];
          ghost var waiting, noted := pending, log;
          MoveItem(target, s[0]);
          BothPutAside(old(pending), old(log), waiting, noted, pending, log, target, done, next, views);
          KeptStep(done, s, target, views);
          done := done + next;
        } else {
          KeptStep(done, s, target, views);
          rest := rest + [s[0]];
        }
        s := s[1..];
      }
      assert done + [] == done;
    }

    /** All queues, one after another. */
    method MoveQueues(target: NodeId)
      requires QueueShape() && EventsFit() && Objects() && (currentMsg == null || currentMsg.targetNodeId != target)
      modifies this`msgQueue, this`queueEvent, this`pending, this`log, msgs`sendAttempts
      ensures QueueShape() && EventsFit() && Objects()
      ensures forall i | 0 <= i < QUEUE_COUNT :: msgQueue[i] == Others(old(msgQueue[i]), target)
      ensures PutAside(old(pending), old(log), pending, log, target,
                       KeptOfAll(old(msgQueue), target, Views(msgs)), Views(msgs))
      ensures forall m | m in msgs && m.targetNodeId != target :: m.sendAttempts == old(m.sendAttempts)
    {
      hide Objects, EventsFit, Views, Others, Kept, KeptOfAll, PutAside;
      ghost var views, done, kept := Views(msgs), [], KeptOfAll(msgQueue, target, Views(msgs));
      NonePutAside(pending, log, target, views);
      var i := 0;
      while i < QUEUE_COUNT
        invariant 0 <= i <= QUEUE_COUNT && QueueShape() && EventsFit() && Objects() && views == Views(msgs)
        invariant forall j | 0 <= j < i :: msgQueue[j] == Others(old(msgQueue[j]), target)
        invariant forall j | i <= j < QUEUE_COUNT :: msgQueue[j] == old(msgQueue[j])
        invariant PutAside(old(pending), old(log), pending, log, target, done, views)
        invariant done + KeptOfAll(old(msgQueue)[i..], target, views) == kept
        invariant forall m | m in msgs && m.targetNodeId != target :: m.sendAttempts == old(m.sendAttempts)
      {
        ghost var next, waiting, noted := Kept(msgQueue[i], target, views), pending, log;
        KeptOfAllStep(done, old(msgQueue), i, target, views);
        MoveQueue(i, target);
        BothPutAside(old(pending), old(log), waiting, noted, pending, log, target, done, next, views);
        done := done + next;
        i := i + 1;
      }
      KeptOfAllEnd(done, old(msgQueue)[i..], target, views);
    }

    /** The items that the current message contributes to the wake-up queue. */
    ghost function CurrentKept(target: NodeId): seq<Item>
      reads this`currentMsg, this`currentControllerCommand, this`msgs, msgs`final, msgs`length,
            set m | m in msgs :: m.buffer
    {
      if currentControllerCommand == null && currentMsg != null && currentMsg.targetNodeId == target
         && !Disposable(Item.SendMsg(currentMsg), Views(msgs))
      then [Item.SendMsg(currentMsg)] else []
    }

    /** The current message ends as a discarded one. */
    method Discard()
      requires Accounted()
      modifies this`currentMsg, this`waitingForAck, this`expectedCallbackId, this`expectedReply
      modifies this`expectedCommandClassId, this`expectedNodeId, this`discarded
      ensures Accounted() && Retries() && !Awaiting() && currentMsg == null
      ensures discarded == old(discarded) + if old(currentMsg) == null then multiset{} else multiset{old(currentMsg)}
    {
      hide Balanced;
      if currentMsg != null {
        BalancedEnd(dequeued, completed, dropped, moved, discarded, currentMsg);
        discarded := discarded + multiset{currentMsg};
      }
      RemoveCurrentMsg();
    }

    /** The current message leaves for a wake-up queue. */
    method SetAside()
      requires Accounted() && currentMsg != null
      modifies this`currentMsg, this`waitingForAck, this`expectedCallbackId, this`expectedReply
      modifies this`expectedCommandClassId, this`expectedNodeId, this`moved
      ensures Accounted() && Retries() && !Awaiting() && currentMsg == null
              && moved == old(moved) + multiset{old(currentMsg)}
    {
      hide Balanced;
      BalancedEnd(dequeued, completed, dropped, moved, discarded, currentMsg);
      moved := moved + multiset{currentMsg};
      RemoveCurrentMsg();
    }

    /** The current message of a sleeping target is moved or deleted; during a
        controller command any current message is deleted. */
    method MoveCurrent(target: NodeId)
      requires Valid()
      modifies this`currentMsg, this`waitingForAck, this`expectedCallbackId, this`expectedReply
      modifies this`expectedCommandClassId, this`expectedNodeId, this`moved, this`discarded, this`pending, this`log
      modifies (if currentMsg == null then {} else {currentMsg})`sendAttempts
      ensures Valid()
      ensures currentMsg == if old(Leaves(target)) then null else old(currentMsg)
      ensures currentMsg == null || currentMsg.targetNodeId != target
      ensures PutAside(old(pending), old(log), pending, log, target, old(CurrentKept(target)), Views(msgs))
      ensures Parted(old(CurrentKept(target)) != [], old(Leaves(target)), old(currentMsg), old(moved), old(discarded))
    {
      hide Objects, EventsAgree, Accounted, Retries, Views, Disposable, PutAside;
      NonePutAside(pending, log, target, Views(msgs));
      if currentControllerCommand != null { Discard(); }
      if currentMsg != null && target == currentMsg.targetNodeId { MoveTargeted(); }
    }

    method MoveTargeted()
      requires Valid() && currentMsg != null
      modifies this`currentMsg, this`waitingForAck, this`expectedCallbackId, this`expectedReply
      modifies this`expectedCommandClassId, this`expectedNodeId, this`moved, this`discarded, this`pending, this`log,
               currentMsg`sendAttempts
      ensures Valid() && currentMsg == null
      ensures
        var m, target := old(currentMsg), old(currentMsg.targetNodeId);
        && (if Disposable(Item.SendMsg(m), Views(msgs))
            then pending == old(pending) && log == old(log) && moved == old(moved)
                 && discarded == old(discarded) + multiset{m}
            else PutAside(old(pending), old(log), pending, log, target, [Item.SendMsg(m)], Views(msgs))
                 && moved == old(moved) + multiset{m} && discarded == old(discarded))
    {
      hide Objects, QueueShape, EventsAgree, Accounted, Retries, Views, Disposable, PutAside;
      var m := currentMsg;
      var unwanted := Unwanted(m);
      if unwanted { Discard(); } else { PendCurrent(); }
    }

    method PendCurrent()
      requires Objects() && Accounted() && currentMsg != null && currentMsg in msgs
      modifies this`currentMsg, this`waitingForAck, this`expectedCallbackId, this`expectedReply
      modifies this`expectedCommandClassId, this`expectedNodeId, this`moved, this`pending, this`log,
               currentMsg`sendAttempts
      ensures Objects() && Accounted() && Retries() && currentMsg == null && !Awaiting()
      ensures
        var m, target := old(currentMsg), old(currentMsg.targetNodeId);
        && moved == old(moved) + multiset{m}
        && PutAside(old(pending), old(log), pending, log, target, [Item.SendMsg(m)], Views(msgs))
    {
      hide Objects, Accounted, Retries, Views, Noted, Without, PutAside;
      OnePutAside(pending, log, currentMsg.targetNodeId, Item.SendMsg(currentMsg), Views(msgs));
      var m := currentMsg;
      SetAside();
      Pend(m.targetNodeId, Item.SendMsg(m));
    }

    /** There is a current message, and moving the target's messages aside ends it. */
    predicate Leaves(target: NodeId)
      reads this`currentMsg, this`currentControllerCommand
    {
      currentMsg != null && (currentControllerCommand != null || currentMsg.targetNodeId == target)
    }

    /** The command in progress goes back to its queue, so that it is cleaned up. */
    method KeepCommand()
      requires QueueShape() && EventsFit() && Objects() && currentControllerCommand != null
      modifies this`commands
      modifies this`msgQueue, this`queueEvent, this`currentControllerCommand, currentControllerCommand
      ensures QueueShape() && EventsAgree() && Objects() && currentControllerCommand != null
              && fresh(currentControllerCommand)
      ensures msgQueue
                == old(msgQueue)[CONTROLLER := old(msgQueue[CONTROLLER]) + [Controller(currentControllerCommand)]]
      ensures commands == old(commands) + {currentControllerCommand}
      ensures currentControllerCommand.state == Sleeping && queueEvent[CONTROLLER]
      ensures SameCommand(old(currentControllerCommand), currentControllerCommand)
      ensures currentControllerCommand.done
                == old(currentControllerCommand.done || currentControllerCommand.state != Sleeping)
    {
      hide Objects;
      UpdateControllerState(Sleeping);
      var c := new ControllerCommandItem.Copy(currentControllerCommand);
      Enlist(c);
      currentControllerCommand := c;
      PushBack(CONTROLLER, Controller(c));
    }

    /** The items of the target in every queue, with the controller command in
        progress, if there is one, behind the others. */
    ghost predicate QueuesWithout(before: seq<seq<Item>>, target: NodeId)
      reads this`msgQueue, this`currentControllerCommand
    {
      && |before| == |msgQueue| == QUEUE_COUNT
      && (forall i | 0 <= i < QUEUE_COUNT && i != CONTROLLER :: msgQueue[i] == Others(before[i], target))
      && msgQueue[CONTROLLER] == Others(before[CONTROLLER], target)
                                 + if currentControllerCommand == null then []
                                   else [Controller(currentControllerCommand)]
    }

    /** The message that was outstanding was moved or discarded, or is outstanding still. */
    ghost predicate Parted(kept: bool, leaves: bool, m: Msg?, movedBefore: multiset<Msg>,
                           discardedBefore: multiset<Msg>)
      reads this`moved, this`discarded
    {
      if m != null && kept then moved == movedBefore + multiset{m} && discarded == discardedBefore
      else
        && moved == movedBefore
        && discarded == discardedBefore + if m != null && leaves then multiset{m} else multiset{}
    }

    /** The command in progress, if there was one, goes on as its copy, which sleeps. */
    ghost predicate CommandKept(before: ControllerCommandItem?, commandsBefore: set<ControllerCommandItem>)
      reads this`currentControllerCommand, this`commands, this`queueEvent, currentControllerCommand
    {
      && (currentControllerCommand == null) == (before == null)
      && commands == commandsBefore + (if currentControllerCommand == null then {} else {currentControllerCommand})
      && (currentControllerCommand != null ==>
            && SameCommand(before, currentControllerCommand) && currentControllerCommand.state == Sleeping
            && |queueEvent| == QUEUE_COUNT && queueEvent[CONTROLLER])
    }

    /** Everything for the target moves to its wake-up queue: first the current
        message, then the queues, each in order. */
    method MoveAll(target: NodeId)
      requires Valid()
      modifies this`commands
      modifies this`currentMsg, this`waitingForAck, this`expectedCallbackId, this`expectedReply
      modifies this`expectedCommandClassId, this`expectedNodeId, this`moved, this`discarded
      modifies this`pending, this`log, this`msgQueue, this`queueEvent, this`currentControllerCommand
      modifies msgs`sendAttempts, currentControllerCommand
      ensures Valid() && QueuesWithout(old(msgQueue), target)
      ensures currentMsg == if old(Leaves(target)) then null else old(currentMsg)
      ensures PutAside(old(pending), old(log), pending, log, target,
                       old(CurrentKept(target)) + KeptOfAll(old(msgQueue), target, Views(msgs)), Views(msgs))
      ensures Parted(old(CurrentKept(target)) != [], old(Leaves(target)), old(currentMsg), old(moved), old(discarded))
      ensures CommandKept(old(currentControllerCommand), old(commands))
      ensures currentControllerCommand == null || fresh(currentControllerCommand)
    {
      hide Objects, EventsAgree, Accounted, Retries, Views, PutAside, CurrentKept, KeptOfAll, QueuesWithout, Parted,
           CommandKept;
      ghost var first, rest := CurrentKept(target), KeptOfAll(msgQueue, target, Views(msgs));
      MoveCurrent(target);
      ghost var waiting, noted := pending, log;
      MoveRest(target);
      BothPutAside(old(pending), old(log), waiting, noted, pending, log, target, first, rest, Views(msgs));
    }

    method MoveRest(target: NodeId)
      requires QueueShape() && EventsAgree() && Objects() && Retries() && (currentMsg == null || currentMsg in msgs)
      requires currentMsg == null || currentMsg.targetNodeId != target
      modifies this`commands
      modifies this`msgQueue, this`queueEvent, this`pending, this`log, this`currentControllerCommand
      modifies msgs`sendAttempts, currentControllerCommand
      ensures QueueShape() && EventsAgree() && Objects() && Retries() && QueuesWithout(old(msgQueue), target)
      ensures PutAside(old(pending), old(log), pending, log, target,
                       KeptOfAll(old(msgQueue), target, Views(msgs)), Views(msgs))
      ensures CommandKept(old(currentControllerCommand), old(commands))
      ensures currentControllerCommand == null || fresh(currentControllerCommand)
    {
      hide Objects, EventsFit, Views, PutAside, Others, KeptOfAll;
      MoveQueues(target);
      if currentControllerCommand != null { KeepCommand(); }
    }

    /** The node is one that goes to sleep. */
    predicate GoesToSleep(node: NodeId)
      reads this`nodes
    {
      node in nodes && !nodes[node].listening && !nodes[node].frequentListening && node != controllerNodeId
      && nodes[node].hasWakeUp
    }

    /** What moves for a sleeping node: the current message and then the queues. */
    ghost function MovedItems(target: NodeId): seq<Item>
      reads this`currentMsg, this`currentControllerCommand, this`msgQueue, this`msgs, msgs`final, msgs`length
      reads set m | m in msgs :: m.buffer
    {
      CurrentKept(target) + KeptOfAll(msgQueue, target, Views(msgs))
    }

    /** Whatever is queued about the target moves, unless it is disposable. */
    lemma MovedIsWhole(target: NodeId, q: nat, x: Item)
      requires q < |msgQueue| && x in msgQueue[q] && NodeOf(x) == target && !Disposable(x, Views(msgs))
      ensures x in MovedItems(target)
    {
      hide Disposable, Views, KeptOfAll;
      KeptOfAllMembers(msgQueue, target, Views(msgs), q, x);
    }

    /** When a node's items move, `QueueMsg` deletes what gives way to a later copy. The
        command in progress, of which the driver then makes a copy, is deleted exactly
        if an equal command about the node is queued behind it. */
    lemma CommandDeletedIff(target: NodeId, k: nat)
      requires Valid() && k < |MovedItems(target)|
      requires currentControllerCommand != null && MovedItems(target)[k] == Controller(currentControllerCommand)
      ensures
        var items, c := MovedItems(target), currentControllerCommand;
        var after := NotedAll(LogOf(target), items, Views(msgs));
        && |after| == |LogOf(target)| + |items|
        && (after[|LogOf(target)| + k].fate.Replaced? <==>
              exists j | k < j < |items| ::
                items[j].Controller? && items[j].cci.command == c.command && items[j].cci.callback == c.callback)
    {
      hide Valid, MovedItems, NotedAll, Chained, Views;
      LogsMatch();
      var items := MovedItems(target);
      assert At(pending, target) == WaitingIn(At(log, target)) && Chained(At(log, target));
      GivesWayIff(LogOf(target), items, Views(msgs), k);
      NotedAllExtends(LogOf(target), items, Views(msgs));
    }

    method MoveMessagesToWakeUpQueue(target: NodeId, move: bool) returns (ok: bool)
      requires Valid()
      modifies this`commands
      modifies this`currentMsg, this`waitingForAck, this`expectedCallbackId, this`expectedReply
      modifies this`expectedCommandClassId, this`expectedNodeId, this`moved, this`discarded, this`awake
      modifies this`pending, this`log, this`msgQueue, this`queueEvent, this`currentControllerCommand
      modifies msgs`sendAttempts, currentControllerCommand
      ensures Valid() && ok == (move && GoesToSleep(target))
      ensures awake == if GoesToSleep(target) then old(awake) - {target} else old(awake)
      ensures !ok ==>
        && currentMsg == old(currentMsg) && pending == old(pending) && msgQueue == old(msgQueue)
        && queueEvent == old(queueEvent)
        && moved == old(moved) && discarded == old(discarded) && log == old(log)
        && commands == old(commands) && currentControllerCommand == old(currentControllerCommand)
      ensures AllExtend(old(log), log)
      ensures ok ==>
        && QueuesWithout(old(msgQueue), target)
        && CommandKept(old(currentControllerCommand), old(commands))
        && (currentControllerCommand == null || fresh(currentControllerCommand))
        && currentMsg == (if old(Leaves(target)) then null else old(currentMsg))
        && PendingOf(target) == QueueAll(old(PendingOf(target)), old(MovedItems(target)), Views(msgs))
        && PutAside(old(pending), old(log), pending, log, target, old(MovedItems(target)), Views(msgs))
        && Parted(old(CurrentKept(target)) != [], old(Leaves(target)), old(currentMsg), old(moved), old(discarded))
    {
      hide Objects, EventsAgree, Accounted, Retries, CurrentKept, QueuesWithout, QueueAll, KeptOfAll, Views, Valid,
           Sound, Parted, CommandKept;
      hide AllExtend, PutAside;
      SelfExtends(log);
      if GoesToSleep(target) {
        Doze(target);
        if move {
          LogsMatch();
          MoveAll(target);
          LogsMatch();
          AsideExtends(old(pending), old(log), pending, log, target, old(MovedItems(target)), Views(msgs));
          return true;
        }
      }
      return false;
    }

    lemma LogsMatch()
      requires Valid()
      ensures Recorded(pending, log)
    {
    }

    method Doze(node: NodeId)
      requires Valid()
      modifies this`awake
      ensures Valid() && awake == old(awake) - {node}
    {
      hide EventsAgree, Objects, Accounted, Retries;
      awake := awake - {node};
    }

    // ---- a cycle of sleeping and waking ----

    /** The item is queued for sending, by its kind. */
    ghost predicate Queued(x: Item)
      requires |msgQueue| == QUEUE_COUNT
      reads this`msgQueue
    {
      match x
      case SendMsg(_) => x in msgQueue[WAKEUP]
      case QueryStageComplete(_, _, _) => x.(retry := false) in msgQueue[QUERY]
      case Controller(c) => CommandIn(c, msgQueue[CONTROLLER])
    }

    static ghost predicate CommandIn(c: ControllerCommandItem, list: seq<Item>) {
      exists k | 0 <= k < |list| :: list[k].Controller? && SameCommand(c, list[k].cci)
    }

    lemma HandedIsQueued(queues: seq<seq<Item>>, list: seq<Item>, begun: seq<Item>, farewell: Msg?)
      requires |queues| == QUEUE_COUNT && BegunAnew(Commands(list), begun)
      requires
        var handed := Handed(queues, list, begun);
        msgQueue == if farewell == null then handed else handed[WAKEUP := handed[WAKEUP] + [Item.SendMsg(farewell)]]
      ensures forall x | x in list :: Queued(x)
      ensures forall i, x | 0 <= i < QUEUE_COUNT && x in queues[i] :: x in msgQueue[i]
    {
      hide Messages, Stages, Commands;
      forall x | x in list ensures Queued(x) {
        PartsMembers(list, x);
        if x.Controller? {
          var k :| 0 <= k < |begun| && Commands(list)[k] == x;
          assert msgQueue[CONTROLLER][|queues[CONTROLLER]| + k] == begun[k];
        }
      }
    }

    lemma ShapeOf()
      requires Valid()
      ensures |msgQueue| == |queueEvent| == QUEUE_COUNT && Sound() && (currentMsg != null <==> Awaiting())
    {
    }

    // ---- removing a node ----

    /** `RemoveQueues`: nothing for the node is left, but the controller command in progress. */
    method RemoveQueues(node: NodeId)
      requires Valid()
      modifies this`currentMsg, this`waitingForAck, this`expectedCallbackId, this`expectedReply
      modifies this`expectedCommandClassId, this`expectedNodeId, this`discarded, this`msgQueue, this`queueEvent
      ensures Valid()
      ensures forall i | 0 <= i < QUEUE_COUNT ::
                msgQueue[i] == Remaining(old(msgQueue[i]), node, currentControllerCommand)
      ensures if old(currentMsg != null && currentMsg.targetNodeId == node)
              then currentMsg == null && discarded == old(discarded) + multiset{old(currentMsg)}
              else currentMsg == old(currentMsg) && discarded == old(discarded)
    {
      hide Objects, EventsAgree, Accounted, Retries, Remaining;
      if currentMsg != null && currentMsg.targetNodeId == node { Discard(); }
      ClearQueues(node);
    }

    method ClearQueues(node: NodeId)
      requires QueueShape() && EventsAgree() && Objects()
      modifies this`msgQueue, this`queueEvent
      ensures QueueShape() && EventsAgree() && Objects()
      ensures forall i | 0 <= i < QUEUE_COUNT ::
                msgQueue[i] == Remaining(old(msgQueue[i]), node, currentControllerCommand)
    {
      hide Objects, Remaining, EventsFit, Removable;
      var i := 0;
      while i < QUEUE_COUNT
        invariant 0 <= i <= QUEUE_COUNT && QueueShape() && EventsFit() && Objects()
        invariant forall j | 0 <= j < i :: msgQueue[j] == Remaining(old(msgQueue[j]), node, currentControllerCommand)
        invariant forall j | i <= j < QUEUE_COUNT :: msgQueue[j] == old(msgQueue[j])
      {
        var rest := RemainingItems(msgQueue[i], node);
        SetQueue(i, rest);
        i := i + 1;
      }
      CommandSpared(old(msgQueue)[CONTROLLER], node);
    }

    lemma CommandSpared(s: seq<Item>, node: NodeId)
      ensures currentControllerCommand != null && Controller(currentControllerCommand) in s ==>
                Controller(currentControllerCommand) in Remaining(s, node, currentControllerCommand)
    {
      RemainingMembers(s, node, currentControllerCommand);
    }

    method RemainingItems(list: seq<Item>, node: NodeId) returns (rest: seq<Item>)
      ensures rest == Remaining(list, node, currentControllerCommand)
      ensures (forall x | x in rest :: x in list) && (list == [] ==> rest == [])
    {
      hide Removable;
      var s := list;
      rest := [];
      while s != []
        invariant rest + Remaining(s, node, currentControllerCommand) == Remaining(list, node, currentControllerCommand)
      {
        AppendOne(rest, s[0], Remaining(s[1..], node, currentControllerCommand));
        if !Removable(s[0], node, currentControllerCommand) { rest := rest + [s[0]]; }
        s := s[1..];
      }
      RemainingMembers(list, node, currentControllerCommand);
    }

    // ---- receiving ----

    /** The current message, if there is one, has been answered. */
    method Complete()
      requires Accounted()
      modifies this`currentMsg, this`waitingForAck, this`expectedCallbackId, this`expectedReply
      modifies this`expectedCommandClassId, this`expectedNodeId, this`completed
      ensures Accounted() && Retries() && !Awaiting() && currentMsg == null
      ensures completed == old(completed) + if old(currentMsg) == null then multiset{} else multiset{old(currentMsg)}
    {
      hide Balanced;
      if currentMsg != null {
        BalancedEnd(dequeued, completed, dropped, moved, discarded, currentMsg);
        completed := completed + multiset{currentMsg};
      }
      RemoveCurrentMsg();
    }

    /** The read buffer is zero behind the frame. */
    static function DataAt(data: seq<bv8>, i: nat): bv8 { if i < |data| then data[i] else 0 }

    static function NodeAt(data: seq<bv8>, i: nat): NodeId { DataAt(data, i) as int }

    /** `IsExpectedReply`: the reply comes from the expected node, or does not say where it comes from. */
    predicate IsExpectedReply(node: NodeId)
      reads this`expectedNodeId, this`expectedReply
    {
      expectedNodeId == 255 || node == 0 || Anonymous(expectedReply) || expectedNodeId == node
    }

    /** What stands for a callback id is that of a nonce request or report. */
    static predicate Nonce(data: seq<bv8>) { DataAt(data, 2) == 0x02 || DataAt(data, 2) == 0x01 }

    /** The data carries the awaited callback id, if one is awaited. */
    predicate AnswersCallback(data: seq<bv8>)
      reads this`expectedCallbackId
    {
      expectedCallbackId == 0 || expectedCallbackId == DataAt(data, 2)
    }

    /** A reply from a node must be of the awaited command class, any other from the awaited node. */
    predicate AnswersReply(data: seq<bv8>)
      reads this`expectedNodeId, this`expectedReply, this`expectedCommandClassId
    {
      && expectedReply == DataAt(data, 1)
      && (if expectedCommandClassId != 0 && expectedReply == FUNC_ID_APPLICATION_COMMAND_HANDLER
          then expectedCommandClassId == DataAt(data, 5) && expectedNodeId == NodeAt(data, 3)
          else IsExpectedReply(NodeAt(data, 3)))
    }

    /** The data answers everything that is awaited. */
    predicate Fulfils(data: seq<bv8>)
      reads this`expectedCallbackId, this`expectedNodeId, this`expectedReply, this`expectedCommandClassId
    {
      && (expectedCallbackId != 0 || expectedReply != 0)
      && AnswersCallback(data) && (expectedReply == 0 || AnswersReply(data))
    }

    /** The input is an intact frame that answers everything that is awaited. */
    predicate Completes(input: Input)
      reads this`expectedCallbackId, this`expectedNodeId, this`expectedReply, this`expectedCommandClassId
    {
      input.Incoming? && |input.bytes| >= 2 && Accepts(input.bytes) && input.handleCallback && Fulfils(input.bytes[2..])
    }

    /** The generic part of `ProcessMsg`: the transaction completes exactly when
        all that is awaited has been answered. */
    method HandleCallback(data: seq<bv8>)
      requires Sound()
      modifies this`currentMsg, this`waitingForAck, this`expectedCallbackId, this`expectedReply
      modifies this`expectedCommandClassId, this`expectedNodeId, this`completed
      ensures Sound() && (old(Valid()) ==> Valid())
      ensures old(Fulfils(data)) ==>
        && currentMsg == null && !Awaiting()
        && completed == old(completed) + if old(currentMsg) == null then multiset{} else multiset{old(currentMsg)}
      ensures !old(Fulfils(data)) ==> currentMsg == old(currentMsg) && completed == old(completed)
      ensures !old(Fulfils(data)) ==>
        expectedCallbackId == if old(AnswersCallback(data)) then 0 else old(expectedCallbackId)
      ensures !old(Fulfils(data)) ==> waitingForAck == old(waitingForAck)
      ensures !old(Fulfils(data)) ==>
        expectedReply ==
        if old(AnswersReply(data) && !FromNode() && (AnswersCallback(data) || !Nonce(data))) then 0
        else old(expectedReply)
    {
      hide Objects, EventsAgree, Accounted, Retries, QueueShape, AnswersReply, FromNode, Nonce, DataAt;
      ReplyMatches(data);
      if expectedCallbackId == 0 && expectedReply == 0 { return; }
      if expectedCallbackId != 0 {
        if expectedCallbackId == DataAt(data, 2) {
          expectedCallbackId := 0;
        } else if Nonce(data) {
          return;
        }
      }
      if expectedReply != 0 && expectedReply == DataAt(data, 1) { HandleReply(data); }
      if expectedCallbackId == 0 && expectedReply == 0 { Complete(); }
    }

    lemma ReplyMatches(data: seq<bv8>)
      ensures AnswersReply(data) ==> expectedReply == DataAt(data, 1)
    {
    }

    /** The function of the data is the awaited one. */
    method HandleReply(data: seq<bv8>)
      requires expectedReply == DataAt(data, 1)
      modifies this`waitingForAck, this`expectedReply, this`expectedCommandClassId, this`expectedNodeId
      ensures expectedReply ==
              if old(AnswersReply(data)) && (old(expectedCallbackId == 0 || !FromNode())) then 0 else old(expectedReply)
      ensures expectedReply != 0 ==>
        && waitingForAck == old(waitingForAck) && expectedCommandClassId == old(expectedCommandClassId)
        && expectedNodeId == old(expectedNodeId)
      ensures waitingForAck ==> old(waitingForAck)
      ensures !old(FromNode()) ==> waitingForAck == old(waitingForAck)
    {
      if expectedCommandClassId != 0 && expectedReply == FUNC_ID_APPLICATION_COMMAND_HANDLER {
        if expectedCallbackId == 0 && expectedCommandClassId == DataAt(data, 5) && expectedNodeId == NodeAt(data, 3) {
          waitingForAck := false;
          expectedReply := 0;
          expectedCommandClassId := 0;
          expectedNodeId := 0;
        }
      } else if IsExpectedReply(NodeAt(data, 3)) {
        expectedReply := 0;
        expectedNodeId := 0;
      }
    }

    /** The awaited reply is a report of some command class. */
    predicate FromNode()
      reads this`expectedReply, this`expectedCommandClassId
    {
      expectedCommandClassId != 0 && expectedReply == FUNC_ID_APPLICATION_COMMAND_HANDLER
    }

    /** The checksum loop of `ReadMsg`. */
    static method ChecksumOf(bytes: seq<bv8>) returns (checksum: bv8)
      requires |bytes| >= 2
      ensures checksum == Xor(bytes[1..|bytes| - 1])
    {
      checksum := 0xff;
      var i := 1;
      while i < |bytes| - 1
        invariant 1 <= i <= |bytes| - 1 && checksum == Xor(bytes[1..i])
      {
        assert bytes[1..i + 1][..i - 1] == bytes[1..i];
        checksum := checksum ^ bytes[i];
        i := i + 1;
      }
    }

    /** A frame is acknowledged, and its content handled, exactly if it is intact. */
    method ReadFrame(bytes: seq<bv8>, handleCallback: bool)
      requires Valid() && WellFormed(Incoming(bytes, handleCallback))
      modifies this`currentMsg, this`waitingForAck, this`expectedCallbackId, this`expectedReply
      modifies this`expectedCommandClassId, this`expectedNodeId, this`completed, this`sent
      ensures Valid()
      ensures sent == old(sent) + [[if Accepts(bytes) then ACK else NAK]]
      ensures Accepts(bytes) && handleCallback && old(Fulfils(bytes[2..])) ==>
        currentMsg == null && completed == old(completed) + multiset{old(currentMsg)}
      ensures !(Accepts(bytes) && handleCallback && old(Fulfils(bytes[2..]))) ==>
        currentMsg == old(currentMsg) && completed == old(completed)
    {
      hide Objects, EventsAgree, Accounted, Retries, Xor, AnswersCallback, AnswersReply;
      var checksum := ChecksumOf(bytes);
      if bytes[|bytes| - 1] == checksum {
        ShortFrameFails(bytes);
        Reply(ACK);
        if handleCallback { HandleCallback(bytes[2..]); }
      } else {
        Reply(NAK);
      }
    }

    /** A frame without content cannot have a fitting checksum. */
    static lemma ShortFrameFails(bytes: seq<bv8>)
      requires |bytes| >= 2 && |bytes| == bytes[1] as int + 2 && bytes[|bytes| - 1] == Xor(bytes[1..|bytes| - 1])
      ensures Accepts(bytes)
    {
      if |bytes| == 2 {
        assert false;
      }
    }

    method Reply(b: bv8)
      modifies this`sent
      ensures sent == old(sent) + [[b]]
    {
      sent := sent + [[b]];
    }

    /** `CAN`: the message may be sent once more, but not without end. */
    method HandleCan()
      requires Valid()
      modifies this`currentMsg, this`waitingForAck, this`expectedCallbackId, this`expectedReply
      modifies this`expectedCommandClassId, this`expectedNodeId, this`writes, this`cans, this`sent, this`dropped,
               this`queueEvent
      modifies ids, (if currentMsg == null then {} else {currentMsg})`callbackId,
               (if currentMsg == null then {} else {currentMsg})`sendAttempts,
               (if currentMsg == null then {} else {currentMsg})`maxSendAttempts
      modifies if currentMsg == null then {} else {currentMsg.buffer}, currentControllerCommand
      ensures Valid()
      ensures currentMsg == null || currentMsg == old(currentMsg)
      ensures Rewritten(old(currentMsg), old(writes), old(dropped), old(sent), old(Wire(currentMsg)))
      ensures old(currentMsg) != null ==> cans == old(cans) + 1
      ensures currentMsg != null ==>
        && writes == old(writes) + 1 && dropped == old(dropped)
        && currentMsg.maxSendAttempts == Raised(old(currentMsg.maxSendAttempts))
      ensures currentMsg == null && old(currentMsg) != null ==> dropped == old(dropped) + multiset{old(currentMsg)}
      ensures old(currentMsg) == null ==> dropped == old(dropped)
    {
      hide EventsAgree, QueueShape, Objects, Accounted, GivesUp;
      if currentMsg != null {
        AllowOneMore();
      }
      var ok := WriteMsg();
    }

    method AllowOneMore()
      requires Objects() && Retries() && currentMsg != null && currentMsg in msgs
      modifies currentMsg`maxSendAttempts, this`cans
      ensures Objects() && Retries() && cans == old(cans) + 1
      ensures currentMsg.maxSendAttempts == Raised(old(currentMsg.maxSendAttempts))
    {
      hide Owned, Msg.Valid;
      currentMsg.SetMaxSendAttempts(currentMsg.maxSendAttempts + 1);
      cans := cans + 1;
    }

    /** `ACK`: completes a message for which nothing else is awaited. */
    method HandleAck()
      requires Valid()
      modifies this`currentMsg, this`waitingForAck, this`expectedCallbackId, this`expectedReply
      modifies this`expectedCommandClassId, this`expectedNodeId, this`completed
      ensures Valid() && !waitingForAck
      ensures if old(currentMsg != null && expectedCallbackId == 0 && expectedReply == 0)
              then currentMsg == null && completed == old(completed) + multiset{old(currentMsg)}
              else currentMsg == old(currentMsg) && completed == old(completed)
                   && expectedCallbackId == old(expectedCallbackId) && expectedReply == old(expectedReply)
    {
      hide Objects, EventsAgree, Accounted, Retries;
      waitingForAck := false;
      if currentMsg != null && expectedCallbackId == 0 && expectedReply == 0 { Complete(); }
    }

    method ReadMsg(input: Input) returns (ok: bool)
      requires Valid() && WellFormed(input)
      modifies this`currentMsg, this`waitingForAck, this`expectedCallbackId, this`expectedReply
      modifies this`expectedCommandClassId, this`expectedNodeId, this`completed, this`sent
      modifies this`writes, this`cans, this`dropped, this`queueEvent
      modifies ids, (if currentMsg == null then {} else {currentMsg})`callbackId,
               (if currentMsg == null then {} else {currentMsg})`sendAttempts,
               (if currentMsg == null then {} else {currentMsg})`maxSendAttempts
      modifies if currentMsg == null then {} else {currentMsg.buffer}, currentControllerCommand
      ensures Valid() && ok == !input.Nothing?
      ensures currentMsg == null || currentMsg == old(currentMsg)
      ensures Ended(old(currentMsg), old(completed), old(dropped))
      ensures input.Byte? && input.b !in {ACK, NAK, CAN} ==>
                sent == old(sent) + [[NAK]] && currentMsg == old(currentMsg)
      ensures input.Aborted? || input.Nothing? ==> sent == old(sent) && currentMsg == old(currentMsg)
      ensures input.Incoming? ==>
        && sent == old(sent) + [[if Accepts(input.bytes) then ACK else NAK]] && dropped == old(dropped)
        && (currentMsg == null <==> old(currentMsg == null || Completes(input)))
      ensures input == Byte(CAN) && old(currentMsg) != null ==> cans == old(cans) + 1
      ensures input == Byte(CAN) || input == Byte(NAK) ==>
                Rewritten(old(currentMsg), old(writes), old(dropped), old(sent), old(Wire(currentMsg)))
      ensures input == Byte(ACK) ==>
        && !waitingForAck && dropped == old(dropped)
        && (currentMsg == null <==> old(currentMsg == null || (expectedCallbackId == 0 && expectedReply == 0)))
        && (currentMsg != null ==> expectedCallbackId == old(expectedCallbackId) && expectedReply == old(expectedReply))
    {
      hide EventsAgree, Objects, Accounted, Retries, QueueShape, Accepts, Xor, Fulfils;
      match input {
        case Nothing =>
          return false;
        case Aborted =>
        case Incoming(bytes, handleCallback) =>
          ReadFrame(bytes, handleCallback);
        case Byte(b) =>
          if b == CAN {
            HandleCan();
          } else if b == NAK {
            var written := WriteMsg();
          } else if b == ACK {
            HandleAck();
          } else {
            Reply(NAK);
          }
      }
      return true;
    }

    /** The message, if there was one, was written once more, or else dropped. */
    ghost predicate Rewritten(m: Msg?, writesBefore: nat, droppedBefore: multiset<Msg>, sentBefore: seq<seq<bv8>>,
                              frame: seq<bv8>)
      reads this`currentMsg, this`writes, this`dropped, this`sent
    {
      if m == null then currentMsg == null && dropped == droppedBefore && sent == sentBefore
      else if currentMsg == m then
        writes == writesBefore + 1 && dropped == droppedBefore && sent == sentBefore + [frame]
      else currentMsg == null && dropped == droppedBefore + multiset{m} && sent == sentBefore
    }

    /** If the message ended, it is newly completed or newly dropped, and not both;
        if it is still outstanding or there was none, neither changed. */
    ghost predicate Ended(m: Msg?, completedBefore: multiset<Msg>, droppedBefore: multiset<Msg>)
      reads this`currentMsg, this`completed, this`dropped
    {
      if m == null || currentMsg == m then completed == completedBefore && dropped == droppedBefore
      else
        || (completed == completedBefore + multiset{m} && dropped == droppedBefore)
        || (completed == completedBefore && dropped == droppedBefore + multiset{m})
    }

    lemma NotEnded()
      ensures Ended(currentMsg, completed, dropped)
    {
    }

    // ---- the driver thread ----

    /** A timeout: the message, if there is one, is written once more, or dropped. */
    method WriteAgain()
      requires Valid()
      modifies this`currentMsg, this`waitingForAck, this`expectedCallbackId, this`expectedReply
      modifies this`expectedCommandClassId, this`expectedNodeId, this`writes, this`sent, this`dropped, this`queueEvent
      modifies ids, (if currentMsg == null then {} else {currentMsg})`callbackId,
               (if currentMsg == null then {} else {currentMsg})`sendAttempts,
               (if currentMsg == null then {} else {currentMsg})`maxSendAttempts
      modifies if currentMsg == null then {} else {currentMsg.buffer}, currentControllerCommand
      ensures Valid() && (currentMsg == null || currentMsg == old(currentMsg))
      ensures Rewritten(old(currentMsg), old(writes), old(dropped), old(sent), old(Wire(currentMsg)))
      ensures Ended(old(currentMsg), old(completed), old(dropped))
    {
      hide EventsAgree, Objects, Accounted, Retries;
      var written := WriteMsg();
    }

    /** How many of its eleven objects the thread waits for: while something is
        awaited, none of the queue events. */
    function WaitCount(): nat
      reads this`waitingForAck, this`expectedCallbackId, this`expectedReply, this`currentControllerCommand
    {
      if Awaiting() then 3 else if currentControllerCommand != null then 7 else 11
    }

    /** The turns that serve no queue. */
    method Listen(res: int, input: Input)
      requires Valid() && -1 <= res < 3 && WellFormed(input)
      modifies this`currentMsg, this`waitingForAck, this`expectedCallbackId, this`expectedReply
      modifies this`expectedCommandClassId, this`expectedNodeId, this`sent, this`dropped, this`completed
      modifies this`writes, this`cans, this`queueEvent
      modifies ids, (if currentMsg == null then {} else {currentMsg})`callbackId,
               (if currentMsg == null then {} else {currentMsg})`sendAttempts,
               (if currentMsg == null then {} else {currentMsg})`maxSendAttempts
      modifies if currentMsg == null then {} else {currentMsg.buffer}, currentControllerCommand
      ensures Valid() && (currentMsg == null || currentMsg == old(currentMsg))
      ensures Ended(old(currentMsg), old(completed), old(dropped))
      ensures res == -1 ==> Rewritten(old(currentMsg), old(writes), old(dropped), old(sent), old(Wire(currentMsg)))
      ensures 0 <= res < 2 ==> currentMsg == old(currentMsg) && sent == old(sent)
      ensures res == 2 && input.Incoming? ==>
        && sent == old(sent) + [[if Accepts(input.bytes) then ACK else NAK]] && dropped == old(dropped)
        && (currentMsg == null <==> old(currentMsg == null || Completes(input)))
      ensures res == 2 && input in {Byte(CAN), Byte(NAK)} ==>
                Rewritten(old(currentMsg), old(writes), old(dropped), old(sent), old(Wire(currentMsg)))
      ensures res == 2 && input == Byte(ACK) ==>
        && !waitingForAck && dropped == old(dropped)
        && (currentMsg == null <==> old(currentMsg == null || (expectedCallbackId == 0 && expectedReply == 0)))
        && (currentMsg != null ==> expectedCallbackId == old(expectedCallbackId) && expectedReply == old(expectedReply))
    {
      hide Valid, Ended, Rewritten, Wire, Accepts, Xor, Completes;
      NotEnded();
      if res == -1 {
        WriteAgain();
      } else if res == 2 {
        var read := ReadMsg(input);
      }
    }

    /** One turn of the thread. `res` is what the wait returns: -1 for a timeout, which
        is infinite unless something is awaited, or the number of a signalled object. */
    method Turn(res: int, input: Input, request: Msg?)
      requires Valid() && -1 <= res < WaitCount()
      requires res == -1 ==> Awaiting()
      requires res >= 3 ==> queueEvent[res - 3]
      requires WellFormed(input) && (request != null ==> Sendable(request))
      modifies this`currentMsg, this`waitingForAck, this`expectedCallbackId, this`expectedReply
      modifies this`expectedCommandClassId, this`expectedNodeId, this`sent, this`dropped, this`completed
      modifies this`dequeued, this`startAttempts, this`startMax, this`writes, this`cans, this`queueEvent, this`msgQueue
      modifies this`pending, this`log, this`msgs, this`commands, this`currentControllerCommand
      modifies ids, (if currentMsg == null then {} else {currentMsg})`callbackId,
               (if currentMsg == null then {} else {currentMsg})`sendAttempts,
               (if currentMsg == null then {} else {currentMsg})`maxSendAttempts
      modifies if currentMsg == null then {} else {currentMsg.buffer}
      modifies request, if request == null then {} else {request.buffer}, currentControllerCommand
      modifies if res >= 3 then Front(res - 3) else {}
      ensures Valid()
      ensures AllExtend(old(log), log) && old(msgs) <= msgs <= old(msgs) + (if request == null then {} else {request})
      ensures fresh(commands - old(commands)) && old(commands) <= commands
      ensures old(currentMsg) != null ==>
        && (currentMsg == null || currentMsg == old(currentMsg))
        && dequeued == old(dequeued) && Ended(old(currentMsg), old(completed), old(dropped))
      ensures res == -1 ==> Rewritten(old(currentMsg), old(writes), old(dropped), old(sent), old(Wire(currentMsg)))
      ensures res == 2 && input in {Byte(CAN), Byte(NAK)} ==>
                Rewritten(old(currentMsg), old(writes), old(dropped), old(sent), old(Wire(currentMsg)))
      ensures 0 <= res < 2 ==> currentMsg == old(currentMsg) && sent == old(sent)
      ensures res == 2 && input.Incoming? ==>
        && sent == old(sent) + [[if Accepts(input.bytes) then ACK else NAK]] && dropped == old(dropped)
        && (currentMsg == null <==> old(currentMsg == null || Completes(input)))
      ensures res == 2 && input == Byte(ACK) ==>
        && !waitingForAck && dropped == old(dropped)
        && (currentMsg == null <==> old(currentMsg == null || (expectedCallbackId == 0 && expectedReply == 0)))
        && (currentMsg != null ==> expectedCallbackId == old(expectedCallbackId) && expectedReply == old(expectedReply))
      ensures res < 3 ==> msgQueue == old(msgQueue)
      ensures res >= 3 ==> old(currentMsg) == null && old(HasItem(res - 3))
      ensures res >= 3 && old(FrontCommand(res - 3)) != null ==> CommandServed(res - 3, request)
      ensures res >= 3 && old(FrontCommand(res - 3)) == null ==> msgQueue == old(WithoutFront(res - 3))
      ensures res < 3 || old(FrontCommand(res - 3)) == null ==>
        && pending == old(pending) && log == old(log) && msgs == old(msgs) && commands == old(commands)
        && currentControllerCommand == old(currentControllerCommand)
      ensures res < 3 || old(FrontMsg(res - 3)) == null ==> dequeued == old(dequeued)
      ensures res >= 3 && old(FrontMsg(res - 3)) != null ==>
        && dequeued == old(dequeued) + multiset{old(FrontMsg(res - 3))}
        && old(FrontMsg(res - 3)).payload == old(FrontMsg(res - 3).payload)
        && MsgServed(old(FrontMsg(res - 3)), old(GivesUp(FrontMsg(res - 3))), old(sent), old(Wire(FrontMsg(res - 3))),
                     old(NextId(FrontMsg(res - 3))))
    {
      hide EventsAgree, Objects, Accounted, Retries, Accepts, Xor, Sendable, AllExtend, CommandServed, Valid,
           Sound, Wire, NextId, GivesUp, MsgServed, HasItem, WithoutFront, Completes, FrontMsg, FrontCommand;
      ShapeOf();
      hide Ended, Rewritten;
      SelfExtends(log);
      NotEnded();
      if res < 3 {
        Listen(res, input);
      } else {
        var written := WriteNextMsg(res - 3, request);
      }
    }

    // ---- forced completion ----

    /** A response whose handler reports failure: the source means to complete the
        transaction, by awaiting the byte that stands at the place of the callback
        id. That completes it exactly if the byte is not zero. */
    method ForceCompletion(data: seq<bv8>)
      requires Valid() && currentMsg != null
      modifies this`currentMsg, this`waitingForAck, this`expectedCallbackId, this`expectedReply
      modifies this`expectedCommandClassId, this`expectedNodeId, this`completed
      ensures Sound()
      ensures DataAt(data, 2) != 0 ==>
                Valid() && currentMsg == null && completed == old(completed) + multiset{old(currentMsg)}
      ensures DataAt(data, 2) == 0 ==>
        && currentMsg == old(currentMsg) && completed == old(completed) && (Valid() <==> old(waitingForAck))
        && (!old(waitingForAck) ==> WaitCount() > 3)
    {
      hide EventsAgree, Objects, Accounted, Retries, QueueShape, IsExpectedReply, DataAt;
      expectedCallbackId := DataAt(data, 2);
      expectedReply := 0;
      expectedCommandClassId := 0;
      expectedNodeId := 0;
      HandleCallback(data);
    }

    /** The response to FUNC_ID_ZW_ASSIGN_RETURN_ROUTE: its handler reports failure
        exactly for a zero byte, so that a failed command never completes here, and
        its message is outstanding without anything being awaited. */
    method HandleAssignReturnRoute(data: seq<bv8>)
      requires Valid() && currentMsg != null
      modifies this`currentMsg, this`waitingForAck, this`expectedCallbackId, this`expectedReply
      modifies this`expectedCommandClassId, this`expectedNodeId, this`completed, this`queueEvent,
               currentControllerCommand
      ensures Sound()
      ensures DataAt(data, 2) != 0 ==> Valid()
      ensures DataAt(data, 2) == 0 ==> currentMsg == old(currentMsg) && (Valid() <==> old(waitingForAck))
      ensures currentControllerCommand != null ==>
        currentControllerCommand.state == if DataAt(data, 2) != 0 then InProgress else FailedState
    {
      hide EventsAgree, Objects, Accounted, Retries, AnswersCallback, AnswersReply, DataAt;
      if DataAt(data, 2) != 0 {
        UpdateControllerState(InProgress);
        HandleCallback(data);
      } else {
        UpdateControllerState(FailedState);
        ForceCompletion(data);
      }
    }
  }

  /** The failing input of the forced completion, from the start of a run: a message
      to assign a return route is queued, written and acknowledged, and the
      response has a zero byte. The message is then outstanding with nothing awaited. */
  method StuckTransaction() returns (d: Driver, msg: Msg)
    ensures fresh(d) && fresh(msg) && d.Sound() && !d.Valid()
    ensures d.currentMsg == msg && !d.Awaiting() && d.WaitCount() > 3
  {
    hide Driver.EventsAgree, Driver.Objects, Driver.Accounted, Driver.Retries;
    d, msg := AcknowledgedTransaction();
    d.HandleAssignReturnRoute([0x01, FUNC_ID_ZW_ASSIGN_RETURN_ROUTE, 0x00]);
  }

  /** The controller acknowledges the frame. */
  method AcknowledgedTransaction() returns (d: Driver, msg: Msg)
    ensures fresh(d) && fresh(d.ids) && fresh(msg) && fresh(msg.buffer) && d.Valid() && d.currentMsg == msg
    ensures !d.waitingForAck
    ensures d.currentControllerCommand == null
    ensures d.expectedCallbackId == 0x0A && d.expectedReply == FUNC_ID_ZW_ASSIGN_RETURN_ROUTE
  {
    hide Driver.EventsAgree, Driver.Objects, Driver.Accounted, Driver.Retries;
    d, msg := WrittenTransaction();
    d.Turn(2, Byte(ACK), null);
  }

  /** The run goes on with the callback of the controller, which completes the message. */
  method CompletedTransaction() returns (d: Driver, msg: Msg)
    ensures fresh(d) && fresh(msg) && d.Valid() && d.currentMsg == null && !d.Awaiting() && msg in d.completed
  {
    hide Driver.EventsAgree, Driver.Objects, Driver.Accounted, Driver.Retries, Driver.Completes;
    d, msg := AcknowledgedTransaction();
    CallbackCompletes(d);
    ghost var dropped := d.dropped;
    assert (dropped + multiset{msg})[msg] == dropped[msg] + 1;
    d.Turn(2, Incoming([0x01, 0x05, 0x00, 0x46, 0x0A, 0x00, 0xB6], true), null);
  }

  lemma CallbackCompletes(d: Driver)
    requires d.expectedCallbackId == 0x0A && d.expectedReply == FUNC_ID_ZW_ASSIGN_RETURN_ROUTE
    ensures d.Completes(Incoming([0x01, 0x05, 0x00, 0x46, 0x0A, 0x00, 0xB6], true))
  {
    var bytes: seq<bv8> := [0x01, 0x05, 0x00, 0x46, 0x0A, 0x00, 0xB6];
    var s: seq<bv8> := [0x05, 0x00, 0x46, 0x0A, 0x00];
    assert bytes[1..|bytes| - 1] == s;
    var a: seq<bv8> := [];
    XorNext(a, 0x05);
    XorNext(a + [0x05], 0x00);
    XorNext(a + [0x05] + [0x00], 0x46);
    XorNext(a + [0x05] + [0x00] + [0x46], 0x0A);
    XorNext(a + [0x05] + [0x00] + [0x46] + [0x0A], 0x00);
    assert a + [0x05] + [0x00] + [0x46] + [0x0A] + [0x00] == s;
    var data: seq<bv8> := [0x00, 0x46, 0x0A, 0x00, 0xB6];
    assert bytes[2..] == data;
  }

  /** The first frame of a run, byte for byte: its length, the function, the two nodes
      of the route, the first callback id and the checksum. */
  method WrittenTransaction() returns (d: Driver, msg: Msg)
    ensures fresh(d) && fresh(d.ids) && fresh(msg) && fresh(msg.buffer) && d.Valid() && d.currentMsg == msg
    ensures d.currentControllerCommand == null && d.waitingForAck && d.expectedReply == FUNC_ID_ZW_ASSIGN_RETURN_ROUTE
    ensures d.expectedCallbackId == 0x0A
    ensures d.sent == [[0x01, 0x06, 0x00, 0x46, 0x02, 0x01, 0x0A, 0xB6]]
  {
    hide Driver.EventsAgree, Driver.Objects, Driver.Accounted, Driver.Retries, Msg.FinalLength, Frame;
    d, msg := QueuedTransaction();
    RouteFrame();
    d.Turn(3 + COMMAND, Nothing, null);
  }

  lemma RouteFrame()
    ensures
      var payload := [SOF, 0, 0x00, FUNC_ID_ZW_ASSIGN_RETURN_ROUTE, 0x02, 0x01];
      && Framable(payload, true)
      && Frame(payload, true, 0x0A) == [0x01, 0x06, 0x00, 0x46, 0x02, 0x01, 0x0A, 0xB6]
  {
    var unchecked: seq<bv8> := [0x01, 0x06, 0x00, 0x46, 0x02, 0x01, 0x0A];
    assert Unchecked([SOF, 0, 0x00, FUNC_ID_ZW_ASSIGN_RETURN_ROUTE, 0x02, 0x01], true, 0x0A) == unchecked;
    var s: seq<bv8> := [0x06, 0x00, 0x46, 0x02, 0x01, 0x0A];
    assert unchecked[1..] == s;
    var a: seq<bv8> := [];
    XorNext(a, 0x06);
    XorNext(a + [0x06], 0x00);
    XorNext(a + [0x06] + [0x00], 0x46);
    XorNext(a + [0x06] + [0x00] + [0x46], 0x02);
    XorNext(a + [0x06] + [0x00] + [0x46] + [0x02], 0x01);
    XorNext(a + [0x06] + [0x00] + [0x46] + [0x02] + [0x01], 0x0A);
    assert a + [0x06] + [0x00] + [0x46] + [0x02] + [0x01] + [0x0A] == s;
  }

  lemma XorNext(s: seq<bv8>, b: bv8)
    ensures Xor(s + [b]) == Xor(s) ^ b && Xor([]) == 0xFF
  {
    assert (s + [b])[..|s|] == s;
  }

  method QueuedTransaction() returns (d: Driver, msg: Msg)
    ensures fresh(d) && fresh(d.ids) && fresh(msg) && fresh(msg.buffer) && d.Valid() && !d.Awaiting()
    ensures d.currentControllerCommand == null && d.nodes == map[] && d.queueEvent[COMMAND] && d.sent == []
    ensures d.msgQueue[COMMAND] == [Item.SendMsg(msg)]
    ensures msg.expectedReply == FUNC_ID_ZW_ASSIGN_RETURN_ROUTE && msg.sendAttempts < msg.maxSendAttempts
    ensures msg.callbackRequired && msg.callbackId == 0x0A && msg.sendAttempts == 0
    ensures msg.payload == [SOF, 0, 0x00, FUNC_ID_ZW_ASSIGN_RETURN_ROUTE, 0x02, 0x01]
  {
    hide Driver.EventsAgree, Driver.Objects, Driver.Accounted, Driver.Retries, Msg.FinalLength;
    d := new Driver(1, map[], true);
    msg := AssignReturnRoute(2);
    d.SendMsg(msg, COMMAND);
  }

  /** The message of `DoControllerCommand` that assigns a return route. */
  method AssignReturnRoute(node: NodeId) returns (msg: Msg)
    ensures fresh(msg) && fresh(msg.buffer) && msg.Valid() && !msg.final && msg.FinalLength() <= 255
    ensures msg.targetNodeId == node && msg.expectedReply == FUNC_ID_ZW_ASSIGN_RETURN_ROUTE
    ensures msg.Wrapping() == Plain && msg.sendAttempts == 0 && msg.maxSendAttempts == MAX_TRIES
    ensures msg.callbackRequired && msg.Said() == [SOF, 0, 0x00, FUNC_ID_ZW_ASSIGN_RETURN_ROUTE, node as bv8, 1]
  {
    msg := new Msg(node, 0x00, FUNC_ID_ZW_ASSIGN_RETURN_ROUTE, true, true, 0, 0);
    msg.Append(node as bv8);
    msg.Append(1);
  }
}

/** Runs of the driver: any sequence of its steps, and what becomes of the items
    that are put aside while a node sleeps. */
module ZWaveRun {
  import opened ZWaveMsg
  import opened ZWaveQueue
  import opened ZWaveLedger
  import opened ZWaveDriver

  // ---- messages ----

  /** What a client says about a message: the arguments of its constructor, of
      `SetInstance`, and the bytes appended. */
  datatype Draft = Draft(
    node: NodeId, msgType: bv8, function_: bv8, callback: bool, reply: bool, expectedReply: bv8, expectedClass: bv8,
    version: nat, instance: bv8, endPoint: bv8, bytes: seq<bv8>)

  datatype Request = NoMessage | Message(draft: Draft)

  function Wraps(d: Draft): Encapsulation {
    if d.version > 1 then if d.endPoint != 0 then MultiChannel(d.endPoint) else Plain
    else if d.instance > 1 then MultiInstance(d.instance) else Plain
  }

  function Start(d: Draft): seq<bv8> { [SOF, 0, d.msgType, d.function_] }

  /** The message fits its buffer, and has the bytes that its encapsulation changes. */
  predicate Fits(d: Draft) {
    && |d.bytes| <= 251
    && (Wraps(d) != Plain && d.function_ == FUNC_ID_ZW_SEND_DATA ==> |d.bytes| >= 2)
    && |Encapsulated(Start(d) + d.bytes, Wraps(d))| + (if d.callback then 2 else 1) <= 255
  }

  predicate Fitting(r: Request) { r.Message? ==> Fits(r.draft) }

  method Compose(d: Draft) returns (msg: Msg)
    requires Fits(d)
    ensures fresh(msg) && fresh(msg.buffer) && msg.Valid() && !msg.final && msg.FinalLength() <= 255 && msg.Wrappable()
    ensures msg.targetNodeId == d.node
  {
    hide Encapsulated, Frame, Framable, Msg.Valid;
    msg := new Msg(d.node, d.msgType, d.function_, d.callback, d.reply, d.expectedReply, d.expectedClass);
    msg.SetInstance(d.version, d.instance, d.endPoint);
    AppendAll(msg, d.bytes);
    assert msg.Valid() && 4 <= msg.length <= msg.buffer.Length by { Bounded(msg); }
    assert msg.buffer[3] == msg.buffer[..msg.length][3];
  }

  lemma Bounded(msg: Msg)
    requires msg.Valid()
    ensures 4 <= msg.length <= msg.buffer.Length
  {
  }

  method AppendAll(msg: Msg, bytes: seq<bv8>)
    requires msg.Valid() && !msg.final && msg.length + |bytes| <= 255
    modifies msg`length, msg.buffer
    ensures msg.Valid() && msg.buffer[..msg.length] == old(msg.buffer[..msg.length]) + bytes
    ensures msg.length == old(msg.length) + |bytes|
  {
    hide Frame, Framable;
    var i := 0;
    while i < |bytes|
      invariant 0 <= i <= |bytes| && msg.Valid() && msg.length == old(msg.length) + i
      invariant msg.buffer[..msg.length] == old(msg.buffer[..msg.length]) + bytes[..i]
    {
      msg.Append(bytes[i]);
      i := i + 1;
    }
    assert bytes[..i] == bytes;
  }

  // ---- steps ----

  datatype Event =
    | Thread(res: int, input: Input, request: Request)
    | Send(draft: Draft, queue: nat)
    | Stage(node: NodeId, stage: nat)
    | Command(command: nat, callback: nat, node: NodeId)
    | Silence(node: NodeId, move: bool)
    | Awake(node: NodeId, state: bool, farewell: Request)
    | Init(node: NodeId, info: NodeInfo)
    | Delete(node: NodeId)
    | Alive(node: NodeId, alive: bool)
    | Remove(node: NodeId)

  /** The nodes that wake up. */
  function Woken(e: Event): set<NodeId> { if e.Awake? && e.state then {e.node} else {} }

  /** The nodes that are replaced or removed. */
  function Ended(e: Event): set<NodeId> { if e.Init? || e.Delete? then {e.node} else {} }

  function AllWoken(events: seq<Event>): set<NodeId> {
    if events == [] then {} else AllWoken(events[..|events| - 1]) + Woken(events[|events| - 1])
  }

  function AllEnded(events: seq<Event>): set<NodeId> {
    if events == [] then {} else AllEnded(events[..|events| - 1]) + Ended(events[|events| - 1])
  }

  /** The step can happen: what the source's callers see to. */
  predicate Enabled(d: Driver, e: Event)
    reads d
  {
    match e
    case Thread(res, input, request) =>
      && -1 <= res < d.WaitCount() && (res == -1 ==> d.Awaiting())
      && (res >= 3 ==> res - 3 < |d.queueEvent| && d.queueEvent[res - 3])
      && WellFormed(input) && Fitting(request)
    case Send(draft, q) => q < QUEUE_COUNT && Fits(draft)
    case Awake(node, _, farewell) =>
      && node in d.nodes && d.nodes[node].hasWakeUp && Fitting(farewell)
      && (farewell.Message? ==> farewell.draft.node == node)
    case Alive(node, _) => node in d.nodes
    case _ => true
  }

  /** Only nodes that end may disappear, or begin or cease to have a wake-up queue. */
  ghost predicate SameKinds(before: map<NodeId, NodeInfo>, after: map<NodeId, NodeInfo>, ended: set<NodeId>) {
    forall n: NodeId | n !in ended ::
      (n in before <==> n in after) && (n in before ==> before[n].hasWakeUp == after[n].hasWakeUp)
  }

  /** All objects of a driver. */
  ghost function Objects(d: Driver): set<object>
    reads d
  {
    {d, d.ids} + d.msgs + (set m | m in d.msgs :: m.buffer) + d.commands
  }

  /** Everything that a step changes belongs to the driver. */
  lemma InUse(d: Driver, q: nat)
    requires d.Valid()
    ensures d.currentMsg != null ==> d.currentMsg in d.msgs && d.currentMsg.buffer in Objects(d)
    ensures d.currentControllerCommand != null ==> d.currentControllerCommand in d.commands
    ensures d.Front(q) <= Objects(d)
    ensures forall m | m in d.msgs :: m in Objects(d) && m.buffer in Objects(d)
    ensures d in Objects(d) && d.ids in Objects(d) && d.commands <= Objects(d)
  {
    hide Driver.MsgsFinished, Driver.Accounted, Driver.Retries, Recorded, Driver.AtHome;
    if q < |d.msgQueue| { assert d.Owned(d.msgQueue[q]); }
    assert d.Owned(d.msgQueue[CONTROLLER]);
  }

  twostate lemma Grown(d: Driver, new msg: Msg?)
    requires msg != null ==> fresh(msg) && fresh(msg.buffer)
    requires old(d.msgs) <= d.msgs <= old(d.msgs) + (if msg == null then {} else {msg})
    requires fresh(d.commands - old(d.commands))
    ensures fresh(Objects(d) - old(Objects(d)))
  {
    forall o | o in Objects(d) ensures o in old(Objects(d)) || fresh(o) {
      if m :| m in d.msgs && o == m.buffer { assert m in old(d.msgs) || m == msg; }
    }
  }

  method DoThread(d: Driver, res: int, input: Input, request: Request)
    requires d.Valid() && Enabled(d, Thread(res, input, request))
    modifies Objects(d)
    ensures d.Valid() && LogsGo(old(d.log), d.log, {}, {}) && fresh(Objects(d) - old(Objects(d)))
    ensures d.nodes == old(d.nodes)
  {
    hide Driver.Valid, Driver.Sound, LogsGo, AllExtend, Driver.CommandServed, Driver.Ended, Driver.Rewritten;
    hide Accepts, Objects, Fits, Driver.Completes, Driver.Wire, Driver.NextId, Driver.GivesUp, Driver.MsgServed,
         Driver.HasItem, Driver.WithoutFront, Driver.Sendable, Driver.FrontMsg;
    var msg: Msg? := null;
    if request.Message? { msg := Compose(request.draft); }
    InUse(d, if res >= 3 then res - 3 else 0);
    IsSendable(d, msg);
    d.Turn(res, input, msg);
    ExtendingGoes(old(d.log), d.log);
    Grown(d, msg);
  }

  /** A message of its own can be handed over. */
  lemma IsSendable(d: Driver, msg: Msg?)
    requires msg != null ==> msg.Valid() && !msg.final && msg.FinalLength() <= 255 && msg.Wrappable()
    requires msg != null ==> forall m | m in d.msgs :: m.buffer != msg.buffer
    ensures msg != null ==> d.Sendable(msg)
  {
    hide Msg.Valid, Msg.FinalLength, Msg.Wrappable;
  }

  method DoSend(d: Driver, draft: Draft, q: nat)
    requires d.Valid() && q < QUEUE_COUNT && Fits(draft)
    modifies Objects(d)
    ensures d.Valid() && LogsGo(old(d.log), d.log, {}, {}) && fresh(Objects(d) - old(Objects(d)))
    ensures d.nodes == old(d.nodes)
  {
    hide Driver.Valid, Driver.Sound, LogsGo, AllExtend, Objects, Fits, Driver.PendsNext;
    var msg := Compose(draft);
    InUse(d, 0);
    IsSendable(d, msg);
    Apart(d, msg);
    d.SendMsg(msg, q);
    ExtendingGoes(old(d.log), d.log);
    Grown(d, msg);
  }

  method DoStage(d: Driver, node: NodeId, stage: nat)
    requires d.Valid()
    modifies Objects(d)
    ensures d.Valid() && LogsGo(old(d.log), d.log, {}, {}) && fresh(Objects(d) - old(Objects(d)))
    ensures d.nodes == old(d.nodes)
  {
    hide Driver.Valid, Driver.Sound, LogsGo, AllExtend, Objects, Fits, Driver.PendsNext;
    InUse(d, 0);
    d.SendQueryStageComplete(node, stage);
    ExtendingGoes(old(d.log), d.log);
    Grown(d, null);
  }

  method DoCommand(d: Driver, command: nat, callback: nat, node: NodeId)
    requires d.Valid()
    modifies Objects(d)
    ensures d.Valid() && LogsGo(old(d.log), d.log, {}, {}) && fresh(Objects(d) - old(Objects(d)))
    ensures d.nodes == old(d.nodes)
  {
    hide Driver.Valid, Driver.Sound, LogsGo, AllExtend, Objects, Fits;
    InUse(d, 0);
    SelfExtends(d.log);
    ExtendingGoes(d.log, d.log);
    var ok, c := d.BeginControllerCommand(command, callback, node);
    Grown(d, null);
  }

  method DoSilence(d: Driver, node: NodeId, move: bool)
    requires d.Valid()
    modifies Objects(d)
    ensures d.Valid() && LogsGo(old(d.log), d.log, {}, {}) && fresh(Objects(d) - old(Objects(d)))
    ensures d.nodes == old(d.nodes)
  {
    hide Driver.Valid, Driver.Sound, LogsGo, AllExtend, Objects, Fits, Driver.Parted, Driver.QueuesWithout, PutAside;
    InUse(d, 0);
    var moved := d.MoveMessagesToWakeUpQueue(node, move);
    ExtendingGoes(old(d.log), d.log);
    Grown(d, null);
  }

  method DoAwake(d: Driver, node: NodeId, state: bool, farewell: Request)
    requires d.Valid() && Enabled(d, Awake(node, state, farewell))
    modifies Objects(d)
    ensures d.Valid() && LogsGo(old(d.log), d.log, Woken(Awake(node, state, farewell)), {})
            && fresh(Objects(d) - old(Objects(d)))
    ensures d.nodes == old(d.nodes)
  {
    hide Driver.Valid, Driver.Sound, LogsGo, AllExtend, Objects, Fits, AllHanded, Driver.Handed, BegunAnew;
    var msg: Msg? := null;
    if farewell.Message? { msg := Compose(farewell.draft); }
    InUse(d, 0);
    IsSendable(d, msg);
    SelfExtends(d.log);
    ExtendingGoes(d.log, d.log);
    RecordsOf(d);
    ghost var begun := d.SetAwake(node, state, msg);
    if state { WakingGoes(old(d.pending), old(d.log), d.pending, d.log, node); }
    Grown(d, if state then msg else null);
  }

  method DoInit(d: Driver, node: NodeId, info: NodeInfo)
    requires d.Valid()
    modifies Objects(d)
    ensures d.Valid() && LogsGo(old(d.log), d.log, {}, {node}) && fresh(Objects(d) - old(Objects(d)))
    ensures SameKinds(old(d.nodes), d.nodes, {node})
  {
    hide Driver.Valid, Driver.Sound, LogsGo, AllExtend, Objects, Fits;
    InUse(d, 0);
    RecordsOf(d);
    EndingGoes(d.pending, d.log, node);
    d.InitNode(node, info);
    Grown(d, null);
  }

  method DoDelete(d: Driver, node: NodeId)
    requires d.Valid()
    modifies Objects(d)
    ensures d.Valid() && LogsGo(old(d.log), d.log, {}, {node}) && fresh(Objects(d) - old(Objects(d)))
    ensures SameKinds(old(d.nodes), d.nodes, {node})
  {
    hide Driver.Valid, Driver.Sound, LogsGo, AllExtend, Objects, Fits;
    InUse(d, 0);
    RecordsOf(d);
    EndingGoes(d.pending, d.log, node);
    d.DeleteNode(node);
    Grown(d, null);
  }

  method DoAlive(d: Driver, node: NodeId, alive: bool)
    requires d.Valid() && node in d.nodes
    modifies Objects(d)
    ensures d.Valid() && LogsGo(old(d.log), d.log, {}, {}) && fresh(Objects(d) - old(Objects(d)))
    ensures SameKinds(old(d.nodes), d.nodes, {})
  {
    hide Driver.Valid, Driver.Sound, LogsGo, AllExtend, Objects, Fits;
    InUse(d, 0);
    SelfExtends(d.log);
    ExtendingGoes(d.log, d.log);
    d.SetNodeAlive(node, alive);
    Grown(d, null);
  }

  method DoRemove(d: Driver, node: NodeId)
    requires d.Valid()
    modifies Objects(d)
    ensures d.Valid() && LogsGo(old(d.log), d.log, {}, {}) && fresh(Objects(d) - old(Objects(d)))
    ensures d.nodes == old(d.nodes)
  {
    hide Driver.Valid, Driver.Sound, LogsGo, AllExtend, Objects, Fits;
    InUse(d, 0);
    SelfExtends(d.log);
    ExtendingGoes(d.log, d.log);
    d.RemoveQueues(node);
    Grown(d, null);
  }

  lemma RecordsOf(d: Driver)
    requires d.Valid()
    ensures Recorded(d.pending, d.log)
  {
  }

  /** A new message is not the outstanding one. */
  lemma Apart(d: Driver, msg: Msg)
    requires d.Valid() && msg !in d.msgs
    ensures msg != d.currentMsg
  {
  }

  /** One step of a run; nothing happens if it cannot happen. */
  method Do(d: Driver, e: Event)
    requires d.Valid()
    modifies Objects(d)
    ensures d.Valid() && LogsGo(old(d.log), d.log, Woken(e), Ended(e)) && fresh(Objects(d) - old(Objects(d)))
    ensures SameKinds(old(d.nodes), d.nodes, Ended(e))
  {
    hide Driver.Valid, Driver.Sound, LogsGo, AllExtend, Objects, Fits;
    if Enabled(d, e) {
      match e {
        case Thread(res, input, request) => DoThread(d, res, input, request);
        case Send(draft, q) => DoSend(d, draft, q);
        case Stage(node, stage) => DoStage(d, node, stage);
        case Command(command, callback, node) => DoCommand(d, command, callback, node);
        case Silence(node, move) => DoSilence(d, node, move);
        case Awake(node, state, farewell) => DoAwake(d, node, state, farewell);
        case Init(node, info) => DoInit(d, node, info);
        case Delete(node) => DoDelete(d, node);
        case Alive(node, alive) => DoAlive(d, node, alive);
        case Remove(node) => DoRemove(d, node);
      }
    } else {
      NothingGoes(d.log, Woken(e), Ended(e));
    }
  }

  lemma NothingGoes(log: map<NodeId, seq<Entry>>, woken: set<NodeId>, ended: set<NodeId>)
    ensures LogsGo(log, log, woken, ended)
  {
    hide LogGoes, Follows, Withholds, Spares;
    forall n: NodeId ensures LogGoes(At(log, n), At(log, n), n in woken, n in ended) {
      SelfGoes(At(log, n));
      assert LogGoes(At(log, n), At(log, n), n in woken, n in ended) by { AnyGoes(At(log, n), n in woken, n in ended); }
    }
  }

  lemma AnyGoes(log: seq<Entry>, woken: bool, ended: bool)
    ensures LogGoes(log, log, woken, ended)
  {
  }

  /** Any steps, one after the other. */
  method Run(d: Driver, events: seq<Event>)
    requires d.Valid()
    modifies Objects(d)
    ensures d.Valid() && LogsGo(old(d.log), d.log, AllWoken(events), AllEnded(events))
    ensures fresh(Objects(d) - old(Objects(d)))
    ensures SameKinds(old(d.nodes), d.nodes, AllEnded(events))
  {
    hide Driver.Valid, Driver.Sound, LogsGo, Objects, Woken, Ended;
    NothingGoes(d.log, {}, {});
    var i := 0;
    while i < |events|
      invariant 0 <= i <= |events| && d.Valid() && fresh(Objects(d) - old(Objects(d)))
      invariant LogsGo(old(d.log), d.log, AllWoken(events[..i]), AllEnded(events[..i]))
      invariant SameKinds(old(d.nodes), d.nodes, AllEnded(events[..i]))
    {
      ghost var log, objects := d.log, Objects(d);
      label Before:
      Do(d, events[i]);
      forall o | o in Objects(d) ensures o in old(Objects(d)) || fresh(o) {
        assert o in objects || fresh@Before(o);
      }
      LogsGoOn(old(d.log), log, d.log, AllWoken(events[..i]), AllEnded(events[..i]), Woken(events[i]),
        Ended(events[i]));
      assert events[..i + 1][..i] == events[..i];
      i := i + 1;
    }
    assert events[..i] == events;
  }

  // ---- nothing is forgotten ----

  /** In every state between steps: what was ever put aside for a node, or the last to
      take its place, waits for the node, or was handed over when it woke up, or
      went with the node. */
  lemma NothingForgotten(d: Driver, node: NodeId, k: nat)
    requires d.Valid() && k < |d.LogOf(node)|
    ensures Chained(d.LogOf(node))
    ensures
      var last := d.LogOf(node)[LastHeir(d.LogOf(node), k)];
      || (last.fate.Waits? && last.item in d.PendingOf(node))
      || last.fate.HandedOver? || last.fate.Abandoned?
  {
    hide Driver.Valid, Chained, LastHeir, WaitingIn;
    RecordsOf(d);
    assert At(d.pending, node) == WaitingIn(At(d.log, node)) && Chained(At(d.log, node));
    var last := LastHeir(d.LogOf(node), k);
    if d.LogOf(node)[last].fate.Waits? { EntryWaits(d.LogOf(node), last); }
  }

  /** What was put aside arrived: the last to take its place was handed over when the
      node woke up, and if that was only now, it is queued; or it went with the node. */
  ghost predicate Arrived(d: Driver, node: NodeId, k: nat, woken: bool, ended: bool)
    reads d
  {
    && Chained(d.LogOf(node)) && k < |d.LogOf(node)| && |d.msgQueue| == QUEUE_COUNT
    && var last := d.LogOf(node)[LastHeir(d.LogOf(node), k)];
    && (last.fate.HandedOver? || (last.fate.Abandoned? && ended))
    && (woken || ended || d.Queued(last.item))
  }

  /** A node falls asleep. */
  method PutToSleep(d: Driver, target: NodeId)
    requires d.Valid() && d.GoesToSleep(target)
    modifies Objects(d)
    ensures d.Valid() && fresh(Objects(d) - old(Objects(d))) && d.nodes == old(d.nodes)
    ensures Chained(old(d.LogOf(target))) && LogsGo(old(d.log), d.log, {}, {})
    ensures d.LogOf(target) == NotedAll(old(d.LogOf(target)), old(d.MovedItems(target)), old(Views(d.msgs)))
  {
    hide Driver.Valid, Driver.Sound, LogsGo, AllExtend, Objects, Views;
    hide Driver.Parted, Driver.QueuesWithout, Driver.MovedItems, QueueAll, NotedAll, Chained;
    RecordOf(d, target);
    InUse(d, 0);
    var ok := d.MoveMessagesToWakeUpQueue(target, true);
    ExtendingGoes(old(d.log), d.log);
    Grown(d, null);
  }

  /** A node falls asleep, and any steps follow. */
  method SilenceAndRun(d: Driver, target: NodeId, events: seq<Event>)
    requires d.Valid() && d.GoesToSleep(target)
    modifies Objects(d)
    ensures d.Valid() && fresh(Objects(d) - old(Objects(d)))
    ensures SameKinds(old(d.nodes), d.nodes, AllEnded(events))
    ensures Chained(old(d.LogOf(target))) && Chained(d.LogOf(target))
    ensures LogGoes(old(d.LogOf(target)), d.LogOf(target), target in AllWoken(events), target in AllEnded(events))
    ensures ItemsFollow(old(d.LogOf(target)), old(d.MovedItems(target)), d.LogOf(target))
  {
    hide Driver.Valid, Driver.Sound, LogsGo, Objects, Driver.MovedItems, NotedAll, Chained, Views, ItemsFollow;
    hide AllWoken, AllEnded, LogGoes, SameKinds;
    ghost var moved, before, views := d.MovedItems(target), d.LogOf(target), Views(d.msgs);
    PutToSleep(d, target);
    ghost var log, objects := d.log, Objects(d);
    label Before:
    Run(d, events);
    forall o | o in Objects(d) ensures o in old(Objects(d)) || fresh(o) {
      assert o in objects || fresh@Before(o);
    }
    RunGoes(old(d.log), log, d.log, target, moved, views, AllWoken(events), AllEnded(events));
    RecordOf(d, target);
  }

  /** The items are the entries behind those that were there before. */
  ghost predicate ItemsFollow(before: seq<Entry>, items: seq<Item>, after: seq<Entry>) {
    |after| >= |before| + |items| && forall k | 0 <= k < |items| :: after[|before| + k].item == items[k]
  }

  lemma RunGoes(a: map<NodeId, seq<Entry>>, b: map<NodeId, seq<Entry>>, c: map<NodeId, seq<Entry>>, node: NodeId,
                items: seq<Item>, views: map<Msg, View>, woken: set<NodeId>, ended: set<NodeId>)
    requires LogsGo(a, b, {}, {}) && LogsGo(b, c, woken, ended)
    requires Chained(At(a, node)) && At(b, node) == NotedAll(At(a, node), items, views)
    ensures LogGoes(At(a, node), At(c, node), node in woken, node in ended)
    ensures ItemsFollow(At(a, node), items, At(c, node))
  {
    hide LogsGo, NotedAll, Chained, LogGoes;
    LogsGoOn(a, b, c, {}, {}, woken, ended);
    assert {} + woken == woken && {} + ended == ended;
    OneGoes(a, c, node, woken, ended);
    OneGoes(b, c, node, woken, ended);
    NotedAllLength(At(a, node), items, views);
    ItemStays(At(b, node), At(c, node), 0, node in woken, node in ended);
    forall k | 0 <= k < |items| ensures At(c, node)[|At(a, node)| + k].item == items[k] {
      NotedAllItems(At(a, node), items, views, k);
      ItemStays(At(b, node), At(c, node), |At(a, node)| + k, node in woken, node in ended);
    }
  }

  lemma OneGoes(before: map<NodeId, seq<Entry>>, after: map<NodeId, seq<Entry>>, node: NodeId, woken: set<NodeId>,
                ended: set<NodeId>)
    requires LogsGo(before, after, woken, ended)
    ensures LogGoes(At(before, node), At(after, node), node in woken, node in ended)
  {
  }

  lemma ItemStays(a: seq<Entry>, b: seq<Entry>, k: nat, woken: bool, ended: bool)
    requires LogGoes(a, b, woken, ended)
    ensures |a| <= |b| && (k < |a| ==> b[k].item == a[k].item)
  {
  }

  lemma RecordOf(d: Driver, node: NodeId)
    requires d.Valid()
    ensures Chained(d.LogOf(node)) && d.PendingOf(node) == WaitingIn(d.LogOf(node))
  {
    hide WaitingIn, Chained;
    assert At(d.pending, node) == WaitingIn(At(d.log, node)) && Chained(At(d.log, node));
  }

  /** The node wakes up. */
  method Rouse(d: Driver, node: NodeId, farewell: Request)
    requires d.Valid() && node in d.nodes && d.nodes[node].hasWakeUp
    requires Fitting(farewell) && (farewell.Message? ==> farewell.draft.node == node)
    modifies Objects(d)
    ensures d.Valid() && node in d.awake && d.PendingOf(node) == []
    ensures d.LogOf(node) == Closed(old(d.LogOf(node)), HandedOver)
    ensures |d.msgQueue| == QUEUE_COUNT && forall x | x in old(d.PendingOf(node)) :: d.Queued(x)
  {
    hide Driver.Valid, Driver.Sound, Objects, Fits, Driver.Handed, BegunAnew, Commands, Driver.Queued, Closed;
    var msg: Msg? := null;
    if farewell.Message? { msg := Compose(farewell.draft); }
    InUse(d, 0);
    IsSendable(d, msg);
    d.ShapeOf();
    ghost var begun := d.SendPending(node, msg);
    d.HandedIsQueued(old(d.msgQueue), old(d.PendingOf(node)), begun, msg);
    d.ShapeOf();
  }

  lemma Arrives(d: Driver, node: NodeId, before: seq<Entry>, asleep: seq<Entry>, k: nat, woken: bool, ended: bool)
    requires d.LogOf(node) == Closed(asleep, HandedOver) && Chained(before) && Chained(asleep)
    requires LogGoes(before, asleep, woken, ended) && k < |asleep| && (k < |before| ==> before[k].fate.Waits?)
    requires |d.msgQueue| == QUEUE_COUNT && forall x | x in WaitingIn(asleep) :: d.Queued(x)
    ensures Arrived(d, node, k, woken, ended) && d.LogOf(node)[k].item == asleep[k].item
  {
    ClosedAt(asleep, HandedOver, k);
    hide Closed, Chained, WaitingIn, Driver.Queued, Follows, Spares, Withholds;
    var log := Closed(asleep, HandedOver);
    ClosedFollows(asleep, HandedOver);
    ClosedWaits(asleep, HandedOver);
    FollowsOn(before, asleep, log);
    FateOf(before, log, k);
    if !woken && !ended {
      StillWaits(before, asleep, k);
      SameHeir(asleep, k);
      ClosedAt(asleep, HandedOver, LastHeir(asleep, k));
    }
  }

  /** A node falls asleep, any steps follow, and it wakes up: everything that was moved
      for it, and everything that waited for it before, arrived. Only if it was
      replaced or removed in between may it not wake up at all. */
  method SleepAndWake(d: Driver, target: NodeId, events: seq<Event>, farewell: Request) returns (woke: bool)
    requires d.Valid() && d.GoesToSleep(target)
    requires Fitting(farewell) && (farewell.Message? ==> farewell.draft.node == target)
    modifies Objects(d)
    ensures d.Valid() && (target !in AllEnded(events) ==> woke)
    ensures woke ==> target in d.awake && d.PendingOf(target) == []
    ensures woke ==> forall k | 0 <= k < |old(d.MovedItems(target))| ::
              var i := |old(d.LogOf(target))| + k;
              && Arrived(d, target, i, target in AllWoken(events), target in AllEnded(events))
              && d.LogOf(target)[i].item == old(d.MovedItems(target))[k]
    ensures woke ==> forall k | 0 <= k < |old(d.LogOf(target))| && old(d.LogOf(target))[k].fate.Waits? ::
              Arrived(d, target, k, target in AllWoken(events), target in AllEnded(events))
  {
    hide Driver.Valid, Driver.Sound, LogsGo, AllExtend, Objects, Fits, PutAside, AllHanded, Driver.Handed, BegunAnew;
    hide Driver.CommandKept, Driver.Parted, Driver.QueuesWithout, Driver.MovedItems, QueueAll, NotedAll, Chained,
         Arrived;
    hide Commands, AllWoken, AllEnded, LogGoes, Enabled;
    ghost var moved, before := d.MovedItems(target), d.LogOf(target);
    SilenceAndRun(d, target, events);
    if target !in d.nodes || !d.nodes[target].hasWakeUp { return false; }
    ghost var asleep := d.LogOf(target);
    RecordOf(d, target);
    Rouse(d, target, farewell);
    forall k | 0 <= k < |before| + |moved| && (k < |before| ==> before[k].fate.Waits?)
      ensures Arrived(d, target, k, target in AllWoken(events), target in AllEnded(events))
    {
      Arrives(d, target, before, asleep, k, target in AllWoken(events), target in AllEnded(events));
    }
    forall k | 0 <= k < |moved|
      ensures
        var i := |before| + k;
        && Arrived(d, target, i, target in AllWoken(events), target in AllEnded(events))
        && d.LogOf(target)[i].item == moved[k]
    {
      Arrives(d, target, before, asleep, |before| + k, target in AllWoken(events), target in AllEnded(events));
    }
    return true;
  }
}

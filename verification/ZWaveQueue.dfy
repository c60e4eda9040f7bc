/** Items of the driver's send queues, and what moving a node's items to its
    wake-up queue does to the lists: filters that keep the order, and `QueueMsg`,
    which deletes older copies of an item before it appends the new one. */
module ZWaveQueue {
  import opened ZWaveMsg

  datatype ControllerState =
    | Normal | Starting | Cancel | ErrorState | Waiting | Sleeping | InProgress | Completed | FailedState
    | NodeOK | NodeFailed

  /** The states in which a controller command is finished. */
  predicate Terminal(s: ControllerState) {
    s in {Cancel, ErrorState, Sleeping, Completed, FailedState, NodeOK, NodeFailed}
  }

  /** `ControllerCommand_None` is never queued. */
  type Command = n: nat | n > 0 witness 1

  class ControllerCommandItem {
    const command: Command
    const callback: nat
    const node: NodeId
    var state: ControllerState
    var stateChanged: bool
    var done: bool

    /** As `BeginControllerCommand` fills it in. */
    constructor (command: Command, callback: nat, node: NodeId)
      ensures this.command == command && this.callback == callback && this.node == node
      ensures state == Normal && !stateChanged && !done
    {
      this.command, this.callback, this.node := command, callback, node;
      state, stateChanged, done := Normal, false, false;
    }

    constructor Copy(other: ControllerCommandItem)
      ensures command == other.command && callback == other.callback && node == other.node
      ensures state == other.state && stateChanged == other.stateChanged && done == other.done
    {
      command, callback, node := other.command, other.callback, other.node;
      state, stateChanged, done := other.state, other.stateChanged, other.done;
    }
  }

  /** `MsgQueueItem`. */
  datatype Item =
    | SendMsg(msg: Msg)
    | QueryStageComplete(nodeId: NodeId, stage: nat, retry: bool)
    | Controller(cci: ControllerCommandItem)

  /** The node that an item is about. */
  function NodeOf(x: Item): NodeId {
    match x
    case SendMsg(msg) => msg.targetNodeId
    case QueryStageComplete(nodeId, _, _) => nodeId
    case Controller(cci) => cci.node
  }

  // ---- what the items say about their messages ----

  /** The part of a message that comparisons look at: whether it is finished, its
      buffer, and its length without callback id and checksum. */
  datatype View = View(final: bool, bytes: seq<bv8>, significant: int)

  ghost function ViewOf(m: Msg): View
    reads m`final, m`length, m.buffer
  {
    View(m.final, m.buffer[..], m.length - if m.callbackRequired then 2 else 1)
  }

  ghost function Views(msgs: set<Msg>): map<Msg, View>
    reads msgs`final, msgs`length, set m | m in msgs :: m.buffer
  {
    map m | m in msgs :: ViewOf(m)
  }

  /** `MsgQueueItem::operator==`: the item `a` of a list is a copy of the new item `b`. */
  ghost predicate IsCopy(a: Item, b: Item, views: map<Msg, View>) {
    match b
    case SendMsg(n) => a.SendMsg? && a.msg in views && n in views && SameView(views[a.msg], views[n])
    case QueryStageComplete(i, s, _) => a.QueryStageComplete? && a.nodeId == i && a.stage == s
    case Controller(c) => a.Controller? && a.cci.command == c.command && a.cci.callback == c.callback
  }

  ghost predicate SameView(v: View, w: View) {
    v.final && w.final && 0 <= w.significant <= |v.bytes| && w.significant <= |w.bytes|
    && v.bytes[..w.significant] == w.bytes[..w.significant]
  }

  /** What it means that a message of a list is a copy of a new one. */
  lemma CopyMeans(a: Msg, b: Msg, msgs: set<Msg>)
    requires a in msgs && b in msgs && a.Valid() && b.Valid() && a.final && b.final
    ensures IsCopy(SendMsg(a), SendMsg(b), Views(msgs))
            <==> Alike(b.payload, b.callbackRequired, a.payload, a.callbackRequired, a.callbackId)
  {
    hide Alike, Msg.Valid;
    b.MatchesExactly(a);
    b.Extent();
    a.Extent();
  }

  /** The messages that are deleted instead of being kept for a sleeping node:
      WakeUpNoMoreInformation and NoOperation commands of 11 bytes. */
  ghost predicate Disposable(x: Item, views: map<Msg, View>) {
    x.SendMsg? && x.msg in views && var v := views[x.msg];
    && v.final && |v.bytes| == 256 && v.significant == (if x.msg.callbackRequired then 9 else 10) && v.bytes[3] == 0x13
    && ((v.bytes[6] == 0x84 && v.bytes[7] == 0x08) || (v.bytes[6] == 0x00 && v.bytes[7] == 0x00))
  }

  // ---- what a node that wakes up is sent ----

  function Messages(list: seq<Item>): seq<Item> {
    if list == [] then []
    else Messages(list[..|list| - 1]) + if list[|list| - 1].SendMsg? then [list[|list| - 1]] else []
  }

  /** The stages are queued as if for the first time. */
  function Stages(list: seq<Item>): seq<Item> {
    if list == [] then []
    else
      var last := list[|list| - 1];
      Stages(list[..|list| - 1]) + if last.QueryStageComplete? then [last.(retry := false)] else []
  }

  function Commands(list: seq<Item>): seq<Item> {
    if list == [] then []
    else Commands(list[..|list| - 1]) + if list[|list| - 1].Controller? then [list[|list| - 1]] else []
  }

  /** The commands are begun anew, in order: same command, callback and node. */
  ghost predicate BegunAnew(given: seq<Item>, begun: seq<Item>) {
    && |given| == |begun|
    && forall i | 0 <= i < |given| ::
         given[i].Controller? && begun[i].Controller? && SameCommand(given[i].cci, begun[i].cci)
  }

  predicate SameCommand(c: ControllerCommandItem, d: ControllerCommandItem) {
    c.command == d.command && c.callback == d.callback && c.node == d.node
  }

  lemma PartsNone(list: seq<Item>)
    ensures Messages(list[..0]) == Stages(list[..0]) == Commands(list[..0]) == []
  {
  }

  /** One more item of a list. */
  lemma PartsNext(list: seq<Item>, k: nat)
    requires k < |list|
    ensures Messages(list[..k + 1]) == Messages(list[..k]) + if list[k].SendMsg? then [list[k]] else []
    ensures Stages(list[..k + 1])
            == Stages(list[..k]) + if list[k].QueryStageComplete? then [list[k].(retry := false)] else []
    ensures Commands(list[..k + 1]) == Commands(list[..k]) + if list[k].Controller? then [list[k]] else []
  {
    assert list[..k + 1][..k] == list[..k];
  }

  /** Every item is among its kind. */
  lemma {:induction false} PartsMembers(list: seq<Item>, x: Item)
    requires x in list
    ensures x.SendMsg? ==> x in Messages(list)
    ensures x.QueryStageComplete? ==> x.(retry := false) in Stages(list)
    ensures x.Controller? ==> x in Commands(list)
  {
    if x != list[|list| - 1] { PartsMembers(list[..|list| - 1], x); }
  }

  // ---- lists ----

  /** Items of a node are removed with it, except the controller command in progress. */
  predicate Removable(x: Item, node: NodeId, spared: ControllerCommandItem?) {
    NodeOf(x) == node && !(x.Controller? && x.cci == spared)
  }

  function Remaining(s: seq<Item>, node: NodeId, spared: ControllerCommandItem?): seq<Item> {
    if s == [] then [] else (if Removable(s[0], node, spared) then [] else [s[0]]) + Remaining(s[1..], node, spared)
  }

  lemma {:induction false} RemainingMembers(s: seq<Item>, node: NodeId, spared: ControllerCommandItem?)
    ensures forall x :: x in Remaining(s, node, spared) <==> x in s && !Removable(x, node, spared)
  {
    hide Removable;
    if s != [] { RemainingMembers(s[1..], node, spared); }
  }

  /** The items that are about other nodes, in order. */
  function Others(s: seq<Item>, node: NodeId): seq<Item> {
    if s == [] then [] else (if NodeOf(s[0]) == node then [] else [s[0]]) + Others(s[1..], node)
  }

  /** The items about the node that are worth keeping, in order. */
  ghost function Kept(s: seq<Item>, node: NodeId, views: map<Msg, View>): seq<Item> {
    if s == [] then []
    else (if NodeOf(s[0]) != node || Disposable(s[0], views) then [] else [s[0]]) + Kept(s[1..], node, views)
  }

  /** The items about the node that are thrown away. */
  ghost function Thrown(s: seq<Item>, node: NodeId, views: map<Msg, View>): seq<Item> {
    if s == [] then []
    else (if NodeOf(s[0]) == node && Disposable(s[0], views) then [s[0]] else []) + Thrown(s[1..], node, views)
  }

  /** The kept items of several lists, list by list. */
  ghost function KeptOfAll(queues: seq<seq<Item>>, node: NodeId, views: map<Msg, View>): seq<Item> {
    if queues == [] then [] else Kept(queues[0], node, views) + KeptOfAll(queues[1..], node, views)
  }

  /** The list without the older copies of an item. */
  ghost function Without(s: seq<Item>, x: Item, views: map<Msg, View>): seq<Item> {
    if s == [] then [] else (if IsCopy(s[0], x, views) then [] else [s[0]]) + Without(s[1..], x, views)
  }

  lemma {:induction false} WithoutMembers(s: seq<Item>, x: Item, views: map<Msg, View>)
    ensures forall y :: y in Without(s, x, views) <==> y in s && !IsCopy(y, x, views)
  {
    hide IsCopy;
    if s != [] { WithoutMembers(s[1..], x, views); }
  }

  lemma WithoutEmpty(x: Item, views: map<Msg, View>)
    ensures Without([], x, views) == []
  {
  }

  /** One step of the loop that builds the list. */
  lemma WithoutStep(kept: seq<Item>, s: seq<Item>, x: Item, views: map<Msg, View>)
    requires s != []
    ensures kept + Without(s, x, views) ==
              (if IsCopy(s[0], x, views) then kept else kept + [s[0]]) + Without(s[1..], x, views)
  {
    hide IsCopy;
    AppendOne(kept, s[0], Without(s[1..], x, views));
  }

  lemma AppendOne<T>(s: seq<T>, x: T, t: seq<T>)
    ensures s + ([x] + t) == s + [x] + t && [] + t == t
  {
  }

  /** `WakeUp::QueueMsg`, for one item after another. */
  ghost function QueueAll(pending: seq<Item>, items: seq<Item>, views: map<Msg, View>): seq<Item>
    decreases |items|
  {
    if items == [] then pending
    else QueueAll(Without(pending, items[0], views) + [items[0]], items[1..], views)
  }

  lemma {:induction false} OthersMembers(s: seq<Item>, node: NodeId)
    ensures forall x :: x in Others(s, node) <==> x in s && NodeOf(x) != node
  {
    if s != [] { OthersMembers(s[1..], node); }
  }

  lemma EmptyOthers(s: seq<Item>, node: NodeId)
    ensures s == [] ==> Others(s, node) == []
  {
  }

  lemma {:induction false} KeptOfAllMembers(queues: seq<seq<Item>>, node: NodeId, views: map<Msg, View>, i: nat,
                                            x: Item)
    requires i < |queues| && x in queues[i] && NodeOf(x) == node && !Disposable(x, views)
    ensures x in KeptOfAll(queues, node, views)
  {
    hide Disposable;
    KeptMembers(queues[0], node, views);
    if i > 0 { KeptOfAllMembers(queues[1..], node, views, i - 1, x); }
  }

  lemma {:induction false} KeptMembers(s: seq<Item>, node: NodeId, views: map<Msg, View>)
    ensures forall x :: x in Kept(s, node, views) <==> x in s && NodeOf(x) == node && !Disposable(x, views)
  {
    hide Disposable;
    if s != [] { KeptMembers(s[1..], node, views); }
  }

  /** When a node's items move behind the current one and the items already
      pending, every item of the queues stays where it is, or is disposable, or
      is queued for wake-up and survives there; what was pending is still there
      or gives way to a moved copy that survives. */
  lemma MoveLosesNothing(pending: seq<Item>, first: seq<Item>, queues: seq<seq<Item>>, node: NodeId,
                         views: map<Msg, View>)
    ensures
      var moved := first + KeptOfAll(queues, node, views);
      var result := QueueAll(pending, moved, views);
      && (forall i, k | 0 <= i < |queues| && 0 <= k < |queues[i]| ::
            || queues[i][k] in Others(queues[i], node)
            || Disposable(queues[i][k], views)
            || SurvivesAs(queues[i][k], moved, result, views))
      && (forall k | 0 <= k < |first| :: SurvivesAs(first[k], moved, result, views))
      && (forall k | 0 <= k < |pending| :: pending[k] in result || ReplacedIn(pending[k], moved, result, views))
      && (forall x | x in result :: x in pending || x in moved)
  {
    hide Disposable, IsCopy, Without, QueueAll, Survives, SurvivesAs, ReplacedIn;
    var moved := first + KeptOfAll(queues, node, views);
    var result := QueueAll(pending, moved, views);
    forall i, k | 0 <= i < |queues| && 0 <= k < |queues[i]|
      ensures queues[i][k] in Others(queues[i], node) || Disposable(queues[i][k], views)
              || SurvivesAs(queues[i][k], moved, result, views)
    {
      var x := queues[i][k];
      OthersMembers(queues[i], node);
      if NodeOf(x) == node && !Disposable(x, views) {
        KeptOfAllMembers(queues, node, views, i, x);
        QueuedSurvivesAs(pending, moved, views, x);
      }
    }
    forall k | 0 <= k < |first| ensures SurvivesAs(first[k], moved, result, views) {
      QueuedSurvivesAs(pending, moved, views, first[k]);
    }
    forall k | 0 <= k < |pending| ensures pending[k] in result || ReplacedIn(pending[k], moved, result, views) {
      PendingSurvives(pending, moved, views, pending[k]);
    }
    forall x | x in result ensures x in pending || x in moved { NothingElseQueued(pending, moved, views, x); }
  }

  /** Splitting a list by node loses nothing but the disposable messages. */
  lemma {:induction false} SplitConserves(s: seq<Item>, node: NodeId, views: map<Msg, View>)
    ensures multiset(s) == multiset(Others(s, node)) + multiset(Kept(s, node, views)) + multiset(Thrown(s, node, views))
  {
    hide Disposable;
    if s != [] {
      SplitConserves(s[1..], node, views);
      assert s == [s[0]] + s[1..];
    }
  }

  lemma {:induction false} ThrownMembers(s: seq<Item>, node: NodeId, views: map<Msg, View>)
    ensures forall x :: x in Thrown(s, node, views) <==> x in s && NodeOf(x) == node && Disposable(x, views)
  {
    hide Disposable;
    if s != [] { ThrownMembers(s[1..], node, views); }
  }

  /** The item queued at an index is in the list, or an item queued after it is its
      copy and survives in the list: a chain of copies that ends in the list. */
  ghost predicate Survives(items: seq<Item>, k: nat, list: seq<Item>, views: map<Msg, View>)
    requires k < |items|
    decreases |items| - k
  {
    || items[k] in list
    || exists j | k < j < |items| :: IsCopy(items[k], items[j], views) && Survives(items, j, list, views)
  }

  /** The item was queued at some index, and survives. */
  ghost predicate SurvivesAs(x: Item, items: seq<Item>, list: seq<Item>, views: map<Msg, View>) {
    exists j | 0 <= j < |items| :: items[j] == x && Survives(items, j, list, views)
  }

  /** A queued item is a copy of the given one, and survives. */
  ghost predicate ReplacedIn(x: Item, items: seq<Item>, list: seq<Item>, views: map<Msg, View>) {
    exists j | 0 <= j < |items| :: IsCopy(x, items[j], views) && Survives(items, j, list, views)
  }

  lemma {:induction false} NothingElseQueued(pending: seq<Item>, items: seq<Item>, views: map<Msg, View>, x: Item)
    requires x in QueueAll(pending, items, views)
    ensures x in pending || x in items
    decreases |items|
  {
    hide IsCopy, Without;
    if items != [] {
      WithoutMembers(pending, items[0], views);
      NothingElseQueued(Without(pending, items[0], views) + [items[0]], items[1..], views, x);
    }
  }

  /** An item in the list stays in it, unless a later one is its copy. */
  lemma {:induction false} PendingStays(pending: seq<Item>, items: seq<Item>, views: map<Msg, View>, x: Item)
    requires x in pending
    ensures x in QueueAll(pending, items, views) || exists j | 0 <= j < |items| :: IsCopy(x, items[j], views)
    decreases |items|
  {
    hide IsCopy, Without;
    if items != [] && !IsCopy(x, items[0], views) {
      WithoutMembers(pending, items[0], views);
      PendingStays(Without(pending, items[0], views) + [items[0]], items[1..], views, x);
      if j :| 0 <= j < |items[1..]| && IsCopy(x, items[1..][j], views) { assert IsCopy(x, items[j + 1], views); }
    }
  }

  lemma {:induction false} QueuedStays(pending: seq<Item>, items: seq<Item>, views: map<Msg, View>, k: nat)
    requires k < |items|
    ensures items[k] in QueueAll(pending, items, views)
            || exists j | k < j < |items| :: IsCopy(items[k], items[j], views)
    decreases |items|
  {
    hide IsCopy, Without;
    var next, rest := Without(pending, items[0], views) + [items[0]], items[1..];
    if k == 0 {
      PendingStays(next, rest, views, items[0]);
      if j :| 0 <= j < |rest| && IsCopy(items[0], rest[j], views) { assert IsCopy(items[0], items[j + 1], views); }
    } else {
      QueuedStays(next, rest, views, k - 1);
      if j :| k - 1 < j < |rest| && IsCopy(rest[k - 1], rest[j], views) {
        assert IsCopy(items[k], items[j + 1], views);
      }
    }
  }

  /** Everything that is queued survives. */
  lemma {:induction false} QueuedSurvives(pending: seq<Item>, items: seq<Item>, views: map<Msg, View>, k: nat)
    requires k < |items|
    ensures Survives(items, k, QueueAll(pending, items, views), views)
    decreases |items| - k
  {
    hide IsCopy, Without, QueueAll;
    QueuedStays(pending, items, views, k);
    if items[k] !in QueueAll(pending, items, views) {
      var j :| k < j < |items| && IsCopy(items[k], items[j], views);
      QueuedSurvives(pending, items, views, j);
    }
  }

  lemma QueuedSurvivesAs(pending: seq<Item>, items: seq<Item>, views: map<Msg, View>, x: Item)
    requires x in items
    ensures SurvivesAs(x, items, QueueAll(pending, items, views), views)
  {
    hide IsCopy, Without, QueueAll, Survives;
    var j :| 0 <= j < |items| && items[j] == x;
    QueuedSurvives(pending, items, views, j);
  }

  lemma PendingSurvives(pending: seq<Item>, items: seq<Item>, views: map<Msg, View>, x: Item)
    requires x in pending
    ensures x in QueueAll(pending, items, views) || ReplacedIn(x, items, QueueAll(pending, items, views), views)
  {
    hide IsCopy, Without, QueueAll, Survives;
    PendingStays(pending, items, views, x);
    if x !in QueueAll(pending, items, views) {
      var j :| 0 <= j < |items| && IsCopy(x, items[j], views);
      QueuedSurvives(pending, items, views, j);
    }
  }

  /** Without copies among them, queuing the items is appending them. */
  lemma {:induction false} QueueAllAppends(pending: seq<Item>, items: seq<Item>, views: map<Msg, View>)
    requires forall i, j | 0 <= i < j < |pending + items| && |pending| <= j ::
               !IsCopy((pending + items)[i], (pending + items)[j], views)
    ensures QueueAll(pending, items, views) == pending + items
    decreases |items|
  {
    if items != [] {
      var all := pending + items;
      assert all[|pending|] == items[0];
      forall i | 0 <= i < |pending| ensures !IsCopy(pending[i], items[0], views) {
        assert all[i] == pending[i];
      }
      WithoutNothing(pending, items[0], views);
      var next := pending + [items[0]];
      assert next + items[1..] == all;
      QueueAllAppends(next, items[1..], views);
    }
  }

  lemma {:induction false} WithoutNothing(s: seq<Item>, x: Item, views: map<Msg, View>)
    requires forall i | 0 <= i < |s| :: !IsCopy(s[i], x, views)
    ensures Without(s, x, views) == s
  {
    if s != [] { WithoutNothing(s[1..], x, views); }
  }

  // ---- the order of what a filter leaves ----

  /** `at` names, in increasing order, the places of `s` whose items stay, and `r` holds
      these items in the same order. */
  ghost predicate InOrder(s: seq<Item>, r: seq<Item>, at: seq<nat>, stays: Item -> bool) {
    && |at| == |r| && (forall k | 0 <= k < |at| :: at[k] < |s| && r[k] == s[at[k]])
    && (forall j, k | 0 <= j < k < |at| :: at[j] < at[k])
    && (forall i: nat | i < |s| :: i in at <==> stays(s[i]))
  }

  /** One more item in front. */
  lemma InOrderNext(s: seq<Item>, r: seq<Item>, at: seq<nat>, stays: Item -> bool) returns (next: seq<nat>)
    requires s != [] && InOrder(s[1..], r, at, stays)
    ensures InOrder(s, (if stays(s[0]) then [s[0]] else []) + r, next, stays)
  {
    var n := if stays(s[0]) then 1 else 0;
    next := seq(n + |at|, k requires 0 <= k < n + |at| => if k < n then 0 else at[k - n] + 1);
    var left := (if stays(s[0]) then [s[0]] else []) + r;
    forall k | 0 <= k < |next| ensures next[k] < |s| && left[k] == s[next[k]] {
      if k >= n { assert left[k] == r[k - n] == s[1..][at[k - n]]; }
    }
    forall i: nat | i < |s| ensures i in next <==> stays(s[i]) {
      PlaceOf(at, next, n, i);
      if i > 0 { assert s[i] == s[1..][i - 1]; }
    }
  }

  lemma PlaceOf(at: seq<nat>, next: seq<nat>, n: nat, i: nat)
    requires n <= 1 && |next| == n + |at|
    requires forall k | 0 <= k < |next| :: next[k] == if k < n then 0 else at[k - n] + 1
    ensures i in next <==> if i == 0 then n == 1 else i - 1 in at
  {
    if i > 0 && i - 1 in at {
      var k :| 0 <= k < |at| && at[k] == i - 1;
      assert next[k + n] == i;
    }
    if i == 0 && n == 1 { assert next[0] == 0; }
    if i in next {
      var k :| 0 <= k < |next| && next[k] == i;
    }
  }

  /** What stays in a queue keeps its order, and everything about other nodes stays. */
  lemma {:induction false} OthersInOrder(s: seq<Item>, node: NodeId) returns (at: seq<nat>)
    ensures InOrder(s, Others(s, node), at, x => NodeOf(x) != node)
  {
    at := [];
    if s != [] {
      at := OthersInOrder(s[1..], node);
      at := InOrderNext(s, Others(s[1..], node), at, x => NodeOf(x) != node);
    }
  }

  /** So does what moves to a wake-up queue, */
  lemma {:induction false} KeptInOrder(s: seq<Item>, node: NodeId, views: map<Msg, View>) returns (at: seq<nat>)
    ensures InOrder(s, Kept(s, node, views), at, x => NodeOf(x) == node && !Disposable(x, views))
  {
    hide Disposable;
    at := [];
    if s != [] {
      at := KeptInOrder(s[1..], node, views);
      at := InOrderNext(s, Kept(s[1..], node, views), at, x => NodeOf(x) == node && !Disposable(x, views));
    }
  }

  /** queue after queue, */
  lemma {:induction false} KeptOfAllInOrder(a: seq<seq<Item>>, b: seq<seq<Item>>, q: seq<Item>, node: NodeId,
                                            views: map<Msg, View>)
    ensures KeptOfAll(a + [q] + b, node, views)
            == KeptOfAll(a, node, views) + Kept(q, node, views) + KeptOfAll(b, node, views)
    decreases |a|
  {
    hide Kept;
    if a == [] {
      assert a + [q] + b == [q] + b && ([q] + b)[1..] == b;
    } else {
      KeptOfAllInOrder(a[1..], b, q, node, views);
      assert (a + [q] + b)[1..] == a[1..] + [q] + b;
    }
  }

  /** what is left when a node is removed, */
  lemma {:induction false} RemainingInOrder(s: seq<Item>, node: NodeId, spared: ControllerCommandItem?)
    returns (at: seq<nat>)
    ensures InOrder(s, Remaining(s, node, spared), at, x => !(NodeOf(x) == node && !(x.Controller? && x.cci == spared)))
  {
    at := [];
    if s != [] {
      at := RemainingInOrder(s[1..], node, spared);
      at := InOrderNext(s, Remaining(s[1..], node, spared), at,
                        x => !(NodeOf(x) == node && !(x.Controller? && x.cci == spared)));
    }
  }

  /** and what waits already when a copy of some of it comes. */
  lemma {:induction false} WithoutInOrder(s: seq<Item>, x: Item, views: map<Msg, View>) returns (at: seq<nat>)
    ensures InOrder(s, Without(s, x, views), at, y => !IsCopy(y, x, views))
  {
    hide IsCopy;
    at := [];
    if s != [] {
      at := WithoutInOrder(s[1..], x, views);
      at := InOrderNext(s, Without(s[1..], x, views), at, y => !IsCopy(y, x, views));
    }
  }

  /** What wakes up with a node is handed over in order, by kind. */
  lemma {:induction false} PartsInOrder(list: seq<Item>) returns (m: seq<nat>, c: seq<nat>)
    ensures InOrder(list, Messages(list), m, (x: Item) => x.SendMsg?)
    ensures InOrder(list, Commands(list), c, (x: Item) => x.Controller?)
    decreases |list|
  {
    m, c := [], [];
    if list != [] {
      var init, last := list[..|list| - 1], list[|list| - 1];
      m, c := PartsInOrder(init);
      m := InOrderLast(init, last, Messages(init), m, (x: Item) => x.SendMsg?);
      c := InOrderLast(init, last, Commands(init), c, (x: Item) => x.Controller?);
      assert init + [last] == list;
    }
  }

  lemma InOrderLast(s: seq<Item>, x: Item, r: seq<Item>, at: seq<nat>, stays: Item -> bool) returns (next: seq<nat>)
    requires InOrder(s, r, at, stays)
    ensures InOrder(s + [x], r + (if stays(x) then [x] else []), next, stays)
  {
    next := at + if stays(x) then [|s|] else [];
  }
}

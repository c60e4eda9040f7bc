/** The record of what was ever put aside for a node that sleeps, and of what
    became of it. Entries are only added, and each has one fate in the end. */
module ZWaveLedger {
  import opened ZWaveMsg
  import opened ZWaveQueue

  /** The item waits; or an entry behind it took its place, being its copy as the
      messages compared at that time; or it was queued for sending when the node
      woke up; or its node was replaced or removed. */
  datatype Fate = Waits | Replaced(heir: nat, views: map<Msg, View>) | HandedOver | Abandoned

  datatype Entry = Entry(item: Item, fate: Fate)

  /** The items that wait, in order. */
  function WaitingIn(log: seq<Entry>): seq<Item> {
    if log == [] then [] else (if log[0].fate.Waits? then [log[0].item] else []) + WaitingIn(log[1..])
  }

  /** The older copies of an item that still wait give way to the entry `heir`. */
  ghost function Marked(log: seq<Entry>, heir: nat, x: Item, views: map<Msg, View>): (r: seq<Entry>)
    ensures |r| == |log|
  {
    if log == [] then []
    else
      [if log[0].fate.Waits? && IsCopy(log[0].item, x, views) then Entry(log[0].item, Replaced(heir, views))
        else log[0]]
      + Marked(log[1..], heir, x, views)
  }

  /** `WakeUp::QueueMsg`, in the record. */
  ghost function Noted(log: seq<Entry>, x: Item, views: map<Msg, View>): (r: seq<Entry>)
    ensures |r| == |log| + 1
  {
    Marked(log, |log|, x, views) + [Entry(x, Waits)]
  }

  ghost function NotedAll(log: seq<Entry>, items: seq<Item>, views: map<Msg, View>): seq<Entry>
    decreases |items|
  {
    if items == [] then log else NotedAll(Noted(log, items[0], views), items[1..], views)
  }

  /** Whatever still waits meets the given fate. */
  function Closed(log: seq<Entry>, fate: Fate): (r: seq<Entry>)
    ensures |r| == |log|
  {
    if log == [] then []
    else [if log[0].fate.Waits? then Entry(log[0].item, fate) else log[0]] + Closed(log[1..], fate)
  }

  /** The first entry that waits is handed over. */
  function HandedFirst(log: seq<Entry>): (r: seq<Entry>)
    ensures |r| == |log|
  {
    if log == [] then []
    else if log[0].fate.Waits? then [Entry(log[0].item, HandedOver)] + log[1..]
    else [log[0]] + HandedFirst(log[1..])
  }

  /** Who took the place of another stands behind it and was its copy. */
  ghost predicate Chained(log: seq<Entry>) {
    forall k | 0 <= k < |log| && log[k].fate.Replaced? ::
      k < log[k].fate.heir < |log| && IsCopy(log[k].item, log[log[k].fate.heir].item, log[k].fate.views)
  }

  /** From an entry along those that took its place to one that nothing replaced. */
  ghost function LastHeir(log: seq<Entry>, k: nat): (r: nat)
    requires Chained(log) && k < |log|
    ensures k <= r < |log| && !log[r].fate.Replaced?
    decreases |log| - k
  {
    if log[k].fate.Replaced? then LastHeir(log, log[k].fate.heir) else k
  }

  // ---- how a record changes ----

  /** Entries stay, with their fate if they have met it; only a newer entry takes the place of an older one. */
  ghost predicate Follows(a: seq<Entry>, b: seq<Entry>) {
    && |a| <= |b|
    && forall k | 0 <= k < |a| ::
         && b[k].item == a[k].item && (!a[k].fate.Waits? ==> b[k].fate == a[k].fate)
         && (a[k].fate.Waits? && b[k].fate.Replaced? ==> b[k].fate.heir >= |a|)
  }

  /** Nothing has been abandoned since. */
  ghost predicate Spares(a: seq<Entry>, b: seq<Entry>) {
    forall k | 0 <= k < |b| && b[k].fate.Abandoned? :: k < |a| && a[k].fate.Abandoned?
  }

  /** Nothing has been handed over since. */
  ghost predicate Withholds(a: seq<Entry>, b: seq<Entry>) {
    forall k | 0 <= k < |b| && b[k].fate.HandedOver? :: k < |a| && a[k].fate.HandedOver?
  }

  /** Entries were added, and some gave way to them, and that is all. */
  ghost predicate Extends(a: seq<Entry>, b: seq<Entry>) { Follows(a, b) && Spares(a, b) && Withholds(a, b) }

  lemma FollowsOn(a: seq<Entry>, b: seq<Entry>, c: seq<Entry>)
    requires Follows(a, b) && Follows(b, c)
    ensures Follows(a, c)
    ensures Spares(a, b) && Spares(b, c) ==> Spares(a, c)
    ensures Withholds(a, b) && Withholds(b, c) ==> Withholds(a, c)
  {
    forall k | 0 <= k < |a|
      ensures c[k].item == a[k].item && (!a[k].fate.Waits? ==> c[k].fate == a[k].fate)
      ensures a[k].fate.Waits? && c[k].fate.Replaced? ==> c[k].fate.heir >= |a|
    {
      assert b[k].item == a[k].item;
    }
  }

  // ---- putting an item aside ----

  lemma {:induction false} MarkedAt(log: seq<Entry>, heir: nat, x: Item, views: map<Msg, View>, k: nat)
    requires k < |log|
    ensures Marked(log, heir, x, views)[k]
            == if log[k].fate.Waits? && IsCopy(log[k].item, x, views) then Entry(log[k].item, Replaced(heir, views))
               else log[k]
  {
    hide IsCopy;
    if k > 0 { MarkedAt(log[1..], heir, x, views, k - 1); }
  }

  lemma {:induction false} MarkedWaits(log: seq<Entry>, heir: nat, x: Item, views: map<Msg, View>)
    ensures WaitingIn(Marked(log, heir, x, views)) == Without(WaitingIn(log), x, views)
  {
    hide IsCopy;
    if log != [] {
      MarkedWaits(log[1..], heir, x, views);
      assert Marked(log, heir, x, views)[1..] == Marked(log[1..], heir, x, views);
      var rest := WaitingIn(log[1..]);
      if log[0].fate.Waits? {
        assert WaitingIn(log) == [log[0].item] + rest && ([log[0].item] + rest)[1..] == rest;
      } else {
        assert WaitingIn(log) == rest;
      }
    }
  }

  lemma WaitingCons(e: Entry, log: seq<Entry>)
    ensures WaitingIn([e] + log) == (if e.fate.Waits? then [e.item] else []) + WaitingIn(log)
  {
    assert ([e] + log)[1..] == log;
  }

  lemma {:induction false} WaitingConcat(a: seq<Entry>, b: seq<Entry>)
    ensures WaitingIn(a + b) == WaitingIn(a) + WaitingIn(b)
  {
    hide WaitingIn;
    if a == [] {
      WaitingNothing();
      assert a + b == b;
    } else {
      var rest := a[1..];
      assert a == [a[0]] + rest && a + b == [a[0]] + (rest + b);
      WaitingCons(a[0], rest);
      WaitingCons(a[0], rest + b);
      WaitingConcat(rest, b);
    }
  }

  lemma WaitingNothing()
    ensures WaitingIn([]) == []
  {
  }

  /** What waits changes as the wake-up queue does. */
  lemma NotedWaits(log: seq<Entry>, x: Item, views: map<Msg, View>)
    ensures WaitingIn(Noted(log, x, views)) == Without(WaitingIn(log), x, views) + [x]
  {
    hide IsCopy, Without;
    MarkedWaits(log, |log|, x, views);
    WaitingConcat(Marked(log, |log|, x, views), [Entry(x, Waits)]);
  }

  lemma NotedChained(log: seq<Entry>, x: Item, views: map<Msg, View>)
    requires Chained(log)
    ensures Chained(Noted(log, x, views)) && Extends(log, Noted(log, x, views))
  {
    hide IsCopy;
    var noted := Noted(log, x, views);
    forall k | 0 <= k < |log|
      ensures noted[k] == if log[k].fate.Waits? && IsCopy(log[k].item, x, views)
                          then Entry(log[k].item, Replaced(|log|, views)) else log[k]
    {
      MarkedAt(log, |log|, x, views, k);
    }
    assert noted[|log|] == Entry(x, Waits);
  }

  lemma {:induction false} NotedAllExtends(log: seq<Entry>, items: seq<Item>, views: map<Msg, View>)
    requires Chained(log)
    ensures Chained(NotedAll(log, items, views)) && Extends(log, NotedAll(log, items, views))
    decreases |items|
  {
    hide IsCopy, Chained, Noted;
    if items != [] {
      var next := Noted(log, items[0], views);
      NotedChained(log, items[0], views);
      NotedAllExtends(next, items[1..], views);
      FollowsOn(log, next, NotedAll(next, items[1..], views));
    }
  }

  lemma {:induction false} NotedAllWaits(log: seq<Entry>, items: seq<Item>, views: map<Msg, View>)
    ensures WaitingIn(NotedAll(log, items, views)) == QueueAll(WaitingIn(log), items, views)
    decreases |items|
  {
    hide IsCopy, Without, Noted;
    if items != [] {
      NotedWaits(log, items[0], views);
      NotedAllWaits(Noted(log, items[0], views), items[1..], views);
    }
  }

  /** The items put aside are the new entries, in order. */
  lemma {:induction false} NotedAllItems(log: seq<Entry>, items: seq<Item>, views: map<Msg, View>, k: nat)
    requires Chained(log) && k < |items|
    ensures |NotedAll(log, items, views)| == |log| + |items|
    ensures NotedAll(log, items, views)[|log| + k].item == items[k]
    decreases |items|
  {
    hide IsCopy, Chained;
    var next, rest := Noted(log, items[0], views), items[1..];
    NotedChained(log, items[0], views);
    NotedAllExtends(next, rest, views);
    if k > 0 {
      NotedAllItems(next, rest, views, k - 1);
    } else if rest != [] {
      NotedAllItems(next, rest, views, 0);
    }
  }

  lemma {:induction false} NotedAllConcat(log: seq<Entry>, a: seq<Item>, b: seq<Item>, views: map<Msg, View>)
    ensures NotedAll(log, a + b, views) == NotedAll(NotedAll(log, a, views), b, views)
    decreases |a|
  {
    hide Noted;
    if a == [] {
      assert a + b == b;
    } else {
      assert (a + b)[1..] == a[1..] + b;
      NotedAllConcat(Noted(log, a[0], views), a[1..], b, views);
    }
  }

  lemma NoteOne(log: seq<Entry>, x: Item, views: map<Msg, View>)
    ensures NotedAll(log, [x], views) == Noted(log, x, views) && NotedAll(log, [], views) == log
  {
    hide Noted;
  }

  lemma Associate<T>(a: seq<T>, b: seq<T>, c: seq<T>)
    ensures a + (b + c) == a + b + c && a + [] == a
  {
  }

  /** What is kept of a list, one item at a time. */
  lemma KeptStep(done: seq<Item>, s: seq<Item>, node: NodeId, views: map<Msg, View>)
    requires s != []
    ensures
      var next := if NodeOf(s[0]) != node || Disposable(s[0], views) then [] else [s[0]];
      done + Kept(s, node, views) == done + next + Kept(s[1..], node, views)
    ensures NodeOf(s[0]) != node ==> done + Kept(s, node, views) == done + Kept(s[1..], node, views)
  {
    var next := if NodeOf(s[0]) != node || Disposable(s[0], views) then [] else [s[0]];
    var rest := Kept(s[1..], node, views);
    assert Kept(s, node, views) == next + rest;
    hide *;
    Associate(done, next, rest);
  }

  lemma KeptOfAllStep(done: seq<Item>, queues: seq<seq<Item>>, i: nat, node: NodeId, views: map<Msg, View>)
    requires i < |queues|
    ensures done + KeptOfAll(queues[i..], node, views)
            == done + Kept(queues[i], node, views) + KeptOfAll(queues[i + 1..], node, views)
  {
    hide Kept;
    assert queues[i..][1..] == queues[i + 1..];
    Associate(done, Kept(queues[i], node, views), KeptOfAll(queues[i + 1..], node, views));
  }

  lemma KeptOfAllEnd(done: seq<Item>, queues: seq<seq<Item>>, node: NodeId, views: map<Msg, View>)
    requires queues == []
    ensures done + KeptOfAll(queues, node, views) == done
  {
  }

  // ---- waking up, and the end of a node ----

  lemma {:induction false} ClosedAt(log: seq<Entry>, fate: Fate, k: nat)
    requires k < |log|
    ensures Closed(log, fate)[k] == if log[k].fate.Waits? then Entry(log[k].item, fate) else log[k]
  {
    if k > 0 { ClosedAt(log[1..], fate, k - 1); }
  }

  lemma {:induction false} ClosedWaits(log: seq<Entry>, fate: Fate)
    requires !fate.Waits?
    ensures WaitingIn(Closed(log, fate)) == []
  {
    if log != [] {
      ClosedWaits(log[1..], fate);
      assert Closed(log, fate)[1..] == Closed(log[1..], fate);
    }
  }

  lemma ClosedFollows(log: seq<Entry>, fate: Fate)
    requires Chained(log) && (fate.HandedOver? || fate.Abandoned?)
    ensures Chained(Closed(log, fate)) && Follows(log, Closed(log, fate))
    ensures fate.HandedOver? ==> Spares(log, Closed(log, fate))
    ensures fate.Abandoned? ==> Withholds(log, Closed(log, fate))
  {
    hide IsCopy;
    forall k | 0 <= k < |log|
      ensures Closed(log, fate)[k] == if log[k].fate.Waits? then Entry(log[k].item, fate) else log[k]
    {
      ClosedAt(log, fate, k);
    }
  }

  lemma {:induction false} HandedFirstWaits(log: seq<Entry>)
    requires WaitingIn(log) != []
    ensures WaitingIn(HandedFirst(log)) == WaitingIn(log)[1..]
    ensures Closed(HandedFirst(log), HandedOver) == Closed(log, HandedOver)
  {
    if !log[0].fate.Waits? {
      HandedFirstWaits(log[1..]);
      assert HandedFirst(log)[1..] == HandedFirst(log[1..]);
    } else {
      assert HandedFirst(log)[1..] == log[1..];
    }
  }

  lemma {:induction false} HandedFirstAt(log: seq<Entry>, k: nat)
    requires k < |log|
    ensures HandedFirst(log)[k].item == log[k].item
    ensures HandedFirst(log)[k].fate == log[k].fate || (log[k].fate.Waits? && HandedFirst(log)[k].fate.HandedOver?)
  {
    if !log[0].fate.Waits? && k > 0 { HandedFirstAt(log[1..], k - 1); }
  }

  lemma HandedFirstChained(log: seq<Entry>)
    requires Chained(log)
    ensures Chained(HandedFirst(log))
  {
    hide IsCopy;
    forall k | 0 <= k < |log|
      ensures HandedFirst(log)[k].item == log[k].item
      ensures HandedFirst(log)[k].fate == log[k].fate || (log[k].fate.Waits? && HandedFirst(log)[k].fate.HandedOver?)
    {
      HandedFirstAt(log, k);
    }
  }

  lemma {:induction false} NoneWaits(log: seq<Entry>)
    requires WaitingIn(log) == []
    ensures forall k | 0 <= k < |log| :: !log[k].fate.Waits?
    ensures Closed(log, HandedOver) == log
  {
    if log != [] {
      NoneWaits(log[1..]);
      assert forall k | 1 <= k < |log| :: log[k] == log[1..][k - 1];
    }
  }

  lemma {:induction false} EntryWaits(log: seq<Entry>, k: nat)
    requires k < |log| && log[k].fate.Waits?
    ensures log[k].item in WaitingIn(log)
  {
    if k > 0 { EntryWaits(log[1..], k - 1); }
  }

  // ---- nothing is forgotten ----

  /** What waited at some time, or was put aside later, at a later time: if nothing
      waits any more, the last to take its place was handed over, or abandoned. */
  lemma {:induction false} FateOf(before: seq<Entry>, after: seq<Entry>, k: nat)
    requires Chained(before) && Chained(after) && Follows(before, after) && WaitingIn(after) == []
    requires k < |after| && (k < |before| ==> before[k].fate.Waits?)
    ensures
      var fate := after[LastHeir(after, k)].fate;
      fate.HandedOver? || (fate.Abandoned? && !Spares(before, after))
    decreases |after| - k
  {
    hide IsCopy;
    NoneWaits(after);
    if after[k].fate.Replaced? {
      FateOf(before, after, after[k].fate.heir);
    }
  }

  /** If the node neither woke up nor was replaced in between, the last to take its
      place still waits. */
  lemma {:induction false} StillWaits(before: seq<Entry>, after: seq<Entry>, k: nat)
    requires Chained(before) && Chained(after) && Extends(before, after)
    requires k < |after| && (k < |before| ==> before[k].fate.Waits?)
    ensures after[LastHeir(after, k)].fate.Waits? && after[LastHeir(after, k)].item in WaitingIn(after)
    decreases |after| - k
  {
    hide IsCopy;
    if after[k].fate.Replaced? {
      StillWaits(before, after, after[k].fate.heir);
    } else {
      EntryWaits(after, k);
    }
  }

  /** Being handed over changes neither the chains nor their ends. */
  lemma {:induction false} SameHeir(log: seq<Entry>, k: nat)
    requires Chained(log) && Chained(Closed(log, HandedOver)) && k < |log|
    ensures LastHeir(Closed(log, HandedOver), k) == LastHeir(log, k)
    decreases |log| - k
  {
    hide IsCopy, Closed;
    ClosedAt(log, HandedOver, k);
    if log[k].fate.Replaced? { SameHeir(log, log[k].fate.heir); }
  }

  /** An item gives way exactly if one of those that follow it is its copy. */
  lemma {:induction false} GivesWayIff(log: seq<Entry>, items: seq<Item>, views: map<Msg, View>, k: nat)
    requires Chained(log) && k < |items|
    ensures
      var after := NotedAll(log, items, views);
      && |after| == |log| + |items|
      && (after[|log| + k].fate.Waits? <==> forall j | k < j < |items| :: !IsCopy(items[k], items[j], views))
    decreases |items|
  {
    hide IsCopy, Chained;
    var next, rest := Noted(log, items[0], views), items[1..];
    NotedChained(log, items[0], views);
    if k > 0 {
      GivesWayIff(next, rest, views, k - 1);
      assert forall j | k < j < |items| :: items[j] == rest[j - 1];
      assert forall j | k - 1 < j < |rest| :: rest[j] == items[j + 1];
    } else {
      OldGivesWayIff(next, rest, views, |log|);
      assert forall j | 0 < j < |items| :: items[j] == rest[j - 1];
      assert forall j | 0 <= j < |rest| :: rest[j] == items[j + 1];
    }
  }

  lemma {:induction false} OldGivesWayIff(log: seq<Entry>, items: seq<Item>, views: map<Msg, View>, k: nat)
    requires Chained(log) && k < |log| && log[k].fate.Waits?
    ensures
      var after := NotedAll(log, items, views);
      && |after| == |log| + |items|
      && (after[k].fate.Waits? <==> forall j | 0 <= j < |items| :: !IsCopy(log[k].item, items[j], views))
    decreases |items|
  {
    hide IsCopy, Chained;
    if items != [] {
      var next, rest := Noted(log, items[0], views), items[1..];
      NotedChained(log, items[0], views);
      NotedAllExtends(next, rest, views);
      MarkedAt(log, |log|, items[0], views, k);
      NotedAllLength(next, rest, views);
      if !IsCopy(log[k].item, items[0], views) {
        OldGivesWayIff(next, rest, views, k);
        assert forall j | 0 < j < |items| :: items[j] == rest[j - 1];
        assert forall j | 0 <= j < |rest| :: rest[j] == items[j + 1];
      }
    }
  }

  lemma {:induction false} NotedAllLength(log: seq<Entry>, items: seq<Item>, views: map<Msg, View>)
    ensures |NotedAll(log, items, views)| == |log| + |items|
    decreases |items|
  {
    hide Noted, Marked;
    if items != [] { NotedAllLength(Noted(log, items[0], views), items[1..], views); }
  }

  // ---- the records of all nodes ----

  function At<T>(m: map<NodeId, seq<T>>, n: NodeId): seq<T> { if n in m then m[n] else [] }

  /** What waits for each node is what its record says, in order. */
  ghost predicate Recorded(pending: map<NodeId, seq<Item>>, logs: map<NodeId, seq<Entry>>) {
    forall n: NodeId :: At(pending, n) == WaitingIn(At(logs, n)) && Chained(At(logs, n))
  }

  /** Every record was only added to, but perhaps that of one node. */
  ghost predicate AllExtend(before: map<NodeId, seq<Entry>>, after: map<NodeId, seq<Entry>>) {
    forall n: NodeId :: Extends(At(before, n), At(after, n))
  }

  lemma RecordedNext(pending: map<NodeId, seq<Item>>, logs: map<NodeId, seq<Entry>>, node: NodeId, x: Item,
                     views: map<Msg, View>)
    requires Recorded(pending, logs)
    ensures
      var next := logs[node := Noted(At(logs, node), x, views)];
      Recorded(pending[node := Without(At(pending, node), x, views) + [x]], next) && AllExtend(logs, next)
  {
    hide Noted, Without, WaitingIn, Chained, Extends;
    NotedWaits(At(logs, node), x, views);
    NotedChained(At(logs, node), x, views);
    var next := logs[node := Noted(At(logs, node), x, views)];
    forall n: NodeId ensures Extends(At(logs, n), At(next, n)) {
      if n != node { ExtendsSelf(At(logs, n)); }
    }
  }

  lemma ExtendsSelf(log: seq<Entry>)
    ensures Extends(log, log)
  {
  }

  lemma RecordedHanded(pending: map<NodeId, seq<Item>>, logs: map<NodeId, seq<Entry>>, node: NodeId)
    requires Recorded(pending, logs) && At(pending, node) != []
    ensures
      var waiting, next := pending[node := At(pending, node)[1..]], logs[node := HandedFirst(At(logs, node))];
      Recorded(waiting, next) && PartlyHanded(pending, logs, waiting, next, node)
  {
    hide HandedFirst, WaitingIn, Chained, Closed;
    assert At(pending, node) == WaitingIn(At(logs, node));
    HandedFirstWaits(At(logs, node));
    HandedFirstChained(At(logs, node));
    var waiting, next := pending[node := At(pending, node)[1..]], logs[node := HandedFirst(At(logs, node))];
    forall n: NodeId ensures At(waiting, n) == WaitingIn(At(next, n)) && Chained(At(next, n)) {
      if n != node { assert At(waiting, n) == At(pending, n) && At(next, n) == At(logs, n); }
    }
  }

  lemma RecordedAbandoned(pending: map<NodeId, seq<Item>>, logs: map<NodeId, seq<Entry>>, node: NodeId)
    requires Recorded(pending, logs)
    ensures Recorded(pending - {node}, logs[node := Closed(At(logs, node), Abandoned)])
  {
    hide Closed, WaitingIn, Chained;
    assert Chained(At(logs, node)) by { assert At(pending, node) == WaitingIn(At(logs, node)); }
    ClosedFollows(At(logs, node), Abandoned);
    ClosedWaits(At(logs, node), Abandoned);
    var waiting, next := pending - {node}, logs[node := Closed(At(logs, node), Abandoned)];
    forall n: NodeId ensures At(waiting, n) == WaitingIn(At(next, n)) && Chained(At(next, n)) {
      if n != node { assert At(waiting, n) == At(pending, n) && At(next, n) == At(logs, n); }
    }
  }

  // ---- steps of the records ----

  /** The items were put aside for the node, one after the other. */
  ghost predicate PutAside(before: map<NodeId, seq<Item>>, logs: map<NodeId, seq<Entry>>,
                           pending: map<NodeId, seq<Item>>, next: map<NodeId, seq<Entry>>,
                           node: NodeId, items: seq<Item>, views: map<Msg, View>)
  {
    && pending - {node} == before - {node} && next - {node} == logs - {node}
    && At(next, node) == NotedAll(At(logs, node), items, views)
  }

  lemma NonePutAside(pending: map<NodeId, seq<Item>>, logs: map<NodeId, seq<Entry>>, node: NodeId,
                     views: map<Msg, View>)
    ensures PutAside(pending, logs, pending, logs, node, [], views)
  {
  }

  lemma OnePutAside(pending: map<NodeId, seq<Item>>, logs: map<NodeId, seq<Entry>>, node: NodeId, x: Item,
                    views: map<Msg, View>)
    ensures PutAside(pending, logs, pending[node := Without(At(pending, node), x, views) + [x]],
                     logs[node := Noted(At(logs, node), x, views)], node, [x], views)
  {
    hide Noted, Without;
    NoteOne(At(logs, node), x, views);
  }

  lemma BothPutAside(before: map<NodeId, seq<Item>>, logs: map<NodeId, seq<Entry>>,
                     between: map<NodeId, seq<Item>>, noted: map<NodeId, seq<Entry>>,
                     pending: map<NodeId, seq<Item>>, next: map<NodeId, seq<Entry>>,
                     node: NodeId, a: seq<Item>, b: seq<Item>, views: map<Msg, View>)
    requires PutAside(before, logs, between, noted, node, a, views)
    requires PutAside(between, noted, pending, next, node, b, views)
    ensures PutAside(before, logs, pending, next, node, a + b, views)
  {
    hide NotedAll;
    NotedAllConcat(At(logs, node), a, b, views);
  }

  /** The wake-up queue and the records after putting items aside. */
  lemma AsideExtends(before: map<NodeId, seq<Item>>, logs: map<NodeId, seq<Entry>>,
                     pending: map<NodeId, seq<Item>>, next: map<NodeId, seq<Entry>>,
                     node: NodeId, items: seq<Item>, views: map<Msg, View>)
    requires Recorded(before, logs) && Recorded(pending, next)
    requires PutAside(before, logs, pending, next, node, items, views)
    ensures AllExtend(logs, next) && At(pending, node) == QueueAll(At(before, node), items, views)
  {
    hide NotedAll, QueueAll, WaitingIn, Chained, Extends;
    assert At(before, node) == WaitingIn(At(logs, node)) && At(pending, node) == WaitingIn(At(next, node));
    NotedAllWaits(At(logs, node), items, views);
    NotedAllExtends(At(logs, node), items, views);
    forall n: NodeId ensures Extends(At(logs, n), At(next, n)) {
      if n != node {
        SameElsewhere(logs, next, node, n);
        ExtendsSelf(At(logs, n));
      }
    }
  }

  lemma SameElsewhere<T>(a: map<NodeId, seq<T>>, b: map<NodeId, seq<T>>, node: NodeId, n: NodeId)
    requires a - {node} == b - {node} && n != node
    ensures At(a, n) == At(b, n)
  {
    assert n in a - {node} <==> n in b - {node};
    assert n in a ==> a[n] == (a - {node})[n];
    assert n in b ==> b[n] == (b - {node})[n];
  }

  /** Some of what waited for the node was handed over. */
  ghost predicate PartlyHanded(before: map<NodeId, seq<Item>>, logs: map<NodeId, seq<Entry>>,
                               pending: map<NodeId, seq<Item>>, next: map<NodeId, seq<Entry>>, node: NodeId)
  {
    && pending - {node} == before - {node} && next - {node} == logs - {node}
    && Closed(At(next, node), HandedOver) == Closed(At(logs, node), HandedOver)
  }

  /** Everything that waited for the node was handed over. */
  ghost predicate AllHanded(before: map<NodeId, seq<Item>>, logs: map<NodeId, seq<Entry>>,
                            pending: map<NodeId, seq<Item>>, next: map<NodeId, seq<Entry>>, node: NodeId)
  {
    && pending - {node} == before - {node} && next - {node} == logs - {node} && At(pending, node) == []
    && At(next, node) == Closed(At(logs, node), HandedOver)
  }

  lemma NoneHanded(pending: map<NodeId, seq<Item>>, logs: map<NodeId, seq<Entry>>, node: NodeId)
    ensures PartlyHanded(pending, logs, pending, logs, node)
  {
  }

  lemma BothHanded(before: map<NodeId, seq<Item>>, logs: map<NodeId, seq<Entry>>,
                   between: map<NodeId, seq<Item>>, noted: map<NodeId, seq<Entry>>,
                   pending: map<NodeId, seq<Item>>, next: map<NodeId, seq<Entry>>, node: NodeId)
    requires PartlyHanded(before, logs, between, noted, node) && PartlyHanded(between, noted, pending, next, node)
    ensures PartlyHanded(before, logs, pending, next, node)
  {
  }

  lemma AllAreHanded(before: map<NodeId, seq<Item>>, logs: map<NodeId, seq<Entry>>,
                     pending: map<NodeId, seq<Item>>, next: map<NodeId, seq<Entry>>, node: NodeId)
    requires PartlyHanded(before, logs, pending, next, node) && Recorded(pending, next) && At(pending, node) == []
    ensures AllHanded(before, logs, pending, next, node)
  {
    hide Closed, WaitingIn, Chained;
    assert At(pending, node) == WaitingIn(At(next, node));
    NoneWaits(At(next, node));
  }

  /** How the records of a run change: only nodes that woke up had something handed
      over, and only nodes that were replaced or removed had something abandoned. */
  ghost predicate LogsGo(before: map<NodeId, seq<Entry>>, after: map<NodeId, seq<Entry>>, woken: set<NodeId>,
                         ended: set<NodeId>)
  {
    forall n: NodeId :: LogGoes(At(before, n), At(after, n), n in woken, n in ended)
  }

  ghost predicate LogGoes(a: seq<Entry>, b: seq<Entry>, woken: bool, ended: bool) {
    Follows(a, b) && (woken || Withholds(a, b)) && (ended || Spares(a, b))
  }

  lemma LogsGoOn(a: map<NodeId, seq<Entry>>, b: map<NodeId, seq<Entry>>, c: map<NodeId, seq<Entry>>,
                 woken: set<NodeId>, ended: set<NodeId>, wokenNext: set<NodeId>, endedNext: set<NodeId>)
    requires LogsGo(a, b, woken, ended) && LogsGo(b, c, wokenNext, endedNext)
    ensures LogsGo(a, c, woken + wokenNext, ended + endedNext)
  {
    hide Follows, Withholds, Spares;
    forall n: NodeId
      ensures LogGoes(At(a, n), At(c, n), n in woken + wokenNext, n in ended + endedNext)
    {
      assert LogGoes(At(a, n), At(b, n), n in woken, n in ended);
      assert LogGoes(At(b, n), At(c, n), n in wokenNext, n in endedNext);
      FollowsOn(At(a, n), At(b, n), At(c, n));
    }
  }

  lemma ExtendingGoes(before: map<NodeId, seq<Entry>>, after: map<NodeId, seq<Entry>>)
    requires AllExtend(before, after)
    ensures LogsGo(before, after, {}, {})
  {
    hide Follows, Withholds, Spares;
    forall n: NodeId ensures LogGoes(At(before, n), At(after, n), false, false) {
      assert Extends(At(before, n), At(after, n));
    }
  }

  lemma WakingGoes(before: map<NodeId, seq<Item>>, logs: map<NodeId, seq<Entry>>,
                   pending: map<NodeId, seq<Item>>, next: map<NodeId, seq<Entry>>, node: NodeId)
    requires Recorded(before, logs) && AllHanded(before, logs, pending, next, node)
    ensures LogsGo(logs, next, {node}, {})
  {
    hide Follows, Withholds, Spares, Closed, WaitingIn, Chained;
    assert At(before, node) == WaitingIn(At(logs, node)) && Chained(At(logs, node));
    ClosedFollows(At(logs, node), HandedOver);
    forall n: NodeId ensures LogGoes(At(logs, n), At(next, n), n in {node}, n in {}) {
      if n != node {
        SameElsewhere(logs, next, node, n);
        SelfGoes(At(logs, n));
      }
    }
  }

  lemma EndingGoes(pending: map<NodeId, seq<Item>>, logs: map<NodeId, seq<Entry>>, node: NodeId)
    requires Recorded(pending, logs)
    ensures LogsGo(logs, logs[node := Closed(At(logs, node), Abandoned)], {}, {node})
  {
    hide Follows, Withholds, Spares, Closed, WaitingIn, Chained;
    assert At(pending, node) == WaitingIn(At(logs, node)) && Chained(At(logs, node));
    ClosedFollows(At(logs, node), Abandoned);
    var next := logs[node := Closed(At(logs, node), Abandoned)];
    forall n: NodeId ensures LogGoes(At(logs, n), At(next, n), n in {}, n in {node}) {
      if n != node {
        assert At(next, n) == At(logs, n);
        SelfGoes(At(logs, n));
      }
    }
  }

  lemma SelfGoes(log: seq<Entry>)
    ensures LogGoes(log, log, false, false)
  {
  }

  lemma SelfExtends(logs: map<NodeId, seq<Entry>>)
    ensures AllExtend(logs, logs)
  {
  }
}

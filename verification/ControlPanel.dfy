/** The control panel: the server keeps a registry of nodes with flags for what
    changed, each poll sends the changes, and the browser applies them to its own
    copy. Each notification and each poll is one step; one browser polls. */
module ControlPanel {
  import opened JsonNumber

  const MAX_NODES: nat := 255

  /** What the browser is shown of a node. */
  datatype Content = Content(time: nat, values: seq<nat>)

  /** An entry of the registry, by value. */
  datatype Slot = Free | Taken(changed: bool, content: Content)

  /** The answer to a poll: the removed ids, joined by commas, and the changed nodes. */
  datatype Element = Element(id: string, content: Content)
  datatype Message = Message(hasRemove: bool, remove: string, nodes: seq<Element>)

  // ---- counting ----

  function Live(slots: seq<Slot>): nat {
    if slots == [] then 0 else Live(slots[..|slots| - 1]) + if slots[|slots| - 1].Taken? then 1 else 0
  }

  predicate IsChanged(s: Slot) { s.Taken? && s.changed }

  function ChangedCount(slots: seq<Slot>): nat {
    if slots == [] then 0 else ChangedCount(slots[..|slots| - 1]) + if IsChanged(slots[|slots| - 1]) then 1 else 0
  }

  lemma {:induction false} LiveUpdate(slots: seq<Slot>, i: nat, s: Slot)
    requires i < |slots|
    ensures Live(slots[i := s]) == Live(slots) - (if slots[i].Taken? then 1 else 0) + (if s.Taken? then 1 else 0)
  {
    var n := |slots| - 1;
    if i == n {
      assert slots[i := s][..n] == slots[..n];
    } else {
      assert slots[i := s][..n] == slots[..n][i := s];
      LiveUpdate(slots[..n], i, s);
    }
  }

  /** A part of the slots that has as many changed nodes as there are live ones has them all. */
  lemma {:induction false} NoneBehind(slots: seq<Slot>, i: nat)
    requires i <= |slots|
    ensures ChangedCount(slots[..i]) <= ChangedCount(slots) <= Live(slots)
    ensures ChangedCount(slots[..i]) == ChangedCount(slots) ==> forall k | i <= k < |slots| :: !IsChanged(slots[k])
    decreases |slots|
  {
    var n := |slots| - 1;
    if slots != [] {
      if i <= n {
        assert slots[..n][..i] == slots[..i];
        NoneBehind(slots[..n], i);
      } else {
        assert slots[..i] == slots;
        NoneBehind(slots[..n], n);
        assert slots[..n][..n] == slots[..n];
      }
    }
  }

  lemma {:induction false} LiveBehind(slots: seq<Slot>, i: nat)
    requires i <= |slots|
    ensures Live(slots[..i]) <= Live(slots)
    ensures Live(slots[..i]) == Live(slots) ==> forall k | i <= k < |slots| :: slots[k].Free?
    decreases |slots|
  {
    var n := |slots| - 1;
    if i <= n {
      assert slots[..n][..i] == slots[..i];
      LiveBehind(slots[..n], i);
    } else {
      assert slots[..i] == slots;
    }
  }

  // ---- the mirror ----

  /** What the browser should show: the live nodes. */
  function Mirror(slots: seq<Slot>): map<string, Content> {
    if slots == [] then map[]
    else
      var n := |slots| - 1;
      if slots[n].Taken? then Mirror(slots[..n])[Decimal(n) := slots[n].content] else Mirror(slots[..n])
  }

  /** The elements for the changed nodes, in the order of the ids. */
  function Updates(slots: seq<Slot>): seq<Element> {
    if slots == [] then []
    else
      var n := |slots| - 1;
      Updates(slots[..n]) + if IsChanged(slots[n]) then [Element(Decimal(n), slots[n].content)] else []
  }

  function Applied(shown: map<string, Content>, elements: seq<Element>): map<string, Content> {
    if elements == [] then shown
    else
      var n := |elements| - 1;
      Applied(shown, elements[..n])[elements[n].id := elements[n].content]
  }

  /** The decimal notations of some ids. */
  function Names(ids: seq<nat>): seq<string> {
    if ids == [] then [] else Names(ids[..|ids| - 1]) + [Decimal(ids[|ids| - 1])]
  }

  lemma DecimalInjective(a: nat, b: nat)
    ensures Decimal(a) == Decimal(b) ==> a == b
  {
    DecimalDenotes(a);
    DecimalDenotes(b);
  }

  lemma {:induction false} MirrorAt(slots: seq<Slot>, i: nat)
    ensures Decimal(i) in Mirror(slots) <==> i < |slots| && slots[i].Taken?
    ensures i < |slots| && slots[i].Taken? ==> Mirror(slots)[Decimal(i)] == slots[i].content
  {
    hide Decimal;
    if slots != [] {
      var n := |slots| - 1;
      MirrorAt(slots[..n], i);
      DecimalInjective(i, n);
    }
  }

  lemma {:induction false} MirrorKeys(slots: seq<Slot>, name: string)
    requires name in Mirror(slots)
    ensures exists i: nat :: i < |slots| && name == Decimal(i)
  {
    hide Decimal;
    var n := |slots| - 1;
    if name != Decimal(n) { MirrorKeys(slots[..n], name); }
  }

  lemma {:induction false} UpdatesAt(slots: seq<Slot>, shown: map<string, Content>, i: nat)
    ensures var after := Applied(shown, Updates(slots));
            if i < |slots| && IsChanged(slots[i]) then Decimal(i) in after && after[Decimal(i)] == slots[i].content
            else (Decimal(i) in after <==> Decimal(i) in shown)
                 && (Decimal(i) in shown ==> after[Decimal(i)] == shown[Decimal(i)])
  {
    hide Decimal;
    if slots != [] {
      var n := |slots| - 1;
      UpdatesAt(slots[..n], shown, i);
      DecimalInjective(i, n);
      var before := Updates(slots[..n]);
      var last := Element(Decimal(n), if IsChanged(slots[n]) then slots[n].content else Content(0, []));
      assert (before + [last])[..|before|] == before;
      assert before + [] == before;
    }
  }

  lemma {:induction false} UpdatesKeys(slots: seq<Slot>, shown: map<string, Content>, name: string)
    requires name in Applied(shown, Updates(slots)) && name !in shown
    ensures exists i: nat :: i < |slots| && name == Decimal(i)
  {
    hide Decimal;
    var n := |slots| - 1;
    var before := Updates(slots[..n]);
    var last := Element(Decimal(n), if IsChanged(slots[n]) then slots[n].content else Content(0, []));
    assert (before + [last])[..|before|] == before;
    assert before + [] == before;
    if name != Decimal(n) { UpdatesKeys(slots[..n], shown, name); }
  }

  // ---- synchronisation ----

  /** Between polls: what the browser shows is current for every node that is not
      flagged, and whatever else it shows is live or about to be removed. */
  ghost predicate InSync(slots: seq<Slot>, removed: seq<nat>, shown: map<string, Content>) {
    && (forall i: nat | i < |slots| && slots[i].Taken? && !slots[i].changed ::
          i !in removed && Decimal(i) in shown && shown[Decimal(i)] == slots[i].content)
    && (forall name | name in shown :: KnownName(slots, removed, name))
  }

  ghost predicate KnownName(slots: seq<Slot>, removed: seq<nat>, name: string) {
    exists i: nat :: name == Decimal(i) && (i in removed || (i < |slots| && slots[i].Taken?))
  }

  /** All nodes with the same flag. */
  function Flagged(slots: seq<Slot>, ch: bool): (r: seq<Slot>)
    ensures |r| == |slots| && forall i | 0 <= i < |slots| ::
              r[i] == if slots[i].Taken? then slots[i].(changed := ch) else Free
  {
    seq(|slots|, i requires 0 <= i < |slots| => if slots[i].Taken? then slots[i].(changed := ch) else Free)
  }

  lemma {:induction false} NamesIn(ids: seq<nat>, i: nat)
    ensures Decimal(i) in Names(ids) <==> i in ids
  {
    hide Decimal;
    if ids != [] {
      var n := |ids| - 1;
      NamesIn(ids[..n], i);
      DecimalInjective(i, ids[n]);
      assert ids == ids[..n] + [ids[n]];
    }
  }

  /** A poll leaves the browser with exactly the live nodes, as they are now. */
  lemma PollSynchronises(slots: seq<Slot>, removed: seq<nat>, shown: map<string, Content>)
    requires InSync(slots, removed, shown)
    ensures Applied(shown - (set name | name in Names(removed)), Updates(slots)) == Mirror(slots)
  {
    hide Decimal, Names, Updates, Mirror, Applied;
    var left := shown - (set name | name in Names(removed));
    var after := Applied(left, Updates(slots));
    forall name ensures name in after <==> name in Mirror(slots)
                ensures name in after && name in Mirror(slots) ==> after[name] == Mirror(slots)[name]
    {
      if name in after || name in Mirror(slots) {
        NameIsNumber(slots, removed, shown, left, name);
        var i: nat :| name == Decimal(i) && (name in shown ==> i in removed || (i < |slots| && slots[i].Taken?));
        UpdatesAt(slots, left, i);
        MirrorAt(slots, i);
        NamesIn(removed, i);
      }
    }
  }

  lemma NameIsNumber(slots: seq<Slot>, removed: seq<nat>, shown: map<string, Content>, left: map<string, Content>,
                     name: string)
    requires InSync(slots, removed, shown) && left.Keys <= shown.Keys
    requires name in Applied(left, Updates(slots)) || name in Mirror(slots)
    ensures exists i: nat :: name == Decimal(i) && (name in shown ==> i in removed || (i < |slots| && slots[i].Taken?))
  {
    hide Decimal, Updates, Mirror, Applied;
    if name in shown {
      assert KnownName(slots, removed, name);
    } else if name in Mirror(slots) {
      MirrorKeys(slots, name);
    } else {
      UpdatesKeys(slots, left, name);
    }
  }

  /** After a poll nothing is flagged. */
  lemma SyncedAfterPoll(slots: seq<Slot>)
    ensures InSync(Flagged(slots, false), [], Mirror(slots)) && Mirror(Flagged(slots, false)) == Mirror(slots)
  {
    hide Decimal, Mirror;
    forall i: nat | i < |slots| && slots[i].Taken?
      ensures Decimal(i) in Mirror(slots) && Mirror(slots)[Decimal(i)] == slots[i].content
    {
      MirrorAt(slots, i);
    }
    forall name | name in Mirror(slots) ensures KnownName(Flagged(slots, false), [], name) {
      MirrorKeys(slots, name);
      var i: nat :| i < |slots| && name == Decimal(i);
      MirrorAt(slots, i);
    }
    SameMirror(slots);
  }

  lemma {:induction false} SameMirror(slots: seq<Slot>)
    ensures Mirror(Flagged(slots, false)) == Mirror(slots)
  {
    hide Decimal;
    if slots != [] {
      var n := |slots| - 1;
      SameMirror(slots[..n]);
      assert Flagged(slots, false)[..n] == Flagged(slots[..n], false);
    }
  }

  /** A node that is added, replaced or changed is flagged. */
  lemma SyncedAfterChange(slots: seq<Slot>, removed: seq<nat>, shown: map<string, Content>, i: nat, content: Content)
    requires InSync(slots, removed, shown) && i < |slots|
    ensures InSync(slots[i := Taken(true, content)], removed, shown)
  {
    hide Decimal;
    forall name | name in shown ensures KnownName(slots[i := Taken(true, content)], removed, name) {
      assert KnownName(slots, removed, name);
    }
  }

  /** A node that is removed is put on the list. */
  lemma SyncedAfterRemove(slots: seq<Slot>, removed: seq<nat>, shown: map<string, Content>, i: nat)
    requires InSync(slots, removed, shown) && i < |slots|
    ensures InSync(slots[i := Free], removed + [i], shown)
  {
    hide Decimal;
    forall name | name in shown ensures KnownName(slots[i := Free], removed + [i], name) {
      assert KnownName(slots, removed, name);
      var k: nat :| name == Decimal(k) && (k in removed || (k < |slots| && slots[k].Taken?));
    }
  }

  // ---- the text of the removed ids ----

  /** Text joined by commas. */
  function Join(names: seq<string>): string
    requires names != []
  {
    var n := |names| - 1;
    if n == 0 then names[0] else Join(names[..n]) + "," + names[n]
  }

  /** `split(',')` */
  function Split(t: string): (pieces: seq<string>)
    ensures pieces != []
  {
    if t == "" then [""]
    else
      var n := |t| - 1;
      var pieces := Split(t[..n]);
      var last := |pieces| - 1;
      if t[n] == ',' then pieces + [""] else pieces[..last] + [pieces[last] + [t[n]]]
  }

  lemma SplitChar(t: string, c: char)
    ensures Split("") == [""]
    ensures var pieces := Split(t);
            Split(t + [c]) == if c == ',' then pieces + [""] else pieces[..|pieces| - 1] + [pieces[|pieces| - 1] + [c]]
  {
    assert (t + [c])[..|t|] == t;
  }

  lemma {:induction false} SplitAppend(t: string, w: string)
    requires ',' !in w
    ensures var pieces := Split(t); Split(t + w) == pieces[..|pieces| - 1] + [pieces[|pieces| - 1] + w]
    decreases |w|
  {
    hide Split;
    var pieces := Split(t);
    var init, last := pieces[..|pieces| - 1], pieces[|pieces| - 1];
    if w == "" {
      assert t + w == t && last + w == last && pieces == init + [last];
    } else {
      var n := |w| - 1;
      SplitAppend(t, w[..n]);
      SplitChar(t + w[..n], w[n]);
      assert t + w == t + w[..n] + [w[n]];
      assert last + w == last + w[..n] + [w[n]];
      assert (init + [last + w[..n]])[..|init|] == init;
    }
  }

  /** The browser recovers the names that the server joined. */
  lemma {:induction false} SplitJoin(names: seq<string>)
    requires names != [] && forall name | name in names :: ',' !in name
    ensures Split(Join(names)) == names
  {
    hide Split;
    var n := |names| - 1;
    assert "" + names[n] == names[n];
    if n == 0 {
      SplitChar("", ',');
      SplitAppend("", names[0]);
      assert [] + [names[0]] == names;
    } else {
      var init := Join(names[..n]);
      SplitJoin(names[..n]);
      SplitChar(init, ',');
      SplitAppend(init + ",", names[n]);
      assert (names[..n] + [""])[..n] == names[..n];
      assert names == names[..n] + [names[n]];
    }
  }

  lemma {:induction false} NamesPlain(ids: seq<nat>)
    ensures |Names(ids)| == |ids|
    ensures forall name | name in Names(ids) :: ',' !in name
  {
    hide Decimal;
    if ids != [] {
      var n := |ids| - 1;
      NamesPlain(ids[..n]);
      DecimalDenotes(ids[n]);
    }
  }

  // ---- the server ----

  class MyNode {
    var mtime: nat
    var values: seq<nat>
    var changed: bool

    constructor (now: nat)
      ensures mtime == now && values == [] && changed
    {
      mtime, values, changed := now, [], true;
    }

    ghost function Slot(): Slot reads this { Taken(changed, Content(mtime, values)) }
  }

  /** The first occurrence of a value is taken out, if there is one. */
  function Without(values: seq<nat>, id: nat): seq<nat> {
    if values == [] then [] else if values[0] == id then values[1..] else [values[0]] + Without(values[1..], id)
  }

  lemma WithoutAt(values: seq<nat>, id: nat, k: nat)
    requires k <= |values|
    ensures k == 0 ==> values[..k] + Without(values[k..], id) == Without(values, id)
    ensures
      var all := values[..k] + Without(values[k..], id);
      if k == |values| then all == values
      else if values[k] == id then all == values[..k] + values[k + 1..]
      else all == values[..k + 1] + Without(values[k + 1..], id)
  {
    assert k == 0 ==> values[..k] == [] && values[k..] == values;
    if k < |values| {
      assert values[k..][1..] == values[k + 1..];
      var rest := Without(values[k + 1..], id);
      assert values[..k] + ([values[k]] + rest) == values[..k + 1] + rest;
    }
  }

  /** Nothing but the first occurrence goes. */
  lemma {:induction false} WithoutFirst(values: seq<nat>, id: nat) returns (k: nat)
    ensures k <= |values| && id !in values[..k]
    ensures if k == |values| then Without(values, id) == values
            else values[k] == id && Without(values, id) == values[..k] + values[k + 1..]
  {
    if values == [] || values[0] == id {
      k := 0;
    } else {
      var tail := values[1..];
      var n := WithoutFirst(tail, id);
      k := n + 1;
      assert values == [values[0]] + tail && values[..k] == [values[0]] + tail[..n];
    }
  }

  /** The static members of `MyNode` and the array of nodes. */
  class Registry {
    const nodes: array<MyNode?>
    var nodecount: nat
    var nodechanged: bool
    var removed: seq<nat>
    /** The nodes by value. */
    ghost var slots: seq<Slot>

    ghost function Objects(): set<MyNode>
      reads nodes
    {
      set i | 0 <= i < nodes.Length && nodes[i] != null :: nodes[i]
    }

    ghost predicate Valid()
      reads this, nodes, Objects()
    {
      && nodes.Length == |slots| == MAX_NODES && Backed()
      && Live(slots) <= nodecount
      && (forall i | 0 <= i < MAX_NODES && IsChanged(slots[i]) :: nodechanged)
    }

    /** The slots describe the objects, which are all different. */
    ghost predicate Backed()
      requires nodes.Length == |slots|
      reads this`slots, nodes, Objects()
    {
      && (forall i | 0 <= i < nodes.Length :: slots[i] == if nodes[i] == null then Free else nodes[i].Slot())
      && (forall i, j | 0 <= i < j < nodes.Length && nodes[i] != null :: nodes[i] != nodes[j])
    }

    constructor ()
      ensures Valid() && fresh(nodes) && removed == [] && forall i | 0 <= i < MAX_NODES :: slots[i] == Free
    {
      nodes := new MyNode?[MAX_NODES](_ => null);
      nodecount, nodechanged, removed := 0, false, [];
      slots := seq(MAX_NODES, _ => Free);
      new;
      NothingLive(slots);
    }

    /** The constructor of `MyNode`: a node number out of range is ignored, and a
        node in the same place is replaced. */
    method Add(ind: int, now: nat)
      requires Valid()
      modifies this, nodes
      ensures Valid() && removed == old(removed)
      ensures slots == if 1 <= ind < MAX_NODES then old(slots)[ind := Taken(true, Content(now, []))] else old(slots)
      ensures fresh(Objects() - old(Objects()))
    {
      if ind < 1 || ind >= MAX_NODES { return; }
      LiveUpdate(slots, ind, Taken(true, Content(now, [])));
      var node := new MyNode(now);
      nodechanged := true;
      nodes[ind] := node;
      nodecount := nodecount + 1;
      slots := slots[ind := Taken(true, Content(now, []))];
    }

    method Remove(ind: int)
      requires Valid()
      modifies this, nodes
      ensures Valid() && Objects() <= old(Objects())
      ensures slots == if 1 <= ind < MAX_NODES then old(slots)[ind := Free] else old(slots)
      ensures removed == old(removed) + if 1 <= ind < MAX_NODES && old(slots)[ind].Taken? then [ind] else []
    {
      if ind < 1 || ind >= MAX_NODES { return; }
      LiveUpdate(slots, ind, Free);
      if nodes[ind] != null {
        removed := removed + [ind];
        nodes[ind] := null;
        CountedLive(slots, ind);
        nodecount := nodecount - 1;
        slots := slots[ind := Free];
      }
    }

    /** `setChanged(true)` after an update of the node. */
    method Touch(i: nat, now: nat, values: seq<nat>)
      requires Valid() && i < MAX_NODES && nodes[i] != null
      modifies this`nodechanged, this`slots, nodes[i]
      ensures Valid() && slots == old(slots)[i := Taken(true, Content(now, values))]
    {
      LiveUpdate(slots, i, Taken(true, Content(now, values)));
      nodes[i].values := values;
      nodes[i].mtime := now;
      nodes[i].changed := true;
      nodechanged := true;
      slots := slots[i := Taken(true, Content(now, values))];
    }

    method AddValue(i: nat, id: nat, now: nat)
      requires Valid() && i < MAX_NODES && nodes[i] != null
      modifies this`nodechanged, this`slots, nodes[i]
      ensures Valid() && slots == old(slots)[i := Taken(true, Content(now, old(nodes[i].values) + [id]))]
    {
      Touch(i, now, nodes[i].values + [id]);
    }

    /** The node counts as changed even when the value is not found. */
    method RemoveValue(i: nat, id: nat, now: nat)
      requires Valid() && i < MAX_NODES && nodes[i] != null
      modifies this`nodechanged, this`slots, nodes[i]
      ensures Valid() && slots == old(slots)[i := Taken(true, Content(now, Without(old(nodes[i].values), id)))]
    {
      var values := RemoveFirst(nodes[i].values, id);
      Touch(i, now, values);
    }

    /** The search of `removeValue`. */
    static method RemoveFirst(values: seq<nat>, id: nat) returns (rest: seq<nat>)
      ensures rest == Without(values, id)
    {
      hide Without;
      var k := 0;
      WithoutAt(values, id, k);
      while k < |values| && values[k] != id
        invariant 0 <= k <= |values|
        invariant Without(values, id) == values[..k] + Without(values[k..], id)
      {
        WithoutAt(values, id, k);
        k := k + 1;
      }
      WithoutAt(values, id, k);
      rest := if k < |values| then values[..k] + values[k + 1..] else values;
    }

    method SaveValue(i: nat, now: nat)
      requires Valid() && i < MAX_NODES && nodes[i] != null
      modifies this`nodechanged, this`slots, nodes[i]
      ensures Valid() && slots == old(slots)[i := Taken(true, Content(now, old(nodes[i].values)))]
    {
      Touch(i, now, nodes[i].values);
    }

    /** Whatever the argument, every node is flagged in the end. */
    method SetAllChanged(ch: bool)
      requires Valid()
      modifies this`nodechanged, this`slots, Objects()`changed
      ensures Valid() && slots == Flagged(old(slots), true)
    {
      hide Live, Backed, Flagged;
      nodechanged := ch;
      var i, j := 0, 1;
      LiveAt(slots, 0);
      FlaggedStart(slots, true);
      while j <= nodecount && i < MAX_NODES
        invariant 0 <= i <= MAX_NODES && nodes.Length == |slots| == MAX_NODES && Backed()
        invariant j - 1 == Live(old(slots)[..i])
        invariant slots == Flagged(old(slots)[..i], true) + old(slots)[i..]
        invariant j == 1 || nodechanged
      {
        NodeAt(i);
        LiveAt(old(slots), i + 1);
        FlaggedNext(old(slots), i, true);
        if nodes[i] != null {
          SetChanged(i, true);
          j := j + 1;
        }
        i := i + 1;
      }
      AllFlagged(old(slots), i);
    }

    lemma NodeAt(i: nat)
      requires nodes.Length == |slots| && Backed() && i < nodes.Length
      ensures slots[i] == if nodes[i] == null then Free else nodes[i].Slot()
    {
    }

    /** `setChanged`: the common flag takes the same value. */
    method SetChanged(i: nat, ch: bool)
      requires nodes.Length == |slots| && i < nodes.Length && nodes[i] != null && Backed()
      modifies this`nodechanged, this`slots, Objects()`changed
      ensures |slots| == old(|slots|) && Backed() && nodechanged == ch
              && slots == old(slots)[i := old(slots)[i].(changed := ch)]
    {
      slots := slots[i := slots[i].(changed := ch)];
      nodes[i].changed := ch;
      nodechanged := ch;
    }

    method GetRemoved() returns (node: nat)
      modifies this`removed
      ensures old(removed) == [] ==> node == 0 && removed == []
      ensures old(removed) != [] ==> node == old(removed[0]) && removed == old(removed[1..])
    {
      if removed == [] { return 0; }
      node := removed[0];
      removed := removed[1..];
    }

    // ---- the answer to a poll ----

    /** The loop that empties the list of removed nodes into a text. */
    method DrainRemoved() returns (text: string)
      requires removed != []
      modifies this`removed
      ensures removed == [] && Names(old(removed)) != [] && text == Join(Names(old(removed)))
    {
      hide Decimal, Names, Join;
      ghost var ids, n := removed, 0;
      text := "";
      while removed != []
        invariant n <= |ids| && removed == ids[n..]
        invariant text == Prefixed(ids[..n], removed != [])
        decreases |removed|
      {
        var node := GetRemoved();
        text := text + Decimal(node);
        if removed != [] { text := text + ","; }
        assert ids[..n + 1] == ids[..n] + [ids[n]];
        PrefixedNext(ids[..n], ids[n], removed != []);
        n := n + 1;
      }
      assert ids[..n] == ids;
      PrefixedAll(ids);
    }

    /** The scan over the nodes, which stops when it has seen as many changed nodes
        as there are nodes. */
    method CollectChanged() returns (elements: seq<Element>)
      requires Valid()
      modifies this`nodechanged, this`slots, Objects()`changed
      ensures Valid() && elements == Updates(old(slots)) && slots == Flagged(old(slots), false)
    {
      hide Live, ChangedCount, Updates, Decimal, Backed, Flagged;
      FlaggedStart(slots, false);
      NoneFlagged(slots, false);
      elements := [];
      UpdatesNext(slots, 0);
      LiveFlagged(slots, false);
      NoneBehind(slots, 0);
      if !nodechanged {
        UpdatesBehind(slots, 0);
        FlaggedRest(slots, 0, false);
        return;
      }
      var i, j := 0, 1;
      while j <= nodecount && i < MAX_NODES
        invariant 0 <= i <= MAX_NODES && nodes.Length == |slots| == MAX_NODES && Backed()
        invariant j - 1 == ChangedCount(old(slots)[..i]) && elements == Updates(old(slots)[..i])
        invariant slots == Flagged(old(slots)[..i], false) + old(slots)[i..]
      {
        NodeAt(i);
        UpdatesNext(old(slots), i);
        FlaggedNext(old(slots), i, false);
        if nodes[i] != null && nodes[i].changed {
          elements := elements + [Element(Decimal(i), Content(nodes[i].mtime, nodes[i].values))];
          SetChanged(i, false);
          j := j + 1;
        }
        i := i + 1;
      }
      NoneBehind(old(slots), i);
      UpdatesBehind(old(slots), i);
      FlaggedRest(old(slots), i, false);
    }

    /** `SendPollResponse`, as far as it is about nodes. */
    method SendPollResponse() returns (message: Message)
      requires Valid()
      modifies this`removed, this`nodechanged, this`slots, Objects()`changed
      ensures Valid() && removed == [] && slots == Flagged(old(slots), false)
      ensures message.nodes == Updates(old(slots)) && message.hasRemove == (old(removed) != [])
      ensures message.hasRemove ==> Names(old(removed)) != [] && message.remove == Join(Names(old(removed)))
    {
      hide Updates, Names, Join, Live, Backed, Flagged;
      var hasRemove, text := removed != [], "";
      if removed != [] { text := DrainRemoved(); }
      var elements := CollectChanged();
      message := Message(hasRemove, text, elements);
    }
  }

  lemma {:induction false} LiveFlagged(slots: seq<Slot>, ch: bool)
    ensures Live(Flagged(slots, ch)) == Live(slots)
  {
    if slots != [] {
      var n := |slots| - 1;
      LiveFlagged(slots[..n], ch);
      assert Flagged(slots, ch)[..n] == Flagged(slots[..n], ch);
    }
  }

  lemma FlaggedStart(slots: seq<Slot>, ch: bool)
    ensures Flagged(slots[..0], ch) + slots[0..] == slots
  {
  }

  /** One more slot has the flag. */
  lemma FlaggedNext(slots: seq<Slot>, i: nat, ch: bool)
    requires i < |slots|
    ensures
      var now := Flagged(slots[..i], ch) + slots[i..];
      var next := Flagged(slots[..i + 1], ch) + slots[i + 1..];
      && |now| == |slots| && now[i] == slots[i]
      && (slots[i].Taken? ==> now[i := slots[i].(changed := ch)] == next)
      && (slots[i].Free? || slots[i].changed == ch ==> now == next)
  {
  }

  lemma FlaggedRest(slots: seq<Slot>, i: nat, ch: bool)
    requires i <= |slots| && forall k | i <= k < |slots| :: slots[k].Free? || slots[k].changed == ch
    ensures Flagged(slots[..i], ch) + slots[i..] == Flagged(slots, ch)
  {
  }

  lemma NoneFlagged(slots: seq<Slot>, ch: bool)
    ensures |Flagged(slots, ch)| == |slots|
    ensures !ch || (forall i | 0 <= i < |slots| :: slots[i].Free?) ==>
              forall i | 0 <= i < |slots| :: !IsChanged(Flagged(slots, ch)[i])
  {
  }

  /** Behind as many live nodes as there are, everything is flagged. */
  lemma AllFlagged(slots: seq<Slot>, i: nat)
    requires i <= |slots| && (i == |slots| || Live(slots[..i]) >= Live(slots))
    ensures Flagged(slots[..i], true) + slots[i..] == Flagged(slots, true)
    ensures |Flagged(slots, true)| == |slots| && Live(Flagged(slots, true)) == Live(slots)
    ensures Live(slots[..i]) == 0 ==> forall k | 0 <= k < |slots| :: !IsChanged(Flagged(slots, true)[k])
  {
    hide Live, Flagged;
    LiveBehind(slots, i);
    FlaggedRest(slots, i, true);
    LiveFlagged(slots, true);
    NoneFlagged(slots, true);
    if Live(slots[..i]) == 0 {
      NoneLive(slots[..i]);
      assert forall k | 0 <= k < i :: slots[k] == slots[..i][k];
    }
  }

  lemma NoneLive(slots: seq<Slot>)
    requires Live(slots) == 0
    ensures forall i | 0 <= i < |slots| :: slots[i].Free?
  {
    LiveBehind(slots, 0);
    assert slots[..0] == [];
  }

  lemma LiveAt(slots: seq<Slot>, i: nat)
    requires i <= |slots|
    ensures Live(slots[..i]) == if i == 0 then 0 else Live(slots[..i - 1]) + if slots[i - 1].Taken? then 1 else 0
  {
    if i > 0 { assert slots[..i][..i - 1] == slots[..i - 1]; }
  }

  lemma UpdatesNext(slots: seq<Slot>, i: nat)
    requires i < |slots|
    ensures Updates(slots[..0]) == [] && ChangedCount(slots[..0]) == 0
    ensures Updates(slots[..i + 1])
            == Updates(slots[..i]) + if IsChanged(slots[i]) then [Element(Decimal(i), slots[i].content)] else []
    ensures ChangedCount(slots[..i + 1]) == ChangedCount(slots[..i]) + if IsChanged(slots[i]) then 1 else 0
  {
    assert slots[..i + 1][..i] == slots[..i];
  }

  lemma {:induction false} UpdatesBehind(slots: seq<Slot>, i: nat)
    requires i <= |slots| && forall k | i <= k < |slots| :: !IsChanged(slots[k])
    ensures Updates(slots[..i]) == Updates(slots)
    decreases |slots|
  {
    if i == |slots| {
      assert slots[..i] == slots;
    } else {
      var n := |slots| - 1;
      assert slots[..n][..i] == slots[..i];
      UpdatesBehind(slots[..n], i);
    }
  }

  /** Names joined so far, with a comma behind them if more follow. */
  function Prefixed(ids: seq<nat>, more: bool): string {
    if ids == [] || Names(ids) == [] then "" else Join(Names(ids)) + if more then "," else ""
  }

  lemma PrefixedNext(ids: seq<nat>, id: nat, more: bool)
    ensures Prefixed(ids + [id], more) == Prefixed(ids, true) + Decimal(id) + if more then "," else ""
  {
    hide Decimal;
    NamesPlain(ids);
    assert (ids + [id])[..|ids|] == ids;
    assert (Names(ids) + [Decimal(id)])[..|ids|] == Names(ids);
  }

  lemma PrefixedAll(ids: seq<nat>)
    requires ids != []
    ensures Names(ids) != [] && Prefixed(ids, false) == Join(Names(ids))
  {
    NamesPlain(ids);
  }

  lemma {:induction false} NothingLive(slots: seq<Slot>)
    requires forall i | 0 <= i < |slots| :: slots[i].Free?
    ensures Live(slots) == 0
  {
    if slots != [] { NothingLive(slots[..|slots| - 1]); }
  }

  lemma {:induction false} CountedLive(slots: seq<Slot>, i: nat)
    requires i < |slots| && slots[i].Taken?
    ensures Live(slots) > 0
  {
    if i < |slots| - 1 { CountedLive(slots[..|slots| - 1], i); }
  }

  // ---- the browser ----

  class Browser {
    /** The copy of the registry that is shown. */
    var nodes: map<string, Content>

    constructor ()
      ensures nodes == map[]
    {
      nodes := map[];
    }

    /** `PollReply`: first the removed nodes, then the changed ones. */
    method PollReply(message: Message)
      modifies this
      ensures nodes
                == Applied(old(nodes) - (set name | message.hasRemove && name in Split(message.remove)), message.nodes)
    {
      if message.hasRemove {
        var names, i := Split(message.remove), 0;
        while i < |names|
          invariant 0 <= i <= |names| && nodes == old(nodes) - set name | name in names[..i]
        {
          assert names[..i + 1] == names[..i] + [names[i]];
          nodes := nodes - {names[i]};
          i := i + 1;
        }
        assert names[..i] == names;
      }
      assert nodes == old(nodes) - (set name | message.hasRemove && name in Split(message.remove));
      Update(message.nodes);
    }

    method Update(elements: seq<Element>)
      modifies this
      ensures nodes == Applied(old(nodes), elements)
    {
      var i := 0;
      while i < |elements|
        invariant 0 <= i <= |elements| && nodes == Applied(old(nodes), elements[..i])
      {
        assert elements[..i + 1][..i] == elements[..i];
        nodes := nodes[elements[i].id := elements[i].content];
        i := i + 1;
      }
      assert elements[..i] == elements;
    }
  }

  /** A browser that shows nothing is served by flagging every node. */
  lemma FreshBrowserInSync(slots: seq<Slot>, removed: seq<nat>)
    ensures InSync(Flagged(slots, true), removed, map[])
  {
  }

  /** Flagging every node does not disturb a browser that already shows some. */
  lemma SyncedAfterFlagging(slots: seq<Slot>, removed: seq<nat>, shown: map<string, Content>)
    requires InSync(slots, removed, shown)
    ensures InSync(Flagged(slots, true), removed, shown)
  {
    hide Decimal;
    forall name | name in shown ensures KnownName(Flagged(slots, true), removed, name) {
      assert KnownName(slots, removed, name);
      var i: nat :| name == Decimal(i) && (i in removed || (i < |slots| && slots[i].Taken?));
    }
  }

  /** The registry starts in step with an empty browser. */
  lemma EmptyInSync(slots: seq<Slot>)
    requires forall i | 0 <= i < |slots| :: slots[i].Free?
    ensures InSync(slots, [], map[])
  {
  }

  // ---- both together ----

  /** The server and the one browser that polls it. The methods are the steps of a
      run: notifications on the server, polls, and a browser that starts anew. */
  class Panel {
    const registry: Registry
    const browser: Browser

    /** In every state between steps, the browser is in step with the server. */
    ghost predicate Valid()
      reads registry, registry.nodes, registry.Objects(), browser
    {
      registry.Valid() && InSync(registry.slots, registry.removed, browser.nodes)
    }

    constructor ()
      ensures Valid() && fresh(registry) && fresh(registry.nodes) && fresh(browser) && browser.nodes == map[]
    {
      registry := new Registry();
      browser := new Browser();
      new;
      EmptyInSync(registry.slots);
    }

    method AddNode(ind: int, now: nat)
      requires Valid()
      modifies registry, registry.nodes
      ensures Valid() && browser.nodes == old(browser.nodes)
      ensures
        registry.slots ==
        if 1 <= ind < MAX_NODES then old(registry.slots)[ind := Taken(true, Content(now, []))] else old(registry.slots)
    {
      hide InSync, Registry.Backed;
      if 1 <= ind < MAX_NODES {
        SyncedAfterChange(registry.slots, registry.removed, browser.nodes, ind, Content(now, []));
      }
      registry.Add(ind, now);
    }

    method RemoveNode(ind: int)
      requires Valid()
      modifies registry, registry.nodes
      ensures Valid() && browser.nodes == old(browser.nodes)
      ensures registry.slots == if 1 <= ind < MAX_NODES then old(registry.slots)[ind := Free] else old(registry.slots)
    {
      hide InSync, Registry.Backed;
      if 1 <= ind < MAX_NODES && registry.slots[ind].Taken? {
        SyncedAfterRemove(registry.slots, registry.removed, browser.nodes, ind);
      } else if 1 <= ind < MAX_NODES {
        assert registry.slots[ind := Free] == registry.slots;
      }
      assert registry.removed + [] == registry.removed;
      registry.Remove(ind);
    }

    method AddValue(i: nat, id: nat, now: nat)
      requires Valid() && i < MAX_NODES && registry.nodes[i] != null
      modifies registry`nodechanged, registry`slots, registry.nodes[i]
      ensures Valid() && browser.nodes == old(browser.nodes)
      ensures registry.slots
                == old(registry.slots)[i := Taken(true, Content(now, old(registry.nodes[i].values) + [id]))]
    {
      hide InSync, Registry.Backed;
      SyncedAfterChange(registry.slots, registry.removed, browser.nodes, i,
        Content(now, registry.nodes[i].values + [id]));
      registry.AddValue(i, id, now);
    }

    method RemoveValue(i: nat, id: nat, now: nat)
      requires Valid() && i < MAX_NODES && registry.nodes[i] != null
      modifies registry`nodechanged, registry`slots, registry.nodes[i]
      ensures Valid() && browser.nodes == old(browser.nodes)
      ensures registry.slots
                == old(registry.slots)[i := Taken(true, Content(now, Without(old(registry.nodes[i].values), id)))]
    {
      hide InSync, Registry.Backed;
      SyncedAfterChange(registry.slots, registry.removed, browser.nodes, i,
        Content(now, Without(registry.nodes[i].values, id)));
      registry.RemoveValue(i, id, now);
    }

    method SaveValue(i: nat, now: nat)
      requires Valid() && i < MAX_NODES && registry.nodes[i] != null
      modifies registry`nodechanged, registry`slots, registry.nodes[i]
      ensures Valid() && browser.nodes == old(browser.nodes)
      ensures registry.slots == old(registry.slots)[i := Taken(true, Content(now, old(registry.nodes[i].values)))]
    {
      hide InSync, Registry.Backed;
      SyncedAfterChange(registry.slots, registry.removed, browser.nodes, i, Content(now, registry.nodes[i].values));
      registry.SaveValue(i, now);
    }

    /** `setAllChanged`, as on opening a connection; `restarted` if the browser has
        lost what it showed. */
    method FlagAll(ch: bool, restarted: bool)
      requires Valid()
      modifies registry`nodechanged, registry`slots, registry.Objects()`changed, browser
      ensures Valid() && registry.slots == Flagged(old(registry.slots), true)
      ensures browser.nodes == if restarted then map[] else old(browser.nodes)
    {
      hide InSync, Registry.Backed, Flagged;
      SyncedAfterFlagging(registry.slots, registry.removed, browser.nodes);
      FreshBrowserInSync(registry.slots, registry.removed);
      registry.SetAllChanged(ch);
      if restarted { browser.nodes := map[]; }
    }

    /** One poll: the browser then shows exactly the live nodes, as they are. */
    method Poll()
      requires Valid()
      modifies registry`removed, registry`nodechanged, registry`slots, registry.Objects()`changed, browser
      ensures Valid() && browser.nodes == Mirror(registry.slots) == Mirror(old(registry.slots))
    {
      hide InSync, Mirror, Applied, Updates, Names, Join, Split, Flagged, Registry.Backed, Live;
      ghost var slots, removed, shown := registry.slots, registry.removed, browser.nodes;
      PollSynchronises(slots, removed, shown);
      SyncedAfterPoll(slots);
      var message := registry.SendPollResponse();
      browser.PollReply(message);
      NamesPlain(removed);
      if removed != [] { SplitJoin(Names(removed)); }
      assert (set name | message.hasRemove && name in Split(message.remove)) == (set name | name in Names(removed));
    }
  }
}

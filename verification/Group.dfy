/** Class `Group`: the associations of a group, replaced as a whole when the device
    reports new ones. The requests and notifications that follow a change are
    counted; what they contain is left out. */
module Group {

  type Byte = n: nat | n < 256

  datatype InstanceAssociation = InstanceAssociation(nodeId: Byte, instance: Byte)

  /** `classcomp`, the order of the map. */
  predicate Before(a: InstanceAssociation, b: InstanceAssociation) {
    if a.nodeId == b.nodeId then a.instance < b.instance else a.nodeId < b.nodeId
  }

  ghost function Elements<T(!new)>(s: seq<T>): set<T> { set x | x in s }

  ghost predicate NoDuplicates<T>(s: seq<T>) { forall i, j | 0 <= i < j < |s| :: s[i] != s[j] }

  lemma {:induction false} ElementsSize<T(!new)>(s: seq<T>)
    ensures |Elements(s)| <= |s|
    ensures |Elements(s)| == |s| <==> NoDuplicates(s)
  {
    if s != [] {
      var init, last := s[..|s| - 1], s[|s| - 1];
      ElementsSize(init);
      assert s == init + [last];
      assert Elements(s) == Elements(init) + {last};
      if last in init {
        assert Elements(s) == Elements(init);
        var i :| 0 <= i < |init| && init[i] == last;
        assert s[i] == s[|s| - 1];
      } else {
        assert |Elements(s)| == |Elements(init)| + 1;
        assert forall i | 0 <= i < |init| :: s[i] == init[i] && init[i] in init;
      }
    }
  }

  lemma {:induction false} SubsetSize<T>(a: set<T>, b: set<T>)
    requires a <= b
    ensures |a| <= |b| && (|a| == |b| <==> a == b)
  {
    if a != {} {
      var x :| x in a;
      SubsetSize(a - {x}, b - {x});
      assert a == (a - {x}) + {x} && b == (b - {x}) + {x};
    }
  }

  lemma ElementsIn<T(!new)>(s: seq<T>)
    ensures forall x :: x in Elements(s) <==> x in s
  {
  }

  /** The size comparisons miss the change: repeated entries hide that some of the
      old ones are gone. */
  ghost predicate Missed(input: seq<InstanceAssociation>, keys: set<InstanceAssociation>) {
    |input| == |keys| && Elements(input) < keys
  }

  /** Without repeated entries no change is missed, and comparing sizes and
      containment compares the sets. */
  lemma NothingMissed(input: seq<InstanceAssociation>, keys: set<InstanceAssociation>)
    requires NoDuplicates(input)
    ensures !Missed(input, keys)
    ensures |input| == |keys| && Elements(input) <= keys <==> Elements(input) == keys
  {
    ElementsSize(input);
    if Elements(input) <= keys { SubsetSize(Elements(input), keys); }
  }

  /** A report of one association twice, for a group of two. */
  lemma MissedWitness(a: InstanceAssociation, b: InstanceAssociation)
    requires a != b
    ensures Missed([a, a], {a, b})
  {
    assert b in {a, b} && b !in Elements([a, a]);
    assert Elements([a, a]) <= {a, b};
  }

  /** What the comparisons of sizes decide, for every kind of report. */
  lemma Outcome(input: seq<InstanceAssociation>, keys: set<InstanceAssociation>)
    ensures |input| != |keys| ==> !Missed(input, keys) && Notifies(input, keys)
    ensures |input| == |keys| == 0 ==>
      !Missed(input, keys) && Notifies(input, keys) && Elements(input) == keys && keys + Elements(input) == keys
    ensures |input| == |keys| != 0 ==> (|keys + Elements(input)| != |keys| <==> Notifies(input, keys))
    ensures |input| == |keys| && |keys + Elements(input)| != |keys| ==> !Missed(input, keys)
    ensures |input| == |keys| && |keys + Elements(input)| == |keys| ==>
      && keys + Elements(input) == keys
      && (!Missed(input, keys) ==> keys == Elements(input))
    ensures NoDuplicates(input) ==>
              !Missed(input, keys) && (Notifies(input, keys) <==> Elements(input) != keys || input == [])
  {
    hide NoDuplicates;
    SubsetSize(keys, keys + Elements(input));
    if NoDuplicates(input) { NothingMissed(input, keys); }
  }

  function WithoutInstances(nodes: seq<Byte>): (r: seq<InstanceAssociation>)
    ensures |r| == |nodes| && forall i | 0 <= i < |nodes| :: r[i] == InstanceAssociation(nodes[i], 0)
  {
    seq(|nodes|, i requires 0 <= i < |nodes| => InstanceAssociation(nodes[i], 0))
  }

  lemma NodeReported(nodes: seq<Byte>, a: InstanceAssociation)
    ensures a in WithoutInstances(nodes) <==> a.instance == 0 && a.nodeId in nodes
  {
    if a.instance == 0 && a.nodeId in nodes {
      var k :| 0 <= k < |nodes| && nodes[k] == a.nodeId;
      assert WithoutInstances(nodes)[k] == a;
    }
  }

  class Group<Command> {
    var associations: map<InstanceAssociation, seq<Command>>
    ghost var notifications: nat

    constructor ()
      ensures associations == map[] && notifications == 0
    {
      associations, notifications := map[], 0;
    }

    /** The loop that adds every reported association, without commands. */
    method AddAll(input: seq<InstanceAssociation>)
      requires |input| <= 255
      modifies this`associations
      ensures associations.Keys
              == if old(associations) == map[] then Elements(input) else old(associations.Keys) + Elements(input)
      ensures forall a | a in input :: associations[a] == []
      ensures forall a | a in old(associations) && a !in input :: associations[a] == old(associations[a])
    {
      var i := 0;
      while i < |input|
        invariant 0 <= i <= |input|
        invariant associations.Keys == old(associations.Keys) + Elements(input[..i])
        invariant forall a | a in input[..i] :: associations[a] == []
        invariant forall a | a in old(associations) && a !in input[..i] :: associations[a] == old(associations[a])
      {
        assert input[..i + 1] == input[..i] + [input[i]];
        associations := associations[input[i] := []];
        i := i + 1;
      }
      assert input[..i] == input;
      assert old(associations) == map[] ==> associations.Keys == Elements(input);
    }

    /** The counter of the loops has eight bits, so that more than 255 entries
        would not come to an end. */
    method OnGroupChanged(input: seq<InstanceAssociation>)
      requires |input| <= 255
      modifies this
      ensures associations.Keys
              == if Missed(input, old(associations.Keys)) then old(associations.Keys) else Elements(input)
      ensures forall a | a in input :: associations[a] == []
      ensures forall a | a in associations && a !in input ::
                a in old(associations) && associations[a] == old(associations[a])
      ensures notifications == old(notifications) + if Notifies(input, old(associations.Keys)) then 1 else 0
      ensures NoDuplicates(input) ==>
        && associations.Keys == Elements(input)
        && (notifications != old(notifications) <==> Elements(input) != old(associations.Keys) || input == [])
    {
      hide Elements, NoDuplicates, Missed, Notifies;
      ghost var keys := associations.Keys;
      Outcome(input, keys);
      ElementsIn(input);
      var notify := ClearIfResized(input);
      var oldSize := |associations| % 256;
      AddAll(input);
      if !notify && oldSize != |associations| {
        associations := map[];
        AddAll(input);
        notify := true;
      }
      if notify { notifications := notifications + 1; }
    }

    /** The comparison of the sizes, which saves work when they differ. */
    method ClearIfResized(input: seq<InstanceAssociation>) returns (notify: bool)
      modifies this`associations
      ensures notify == (|input| != |old(associations.Keys)| || |input| == 0)
      ensures associations == if |input| != |old(associations.Keys)| then map[] else old(associations)
    {
      notify := false;
      assert |associations| == |associations.Keys|;
      if |input| != |associations| {
        associations := map[];
        notify := true;
      } else if |input| == 0 && |associations| == 0 {
        notify := true;
      }
    }

    /** The report of a plain association class: node ids, without instances. */
    method OnNodesChanged(nodes: seq<Byte>)
      requires |nodes| <= 255
      modifies this
      ensures
        var input := WithoutInstances(nodes);
        && associations.Keys
             == (if Missed(input, old(associations.Keys)) then old(associations.Keys) else Elements(input))
        && (forall a | a in input :: associations[a] == [])
        && notifications == old(notifications) + if Notifies(input, old(associations.Keys)) then 1 else 0
      ensures NoDuplicates(nodes) ==> forall a :: a in associations <==> a.instance == 0 && a.nodeId in nodes
    {
      hide Missed, Notifies;
      var input := [];
      var i := 0;
      while i < |nodes|
        invariant 0 <= i <= |nodes| && |input| == i
        invariant forall j | 0 <= j < i :: input[j] == InstanceAssociation(nodes[j], 0)
      {
        input := input + [InstanceAssociation(nodes[i], 0)];
        i := i + 1;
      }
      assert input == WithoutInstances(nodes);
      OnGroupChanged(input);
      forall a ensures a in Elements(input) <==> a.instance == 0 && a.nodeId in nodes {
        NodeReported(nodes, a);
      }
    }

    predicate Contains(nodeId: Byte, instance: Byte)
      reads this`associations
    {
      InstanceAssociation(nodeId, instance) in associations
    }

    /** By node, and by instance for each node. */
    method GetAssociations() returns (r: seq<InstanceAssociation>)
      ensures forall i, j | 0 <= i < j < |r| ::
                r[i].nodeId < r[j].nodeId || (r[i].nodeId == r[j].nodeId && r[i].instance < r[j].instance)
      ensures Elements(r) == associations.Keys && |r| == |associations|
    {
      r := InOrder(associations.Keys);
    }

    /** Only associations without instance. */
    method GetNodes() returns (nodes: seq<Byte>)
      ensures forall i, j | 0 <= i < j < |nodes| :: nodes[i] < nodes[j]
      ensures forall n :: n in nodes <==> Contains(n, 0)
    {
      var all := GetAssociations();
      nodes := [];
      var i := 0;
      while i < |all|
        invariant 0 <= i <= |all|
        invariant forall j, k | 0 <= j < k < |nodes| :: nodes[j] < nodes[k]
        invariant forall n :: n in nodes <==> InstanceAssociation(n, 0) in all[..i]
      {
        assert all[..i + 1] == all[..i] + [all[i]];
        if all[i].instance == 0 {
          forall n | n in nodes ensures n < all[i].nodeId {
            var j :| 0 <= j < i && all[j] == InstanceAssociation(n, 0);
            assert Before(all[j], all[i]);
          }
          assert forall j | 0 <= j < |nodes| :: nodes[j] in nodes;
          nodes := nodes + [all[i].nodeId];
        }
        i := i + 1;
      }
      assert all[..i] == all;
    }
  }

  /** When watchers are told, in terms of the sizes that are compared. */
  ghost predicate Notifies(input: seq<InstanceAssociation>, keys: set<InstanceAssociation>) {
    |input| != |keys| || input == [] || !(Elements(input) <= keys)
  }

  lemma Trichotomy(a: InstanceAssociation, b: InstanceAssociation)
    ensures a == b || Before(a, b) || Before(b, a)
  {
  }

  predicate IsLeast(a: InstanceAssociation, s: set<InstanceAssociation>) {
    a in s && forall b | b in s && b != a :: Before(a, b)
  }

  lemma {:induction false} LeastExists(s: set<InstanceAssociation>)
    requires s != {}
    ensures exists a :: IsLeast(a, s)
  {
    var x :| x in s;
    if s == {x} {
      assert IsLeast(x, s);
    } else {
      var rest := s - {x};
      assert s == rest + {x};
      LeastExists(rest);
      var a :| IsLeast(a, rest);
      Trichotomy(a, x);
      assert if Before(x, a) then IsLeast(x, s) else IsLeast(a, s);
    }
  }

  lemma ElementsAppend(r: seq<InstanceAssociation>, rest: set<InstanceAssociation>, a: InstanceAssociation)
    requires a in rest
    ensures Elements(r + [a]) + (rest - {a}) == Elements(r) + rest
  {
    assert Elements(r + [a]) == Elements(r) + {a};
  }

  lemma ElementsOfNothing(s: set<InstanceAssociation>)
    ensures Elements([]) + s == s && s + {} == s
  {
    assert Elements<InstanceAssociation>([]) == {};
  }

  /** The traversal of a map, in its order. */
  method InOrder(keys: set<InstanceAssociation>) returns (r: seq<InstanceAssociation>)
    ensures forall i, j | 0 <= i < j < |r| :: Before(r[i], r[j])
    ensures Elements(r) == keys && |r| == |keys|
  {
    hide Elements, Before;
    r := [];
    var rest := keys;
    ElementsOfNothing(rest);
    while rest != {}
      invariant Elements(r) + rest == keys && |r| + |rest| == |keys|
      invariant forall i, j | 0 <= i < j < |r| :: Before(r[i], r[j])
      invariant forall i, b | 0 <= i < |r| && b in rest :: Before(r[i], b)
      decreases |rest|
    {
      LeastExists(rest);
      var a :| IsLeast(a, rest);
      ElementsAppend(r, rest, a);
      r := r + [a];
      rest := rest - {a};
    }
    ElementsOfNothing(Elements(r));
  }
}

/** Polling: values take turns in a list, and each is polled once in as many
    rounds of the list as its intensity says. What the request of a poll queues, and
    the waiting between polls, are left out. */
module ZWavePoll {

  /** Intensities and counters are bytes. */
  type Byte = n: nat | n < 256

  datatype Entry = Entry(id: nat, counter: Byte)

  /** The list, and the values polled so far. */
  datatype State = State(list: seq<Entry>, polled: seq<nat>)

  // ---- one entry ----

  /** The counter after the entry's turn; below zero it wraps around. */
  function Turned(e: Entry, intensity: Byte): Entry {
    Entry(e.id, if e.counter == 1 then intensity else if e.counter == 0 then 255 else e.counter - 1)
  }

  /** How many turns a counter lasts: an intensity of zero counts as 256. */
  function Period(intensity: Byte): (turns: nat)
    ensures 1 <= turns <= 256 && turns % 256 == intensity
  {
    if intensity == 0 then 256 else intensity
  }

  /** The counter after some turns, having started at the intensity. */
  function CounterAfter(intensity: Byte, turns: nat): Byte {
    var left := Period(intensity) - turns % Period(intensity);
    if left == 256 then 0 else left
  }

  // ---- the list ----

  ghost predicate Distinct(list: seq<Entry>) {
    forall i, j | 0 <= i < j < |list| :: list[i].id != list[j].id
  }

  ghost predicate Known(list: seq<Entry>, intensity: map<nat, Byte>) {
    forall e | e in list :: e.id in intensity
  }

  /** One pass through the loop of the thread; a value that is due but has gone leaves the list. */
  function Step(s: State, intensity: map<nat, Byte>): State
    requires s.list != []
  {
    var e := s.list[0];
    if e.counter == 1 && e.id !in intensity then State(s.list[1..], s.polled)
    else
      State(s.list[1..] + [Turned(e, if e.id in intensity then intensity[e.id] else 0)],
            s.polled + if e.counter == 1 then [e.id] else [])
  }

  ghost function Run(s: State, intensity: map<nat, Byte>, steps: nat): (r: State)
    requires Known(s.list, intensity)
    ensures |r.list| == |s.list| && Known(r.list, intensity)
    decreases steps
  {
    if steps == 0 || s.list == [] then s
    else
      var next := Step(s, intensity);
      assert forall e | e in s.list[1..] :: e in s.list;
      Run(next, intensity, steps - 1)
  }

  ghost function AllTurned(list: seq<Entry>, intensity: map<nat, Byte>): seq<Entry>
    requires Known(list, intensity)
  {
    if list == [] then [] else
      assert forall e | e in list[1..] :: e in list;
      [Turned(list[0], intensity[list[0].id])] + AllTurned(list[1..], intensity)
  }

  /** The values whose turn it is to be polled. */
  function Due(list: seq<Entry>): seq<nat> {
    if list == [] then [] else (if list[0].counter == 1 then [list[0].id] else []) + Due(list[1..])
  }

  /** A round over the first entries, `done` being those that have had their turn. */
  lemma {:induction false} RoundOver(todo: seq<Entry>, done: seq<Entry>, polled: seq<nat>, intensity: map<nat, Byte>)
    requires Known(todo, intensity) && Known(done, intensity)
    ensures Known(todo + done, intensity)
    ensures Run(State(todo + done, polled), intensity, |todo|)
            == State(done + AllTurned(todo, intensity), polled + Due(todo))
    decreases |todo|
  {
    if todo == [] {
      assert todo + done == done && done + [] == done && polled + [] == polled;
    } else {
      hide Turned;
      var e := Turned(todo[0], intensity[todo[0].id]);
      var first := if todo[0].counter == 1 then [todo[0].id] else [];
      FirstTurn(todo, done, polled, intensity);
      RoundOver(todo[1..], done + [e], polled + first, intensity);
      Associate(done, [e], AllTurned(todo[1..], intensity));
      Associate(polled, first, Due(todo[1..]));
    }
  }

  lemma Associate<T>(a: seq<T>, b: seq<T>, c: seq<T>)
    ensures a + b + c == a + (b + c)
  {
  }

  /** The first turn of a round. */
  lemma FirstTurn(todo: seq<Entry>, done: seq<Entry>, polled: seq<nat>, intensity: map<nat, Byte>)
    requires todo != [] && Known(todo, intensity) && Known(done, intensity)
    ensures Known(todo + done, intensity) && Known(todo[1..], intensity)
    ensures
      var e := Turned(todo[0], intensity[todo[0].id]);
      && Known(done + [e], intensity)
      && Step(State(todo + done, polled), intensity)
         == State(todo[1..] + (done + [e]), polled + if todo[0].counter == 1 then [todo[0].id] else [])
  {
    var e := Turned(todo[0], intensity[todo[0].id]);
    assert (todo + done)[1..] == todo[1..] + done;
    Associate(todo[1..], done, [e]);
  }

  lemma {:induction false} RunSplit(s: State, intensity: map<nat, Byte>, a: nat, b: nat)
    requires Known(s.list, intensity)
    ensures Run(s, intensity, a + b) == Run(Run(s, intensity, a), intensity, b)
    decreases a
  {
    if a != 0 && s.list != [] {
      assert forall e | e in s.list[1..] :: e in s.list;
      RunSplit(Step(s, intensity), intensity, a - 1, b);
    }
  }

  lemma {:induction false} TurnedAt(list: seq<Entry>, intensity: map<nat, Byte>, i: nat)
    requires Known(list, intensity) && i < |list|
    ensures |AllTurned(list, intensity)| == |list|
    ensures AllTurned(list, intensity)[i] == Turned(list[i], intensity[list[i].id])
  {
    assert forall e | e in list[1..] :: e in list;
    if i > 0 { TurnedAt(list[1..], intensity, i - 1); } else if |list| > 1 { TurnedAt(list[1..], intensity, 0); }
  }

  /** In a list of different values each is due at most once. */
  lemma {:induction false} DueOnce(list: seq<Entry>, i: nat)
    requires Distinct(list) && i < |list|
    ensures multiset(Due(list))[list[i].id] == if list[i].counter == 1 then 1 else 0
  {
    var rest := list[1..];
    var first := if list[0].counter == 1 then [list[0].id] else [];
    assert Due(list) == first + Due(rest);
    if i > 0 {
      assert rest[i - 1] == list[i];
      DueOnce(rest, i - 1);
    } else {
      DueForeign(rest, list[0].id);
    }
  }

  lemma {:induction false} DueForeign(list: seq<Entry>, id: nat)
    requires forall i | 0 <= i < |list| :: list[i].id != id
    ensures multiset(Due(list))[id] == 0
  {
    if list != [] {
      DueForeign(list[1..], id);
      assert Due(list) == (if list[0].counter == 1 then [list[0].id] else []) + Due(list[1..]);
    }
  }

  /** A counter that started at the intensity: when it reaches one the entry is
      polled, and then as many turns have passed as make another period full. */
  lemma CounterTurns(id: nat, intensity: Byte, turns: nat)
    ensures Turned(Entry(id, CounterAfter(intensity, turns)), intensity)
              == Entry(id, CounterAfter(intensity, turns + 1))
    ensures (turns + 1) / Period(intensity)
            == turns / Period(intensity) + if CounterAfter(intensity, turns) == 1 then 1 else 0
  {
    var p := Period(intensity);
    DivNext(turns, p);
  }

  lemma DivNext(n: nat, p: nat)
    requires p > 0
    ensures if n % p == p - 1 then (n + 1) / p == n / p + 1 && (n + 1) % p == 0
            else (n + 1) / p == n / p && (n + 1) % p == n % p + 1
  {
    var q, r := n / p, n % p;
    assert n == p * q + r;
    if r == p - 1 {
      assert n + 1 == p * (q + 1);
      DivUnique(n + 1, p, q + 1, 0);
    } else {
      DivUnique(n + 1, p, q, r + 1);
    }
  }

  lemma DivUnique(n: nat, p: nat, q: nat, r: nat)
    requires p > 0 && r < p && n == p * q + r
    ensures n / p == q && n % p == r
  {
    var d, m := n / p, n % p;
    MulAtLeast(p, d - q);
    MulAtLeast(p, q - d);
    assert p * (d - q) == p * d - p * q;
    assert p * (q - d) == p * q - p * d;
  }

  lemma MulAtLeast(p: nat, k: int)
    ensures k >= 1 ==> p * k >= p
  {
  }

  /** The list is in its order, and each value was polled once in every period of its intensity. */
  ghost predicate Fair(list: seq<Entry>, intensity: map<nat, Byte>, rounds: nat, r: State)
    requires Known(list, intensity)
  {
    && |r.list| == |list|
    && forall i | 0 <= i < |list| ::
         && r.list[i] == Entry(list[i].id, CounterAfter(intensity[list[i].id], rounds))
         && multiset(r.polled)[list[i].id] == rounds / Period(intensity[list[i].id])
  }

  lemma FairStep(list: seq<Entry>, intensity: map<nat, Byte>, rounds: nat, r: State)
    requires Distinct(list) && Known(list, intensity) && Known(r.list, intensity) && Fair(list, intensity, rounds, r)
    ensures Fair(list, intensity, rounds + 1, State(AllTurned(r.list, intensity), r.polled + Due(r.list)))
  {
    hide Turned, CounterAfter, Period, Due, AllTurned;
    if list != [] { TurnedAt(r.list, intensity, 0); } else { NoneTurned(r.list, intensity); }
    forall i | 0 <= i < |list|
      ensures AllTurned(r.list, intensity)[i] == Entry(list[i].id, CounterAfter(intensity[list[i].id], rounds + 1))
      ensures multiset(r.polled + Due(r.list))[list[i].id] == (rounds + 1) / Period(intensity[list[i].id])
    {
      TurnedAt(r.list, intensity, i);
      DueOnce(r.list, i);
      CounterTurns(list[i].id, intensity[list[i].id], rounds);
    }
  }

  lemma NoneTurned(list: seq<Entry>, intensity: map<nat, Byte>)
    requires list == [] && Known(list, intensity)
    ensures AllTurned(list, intensity) == []
  {
  }

  /** Fairness: after any number of full rounds the list is in its order again, and
      each value was polled once in every period of its intensity. */
  lemma {:induction false} PollsAreFair(list: seq<Entry>, intensity: map<nat, Byte>, rounds: nat)
    requires Distinct(list) && Known(list, intensity)
    requires forall e | e in list :: e.counter == intensity[e.id]
    ensures Fair(list, intensity, rounds, Run(State(list, []), intensity, rounds * |list|))
    decreases rounds
  {
    hide Run, AllTurned, Due, Turned;
    var start := State(list, []);
    if rounds == 0 {
      NoSteps(start, intensity);
      forall i | 0 <= i < |list| ensures list[i].counter == CounterAfter(intensity[list[i].id], 0) {
        assert list[i] in list;
      }
    } else {
      hide Fair;
      PollsAreFair(list, intensity, rounds - 1);
      var before := Run(start, intensity, (rounds - 1) * |list|);
      assert rounds * |list| == (rounds - 1) * |list| + |list|;
      RunSplit(start, intensity, (rounds - 1) * |list|, |list|);
      assert before.list + [] == before.list;
      RoundOver(before.list, [], before.polled, intensity);
      assert [] + AllTurned(before.list, intensity) == AllTurned(before.list, intensity);
      FairStep(list, intensity, rounds - 1, before);
    }
  }

  lemma NoSteps(s: State, intensity: map<nat, Byte>)
    requires Known(s.list, intensity)
    ensures Run(s, intensity, 0) == s
  {
  }

  // ---- the object ----

  class Poller {
    var pollList: seq<Entry>
    /** The poll intensity of every value in the value stores. */
    var intensities: map<nat, Byte>
    /** The values to be polled when their nodes wake up. */
    var pollRequired: set<nat>
    ghost var polled: seq<nat>

    ghost predicate Valid() reads this { Distinct(pollList) }

    constructor (intensities: map<nat, Byte>)
      ensures Valid() && pollList == [] && polled == [] && pollRequired == {} && this.intensities == intensities
    {
      pollList, pollRequired, polled := [], {}, [];
      this.intensities := intensities;
    }

    /** `EnablePoll`: a value enters the list only once. */
    method EnablePoll(id: nat, intensity: Byte) returns (ok: bool)
      requires Valid()
      modifies this`pollList, this`intensities
      ensures Valid() && ok == (id in old(intensities))
      ensures intensities == if ok then old(intensities)[id := intensity] else old(intensities)
      ensures pollList == if ok && forall e | e in old(pollList) :: e.id != id
                          then old(pollList) + [Entry(id, intensity)] else old(pollList)
    {
      if id !in intensities { return false; }
      intensities := intensities[id := intensity];
      var i := 0;
      while i < |pollList|
        invariant 0 <= i <= |pollList| && forall j | 0 <= j < i :: pollList[j].id != id
      {
        if pollList[i].id == id { return true; }
        i := i + 1;
      }
      pollList := pollList + [Entry(id, intensity)];
      return true;
    }

    /** A value disappears from the value stores; the list is not touched. */
    method RemoveValue(id: nat)
      requires Valid()
      modifies this`intensities
      ensures Valid() && intensities == old(intensities) - {id}
    {
      intensities := intensities - {id};
    }

    /** One pass through the loop of `PollThreadProc`; says which value is requested.
        `asleep` is the state of the front value's node. */
    method PollNext(asleep: bool) returns (requested: seq<nat>)
      requires Valid()
      modifies this`pollList, this`pollRequired, this`polled
      ensures Valid() && old(polled) <= polled
      ensures State(pollList, polled)
              == old(if pollList == [] then State(pollList, polled) else Step(State(pollList, polled), intensities))
      ensures
        var due := polled[|old(polled)|..];
        && requested == (if asleep then [] else due)
        && pollRequired == old(pollRequired) + if asleep then set id | id in due else {}
    {
      requested := [];
      if pollList == [] { return; }
      var pe := pollList[0];
      pollList := pollList[1..];
      if pe.counter != 1 {
        pe := pe.(counter := if pe.counter == 0 then 255 else pe.counter - 1);
        pollList := pollList + [pe];
        return;
      }
      if pe.id !in intensities { return; }
      pe := pe.(counter := intensities[pe.id]);
      pollList := pollList + [pe];
      polled := polled + [pe.id];
      if asleep { pollRequired := pollRequired + {pe.id}; } else { requested := [pe.id]; }
    }
  }
}

// Every fair schedule settles: rounds in which each member completes an exchange and has
// its notify delivered change something only finitely often, and then the ring is sorted.
module ChordFairness {
  import opened ChordKeys
  import opened ChordProtocol
  import opened ChordInvariant
  import opened ChordConvergence
  import opened ChordTermination

  // ----- a sorted ring stays as it is

  lemma AnswerChangesNothing(s: Ring, m: Key)
    requires Inv(s) && Sorted(s) && Enabled(s, Adopt(m))
    ensures Adopted(m, s.post[m], s.phase[m].answer) == s.post[m]
  {
    hide SelfLoopsAlone, PresFit, NotesFit, OneCycle, Sorted;
    assert PhaseFits(s.post, m, s.pre[m], s.phase[m]);
    if s.phase[m].answer.Some? {
      SortedIsStable(s, m, s.phase[m].answer.value);
    }
  }

  lemma NoteChangesNothing(s: Ring, note: Note)
    requires Inv(s) && Sorted(s) && Enabled(s, DeliverNotify(note))
    ensures Notified(note.to, s.pre[note.to], note.from) == s.pre[note.to]
  {
    hide SelfLoopsAlone, PresFit, PhasesFit, OneCycle, Sorted, Path;
    assert NoteFits(s.first, s.post, note);
    SortedIsStable(s, note.to, note.from);
  }

  ghost predicate SameLinks(s: Ring, t: Ring) {
    s.post == t.post && s.pre == t.pre
  }

  lemma SortedCarriesOver(s: Ring, t: Ring)
    requires WellTyped(s) && Sorted(s) && WellTyped(t) && SameLinks(s, t)
    ensures Sorted(t)
  {
    hide NextClockwise, Closed;
    forall m | m in t.post ensures SortedAt(t, m) {
      assert SortedAt(s, m);
    }
  }

  lemma SortedStep(s: Ring, step: Step)
    requires Inv(s) && Sorted(s) && Enabled(s, step) && !step.Join?
    ensures SameLinks(s, Apply(s, step)) && Inv(Apply(s, step)) && Sorted(Apply(s, step))
  {
    hide SelfLoopsAlone, PresFit, NotesFit, PhasesFit, OneCycle, Sorted, Adopted, Notified, Bridges, Closed;
    StepHolds(s, step);
    match step {
      case Adopt(m) => AnswerChangesNothing(s, m);
      case DeliverNotify(note) => NoteChangesNothing(s, note);
      case _ =>
    }
    SortedCarriesOver(s, Apply(s, step));
  }

  // Without joins nothing changes a sorted ring, however long it runs.
  lemma {:induction false} SortedStays(s: Ring, steps: seq<Step>, t: Ring)
    requires Inv(s) && Sorted(s) && Leads(s, steps, t)
    ensures SameLinks(s, t) && Inv(t) && Sorted(t)
    decreases |steps|
  {
    hide Inv, Sorted, Apply, Enabled;
    if steps != [] {
      SortedStep(s, steps[0]);
      SortedStays(Apply(s, steps[0]), steps[1..], t);
    }
  }

  // ----- rounds

  // The first request of m is followed by the end of an exchange of m.
  ghost predicate Exchanges(m: Key, steps: seq<Step>)
    decreases |steps|
  {
    steps != [] && if steps[0] == Ask(m) then Adopt(m) in steps[1..] else Exchanges(m, steps[1..])
  }

  // Some notify of m, to what was its postnode when it was sent, is delivered later.
  ghost predicate Notifies(s: Ring, steps: seq<Step>, t: Ring, m: Key)
    requires Leads(s, steps, t)
    decreases |steps|
  {
    steps != [] && m in s.post &&
    ((steps[0] == SendNotify(m) && DeliverNotify(Note(m, s.post[m])) in steps[1..])
     || Notifies(Apply(s, steps[0]), steps[1..], t, m))
  }

  ghost predicate Round(s: Ring, steps: seq<Step>, t: Ring) {
    Leads(s, steps, t) && forall m | m in s.post :: Exchanges(m, steps) && Notifies(s, steps, t, m)
  }

  // ----- a round that changes nothing

  lemma QuietStep(s: Ring, steps: seq<Step>, t: Ring) returns (u: Ring)
    requires Inv(s) && Leads(s, steps, t) && steps != [] && Changes(s, steps, t) == 0
    ensures WellTyped(s) && Enabled(s, steps[0]) && u == Apply(s, steps[0]) && !steps[0].Join?
    ensures SameLinks(s, u) && Inv(u) && Leads(u, steps[1..], t) && Changes(u, steps[1..], t) == 0
  {
    hide Apply, Enabled, Bridges;
    hide SelfLoopsAlone, PresFit, NotesFit, PhasesFit, OneCycle;
    u := Apply(s, steps[0]);
    StepHolds(s, steps[0]);
  }

  // What m waits for, or has received, is the prenode of its postnode.
  ghost predicate Fresh(s: Ring, m: Key)
    requires WellTyped(s) && m in s.post
  {
    s.phase[m] == Asked(s.post[m]) || s.phase[m] == Replied(s.pre[s.post[m]])
  }

  lemma FreshStep(s: Ring, step: Step, m: Key)
    requires WellTyped(s) && Enabled(s, step) && !step.Join? && m in s.post && Fresh(s, m)
    requires SameLinks(s, Apply(s, step)) && WellTyped(Apply(s, step))
    ensures step != Ask(m)
    ensures step == Adopt(m) ==> Adopted(m, s.post[m], s.pre[s.post[m]]) == s.post[m]
    ensures step != Adopt(m) ==> Fresh(Apply(s, step), m)
  {
    hide Adopted, Notified, Closed;
  }

  lemma {:induction false} FreshAdopts(s: Ring, steps: seq<Step>, t: Ring, m: Key)
    requires Inv(s) && Leads(s, steps, t) && Changes(s, steps, t) == 0
    requires m in s.post && Fresh(s, m) && Adopt(m) in steps
    ensures s.post[m] in s.pre && Adopted(m, s.post[m], s.pre[s.post[m]]) == s.post[m]
    decreases |steps|
  {
    hide SelfLoopsAlone, PresFit, NotesFit, PhasesFit, OneCycle, Adopted, Apply, Enabled, Leads, Changes, Fresh;
    var u := QuietStep(s, steps, t);
    FreshStep(s, steps[0], m);
    if steps[0] != Adopt(m) {
      FreshAdopts(u, steps[1..], t, m);
    }
  }

  lemma AskIsFresh(s: Ring, m: Key)
    requires WellTyped(s) && Enabled(s, Ask(m)) && WellTyped(Apply(s, Ask(m)))
    ensures m in s.post && Fresh(Apply(s, Ask(m)), m)
  {
  }

  lemma {:induction false} ExchangeIsQuiet(s: Ring, steps: seq<Step>, t: Ring, m: Key)
    requires Inv(s) && Leads(s, steps, t) && Changes(s, steps, t) == 0 && m in s.post && Exchanges(m, steps)
    ensures s.post[m] in s.pre && Adopted(m, s.post[m], s.pre[s.post[m]]) == s.post[m]
    decreases |steps|
  {
    hide SelfLoopsAlone, PresFit, NotesFit, PhasesFit, OneCycle, Adopted, Apply, Enabled, Leads, Changes, Fresh;
    var u := QuietStep(s, steps, t);
    if steps[0] == Ask(m) {
      AskIsFresh(s, m);
      FreshAdopts(u, steps[1..], t, m);
    } else {
      ExchangeIsQuiet(u, steps[1..], t, m);
    }
  }

  lemma {:induction false} DeliveryIsQuiet(s: Ring, steps: seq<Step>, t: Ring, note: Note)
    requires Inv(s) && Leads(s, steps, t) && Changes(s, steps, t) == 0 && DeliverNotify(note) in steps
    ensures note.to in s.pre && Notified(note.to, s.pre[note.to], note.from) == s.pre[note.to]
    decreases |steps|
  {
    hide SelfLoopsAlone, PresFit, NotesFit, PhasesFit, OneCycle, Notified, Leads, Changes;
    var u := QuietStep(s, steps, t);
    if steps[0] != DeliverNotify(note) {
      hide Apply, Enabled;
      DeliveryIsQuiet(u, steps[1..], t, note);
    }
  }

  lemma {:induction false} NotifyIsQuiet(s: Ring, steps: seq<Step>, t: Ring, m: Key)
    requires Inv(s) && Leads(s, steps, t) && Changes(s, steps, t) == 0 && Notifies(s, steps, t, m)
    ensures m in s.post && s.post[m] in s.pre
    ensures Notified(s.post[m], s.pre[s.post[m]], m) == s.pre[s.post[m]]
    decreases |steps|
  {
    hide SelfLoopsAlone, PresFit, NotesFit, PhasesFit, OneCycle, Notified, Apply, Enabled, Leads, Changes;
    var u := QuietStep(s, steps, t);
    if steps[0] == SendNotify(m) && DeliverNotify(Note(m, s.post[m])) in steps[1..] {
      DeliveryIsQuiet(u, steps[1..], t, Note(m, s.post[m]));
    } else {
      NotifyIsQuiet(u, steps[1..], t, m);
    }
  }

  // After a round without a change the ring is sorted.
  lemma QuietRoundIsSorted(s: Ring, steps: seq<Step>, t: Ring)
    requires Inv(s) && |s.post| >= 2 && Round(s, steps, t) && Changes(s, steps, t) == 0
    ensures Sorted(s)
  {
    hide SelfLoopsAlone, PresFit, NotesFit, PhasesFit, OneCycle, Adopted, Notified, Leads, Changes, Sorted;
    hide Exchanges, Notifies, Closed;
    forall m | m in s.post ensures QuietAt(s, m) {
      ExchangeIsQuiet(s, steps, t, m);
      NotifyIsQuiet(s, steps, t, m);
    }
    QuiescentIffSorted(s);
  }

  // ----- runs of rounds

  ghost predicate Rounds(states: seq<Ring>, rounds: seq<seq<Step>>) {
    |states| == |rounds| + 1 && forall i | 0 <= i < |rounds| :: Round(states[i], rounds[i], states[i + 1])
  }

  // How many of the first n rounds change something.
  ghost function Effective(states: seq<Ring>, rounds: seq<seq<Step>>, n: nat): nat
    requires Rounds(states, rounds) && n <= |rounds|
  {
    if n == 0 then 0
    else
      Effective(states, rounds, n - 1) + if Changes(states[n - 1], rounds[n - 1], states[n]) > 0 then 1 else 0
  }

  lemma {:induction false} LeadsHolds(s: Ring, steps: seq<Step>, t: Ring)
    requires Inv(s) && Leads(s, steps, t)
    ensures Inv(t)
    decreases |steps|
  {
    hide Inv, Apply, Enabled, Bridges;
    if steps != [] {
      StepHolds(s, steps[0]);
      LeadsHolds(Apply(s, steps[0]), steps[1..], t);
    }
  }

  lemma {:induction false} EffectiveLowers(states: seq<Ring>, rounds: seq<seq<Step>>, n: nat)
    requires Rounds(states, rounds) && Inv(states[0]) && n <= |rounds|
    ensures Inv(states[n]) && states[n].post.Keys == states[0].post.Keys
    ensures Effective(states, rounds, n) + Potential(states[n].post, states[n].pre) <=
            Potential(states[0].post, states[0].pre)
  {
    hide Inv, Leads, Changes, Potential, Exchanges, Notifies;
    if n > 0 {
      EffectiveLowers(states, rounds, n - 1);
      assert Round(states[n - 1], rounds[n - 1], states[n]);
      LeadsHolds(states[n - 1], rounds[n - 1], states[n]);
      ChangesLowerPotential(states[n - 1], rounds[n - 1], states[n]);
    }
  }

  // Of all rounds, at most 2 * 2^32 for each member change anything.
  lemma EffectiveBounded(states: seq<Ring>, rounds: seq<seq<Step>>)
    requires Rounds(states, rounds) && Inv(states[0])
    ensures Effective(states, rounds, |rounds|) <= 2 * RING * |states[0].post|
  {
    hide SelfLoopsAlone, PresFit, NotesFit, PhasesFit, OneCycle, Potential, Round, Effective, Closed;
    EffectiveLowers(states, rounds, |rounds|);
    PotentialBound(states[0].post, states[0].pre);
    assert |states[0].pre.Keys| == |states[0].post.Keys|;
  }

  lemma {:induction false} QuietRoundExists(states: seq<Ring>, rounds: seq<seq<Step>>, n: nat) returns (i: nat)
    requires Rounds(states, rounds) && n <= |rounds| && Effective(states, rounds, n) < n
    ensures i < n && Changes(states[i], rounds[i], states[i + 1]) == 0
  {
    hide Round, Changes;
    if Effective(states, rounds, n - 1) < n - 1 {
      i := QuietRoundExists(states, rounds, n - 1);
    } else {
      i := n - 1;
    }
  }

  lemma {:induction false} SortedRounds(states: seq<Ring>, rounds: seq<seq<Step>>, i: nat, n: nat)
    requires Rounds(states, rounds) && i <= n <= |rounds| && Inv(states[i]) && Sorted(states[i])
    ensures Inv(states[n]) && Sorted(states[n])
    decreases n
  {
    hide Inv, Sorted, Leads, Exchanges, Notifies;
    if i < n {
      SortedRounds(states, rounds, i, n - 1);
      assert Round(states[n - 1], rounds[n - 1], states[n]);
      SortedStays(states[n - 1], rounds[n - 1], states[n]);
    }
  }

  // So every fair schedule, not only a lucky one, ends in the sorted ring.
  lemma FairRunsSettle(states: seq<Ring>, rounds: seq<seq<Step>>)
    requires Rounds(states, rounds) && Inv(states[0]) && |states[0].post| >= 2
    requires |rounds| > 2 * RING * |states[0].post|
    ensures Inv(states[|rounds|]) && Sorted(states[|rounds|])
  {
    hide Inv, Sorted, Changes, Effective, Leads, Exchanges, Notifies;
    EffectiveBounded(states, rounds);
    var i := QuietRoundExists(states, rounds, |rounds|);
    EffectiveLowers(states, rounds, i);
    KeysCount(states[0], states[i]);
    assert Round(states[i], rounds[i], states[i + 1]);
    QuietRoundIsSorted(states[i], rounds[i], states[i + 1]);
    SortedRounds(states, rounds, i, |rounds|);
  }

  // ----- rounds exist

  lemma {:induction false} ExchangesWithin(m: Key, a: seq<Step>, b: seq<Step>, c: seq<Step>)
    requires Ask(m) !in a && Exchanges(m, b)
    ensures Exchanges(m, a + b + c)
    decreases |a| + |b|
  {
    var all := a + b + c;
    if a != [] {
      ExchangesWithin(m, a[1..], b, c);
      assert all[1..] == a[1..] + b + c;
    } else {
      assert all[1..] == b[1..] + c && all[0] == b[0];
      if b[0] != Ask(m) {
        ExchangesWithin(m, [], b[1..], c);
        assert [] + b[1..] + c == b[1..] + c;
      }
    }
  }

  lemma LeadsTail(s: Ring, steps: seq<Step>, t: Ring)
    requires Leads(s, steps, t) && steps != []
    ensures WellTyped(s) && Enabled(s, steps[0]) && !steps[0].Join? && Leads(Apply(s, steps[0]), steps[1..], t)
  {
    hide Apply, Enabled, WellTyped;
  }

  lemma NotifiesLater(s: Ring, steps: seq<Step>, t: Ring, m: Key)
    requires Leads(s, steps, t) && steps != [] && m in s.post && WellTyped(s) && Enabled(s, steps[0])
    requires Leads(Apply(s, steps[0]), steps[1..], t) && Notifies(Apply(s, steps[0]), steps[1..], t, m)
    ensures Notifies(s, steps, t, m)
  {
    hide Apply, Enabled, WellTyped, Leads;
  }

  lemma {:induction false} NotifiesBefore(s: Ring, a: seq<Step>, t: Ring, b: seq<Step>, u: Ring, m: Key)
    requires Inv(s) && Leads(s, a, t) && Leads(t, b, u) && Notifies(t, b, u, m) && m in s.post
    ensures Leads(s, a + b, u) && Notifies(s, a + b, u, m)
    decreases |a|
  {
    hide Apply, Enabled, Bridges, Notifies, WellTyped;
    hide SelfLoopsAlone, PresFit, NotesFit, PhasesFit, OneCycle;
    LeadsOn(s, a, t, b, u);
    if a == [] {
      assert a + b == b;
    } else {
      var v := Apply(s, a[0]);
      LeadsTail(s, a, t);
      hide Leads;
      OneStepKeys(s, a[0]);
      StepHolds(s, a[0]);
      NotifiesBefore(v, a[1..], t, b, u, m);
      assert (a + b)[0] == a[0] && (a + b)[1..] == a[1..] + b;
      NotifiesLater(s, a + b, u, m);
    }
  }

  lemma OneStepKeys(s: Ring, step: Step)
    requires Inv(s) && Enabled(s, step) && !step.Join?
    ensures Apply(s, step).post.Keys == s.post.Keys
  {
    hide SelfLoopsAlone, PresFit, NotesFit, PhasesFit, OneCycle;
    StepLowers(s, step);
  }

  lemma NotifiesNow(s: Ring, steps: seq<Step>, t: Ring, m: Key)
    requires Leads(s, steps, t) && steps != [] && m in s.post
    requires steps[0] == SendNotify(m) && DeliverNotify(Note(m, s.post[m])) in steps[1..]
    ensures Notifies(s, steps, t, m)
  {
    hide Apply, Enabled, WellTyped, Leads;
  }

  // Either the first step sends the notify that is delivered, or a later one.
  lemma NotifiesEither(s: Ring, steps: seq<Step>, t: Ring, m: Key) returns (now: bool)
    requires Leads(s, steps, t) && Notifies(s, steps, t, m)
    ensures steps != [] && m in s.post && WellTyped(s) && Enabled(s, steps[0])
    ensures Leads(Apply(s, steps[0]), steps[1..], t)
    ensures if now then steps[0] == SendNotify(m) && DeliverNotify(Note(m, s.post[m])) in steps[1..]
            else Notifies(Apply(s, steps[0]), steps[1..], t, m)
  {
    hide Apply, Enabled, WellTyped;
    now := steps[0] == SendNotify(m) && DeliverNotify(Note(m, s.post[m])) in steps[1..];
  }

  lemma {:induction false} NotifiesAfter(s: Ring, a: seq<Step>, t: Ring, b: seq<Step>, u: Ring, m: Key)
    requires Leads(s, a, t) && Leads(t, b, u) && Notifies(s, a, t, m)
    ensures Leads(s, a + b, u) && Notifies(s, a + b, u, m)
    decreases |a|
  {
    hide Apply, Enabled, Notifies, Leads, WellTyped;
    LeadsOn(s, a, t, b, u);
    var now := NotifiesEither(s, a, t, m);
    assert (a + b)[0] == a[0] && (a + b)[1..] == a[1..] + b;
    if now {
      NotifiesNow(s, a + b, u, m);
    } else {
      NotifiesAfter(Apply(s, a[0]), a[1..], t, b, u, m);
      NotifiesLater(s, a + b, u, m);
    }
  }

  // What one step does to the phase of m.
  lemma PhaseAfter(s: Ring, step: Step, m: Key)
    requires WellTyped(s) && Enabled(s, step) && m in s.post && !step.Join?
    ensures m in Apply(s, step).phase
    ensures step == Ask(m) ==> Apply(s, step).phase[m].Asked?
    ensures step == Reply(m) ==> Apply(s, step).phase[m].Replied?
    ensures step == Adopt(m) ==> Apply(s, step).phase[m].Idle?
  {
    hide Adopted, Notified, Closed;
  }

  lemma Go(s: Ring, steps: seq<Step>, t: Ring, step: Step) returns (u: Ring)
    requires Inv(s) && Leads(s, steps, t) && Inv(t) && t.post.Keys == s.post.Keys
    requires Enabled(t, step) && !step.Join?
    ensures u == Apply(t, step) && Leads(s, steps + [step], u) && Inv(u) && u.post.Keys == s.post.Keys
  {
    hide Apply, Enabled, Inv, Potential, Leads;
    u := OneStep(t, step);
    LeadsOn(s, steps, t, [step], u);
  }

  // From s to t without joins.
  ghost predicate Along(s: Ring, steps: seq<Step>, t: Ring) {
    Leads(s, steps, t) && Inv(t) && t.post.Keys == s.post.Keys
  }

  lemma AlongOn(s: Ring, a: seq<Step>, t: Ring, b: seq<Step>, u: Ring)
    requires Along(s, a, t) && Along(t, b, u)
    ensures Along(s, a + b, u)
  {
    hide Leads, Inv;
    LeadsOn(s, a, t, b, u);
  }

  lemma DoStep(s: Ring, steps: seq<Step>, t: Ring, step: Step) returns (u: Ring)
    requires Inv(s) && Along(s, steps, t) && Enabled(t, step) && !step.Join?
    ensures u == Apply(t, step) && Along(s, steps + [step], u)
  {
    hide Apply, Enabled, Inv, Leads;
    u := Go(s, steps, t, step);
  }

  lemma EnabledFor(t: Ring, m: Key)
    requires Inv(t) && m in t.post
    ensures WellTyped(t) && m in t.phase && t.post[m] in t.post
    ensures t.phase[m].Idle? ==> Enabled(t, Ask(m))
    ensures t.phase[m].Asked? ==> Enabled(t, Reply(m))
    ensures t.phase[m].Replied? ==> Enabled(t, Adopt(m))
    ensures Enabled(t, SendNotify(m))
  {
    hide SelfLoopsAlone, PresFit, NotesFit, PhasesFit, OneCycle;
    PhaseKnown(t, m);
  }

  // m ends the exchange it is in.
  lemma EndExchange(s: Ring, m: Key) returns (a: seq<Step>, t: Ring)
    requires Inv(s) && m in s.post
    ensures Along(s, a, t) && m in t.phase && t.phase[m].Idle?
    ensures forall x :: Ask(x) !in a
  {
    hide Inv, Apply, Enabled, Leads, WellTyped;
    a, t := [], s;
    Standstill(s);
    EnabledFor(t, m);
    if t.phase[m].Asked? {
      PhaseAfter(t, Reply(m), m);
      t := DoStep(s, a, t, Reply(m));
      a := a + [Reply(m)];
      EnabledFor(t, m);
    }
    if t.phase[m].Replied? {
      PhaseAfter(t, Adopt(m), m);
      t := DoStep(s, a, t, Adopt(m));
      a := a + [Adopt(m)];
    }
  }

  lemma FullExchange(s: Ring, m: Key) returns (t: Ring)
    requires Inv(s) && m in s.post && m in s.phase && s.phase[m].Idle?
    ensures Along(s, [Ask(m), Reply(m), Adopt(m)], t)
  {
    hide Inv, Apply, Enabled, Leads, WellTyped;
    Standstill(s);
    EnabledFor(s, m);
    PhaseAfter(s, Ask(m), m);
    t := DoStep(s, [], s, Ask(m));
    EnabledFor(t, m);
    PhaseAfter(t, Reply(m), m);
    t := DoStep(s, [] + [Ask(m)], t, Reply(m));
    EnabledFor(t, m);
    t := DoStep(s, [] + [Ask(m)] + [Reply(m)], t, Adopt(m));
    assert [] + [Ask(m)] + [Reply(m)] + [Adopt(m)] == [Ask(m), Reply(m), Adopt(m)];
  }

  lemma SentIsDeliverable(s: Ring, m: Key)
    requires Inv(s) && m in s.post
    ensures WellTyped(s) && Enabled(s, SendNotify(m)) && s.post[m] in s.post
    ensures WellTyped(Apply(s, SendNotify(m)))
    ensures Enabled(Apply(s, SendNotify(m)), DeliverNotify(Note(m, s.post[m])))
  {
    hide SelfLoopsAlone, PresFit, NotesFit, PhasesFit, OneCycle;
  }

  lemma SentAndDelivered(s: Ring, u: Ring, m: Key)
    requires m in s.post && Leads(s, [SendNotify(m), DeliverNotify(Note(m, s.post[m]))], u)
    ensures Notifies(s, [SendNotify(m), DeliverNotify(Note(m, s.post[m]))], u, m)
  {
    hide Apply, Enabled, Leads, WellTyped;
    var deliver := DeliverNotify(Note(m, s.post[m]));
    assert deliver in [SendNotify(m), deliver][1..];
  }

  lemma FullNotify(s: Ring, m: Key) returns (b: seq<Step>, u: Ring)
    requires Inv(s) && m in s.post
    ensures Along(s, b, u) && Notifies(s, b, u, m) && forall x :: Ask(x) !in b
  {
    hide Inv, Apply, Enabled, Leads, WellTyped, Notifies;
    Standstill(s);
    SentIsDeliverable(s, m);
    var deliver := DeliverNotify(Note(m, s.post[m]));
    var t := DoStep(s, [], s, SendNotify(m));
    u := DoStep(s, [] + [SendNotify(m)], t, deliver);
    b := [SendNotify(m), deliver];
    assert [] + [SendNotify(m)] + [deliver] == b;
    SentAndDelivered(s, u, m);
  }

  lemma AskFirst(m: Key, b: seq<Step>)
    ensures Exchanges(m, [Ask(m), Reply(m), Adopt(m)] + b)
  {
    var all := [Ask(m), Reply(m), Adopt(m)] + b;
    assert all[0] == Ask(m) && all[1..][1] == Adopt(m);
  }

  // One member takes its part of a round.
  lemma Turn(s: Ring, m: Key) returns (steps: seq<Step>, u: Ring)
    requires Inv(s) && m in s.post
    ensures Along(s, steps, u) && Exchanges(m, steps) && Notifies(s, steps, u, m)
    ensures forall x | x != m :: Ask(x) !in steps
  {
    hide Inv, Leads, Exchanges, Notifies, WellTyped;
    var a, t := EndExchange(s, m);
    var core := [Ask(m), Reply(m), Adopt(m)];
    var v := FullExchange(t, m);
    var b;
    b, u := FullNotify(v, m);
    NotifiesBefore(t, core, v, b, u, m);
    NotifiesBefore(s, a, t, core + b, u, m);
    AlongOn(t, core, v, b, u);
    AlongOn(s, a, t, core + b, u);
    steps := a + (core + b);
    AskFirst(m, b);
    ExchangesWithin(m, a, core + b, []);
    assert steps + [] == steps;
  }

  // Every member of the set takes its part, one after the other.
  lemma {:induction false} Turns(s: Ring, members: set<Key>) returns (steps: seq<Step>, u: Ring)
    requires Inv(s) && members <= s.post.Keys
    ensures Along(s, steps, u)
    ensures forall m | m in members :: Exchanges(m, steps) && Notifies(s, steps, u, m)
    ensures forall x | x !in members :: Ask(x) !in steps
  {
    hide Inv, Leads, Exchanges, Notifies, WellTyped;
    if members == {} {
      Standstill(s);
      steps, u := [], s;
    } else {
      var m :| m in members;
      var a, t := Turns(s, members - {m});
      var b;
      b, u := Turn(t, m);
      steps := a + b;
      AlongOn(s, a, t, b, u);
      NotifiesBefore(s, a, t, b, u, m);
      ExchangesWithin(m, a, b, []);
      assert a + b + [] == steps;
      forall x | x in members - {m} ensures Exchanges(x, steps) && Notifies(s, steps, u, x) {
        NotifiesAfter(s, a, t, b, u, x);
        ExchangesWithin(x, [], a, b);
        assert [] + a + b == steps;
      }
    }
  }

  // From every state with the invariant there is a round: fair schedules exist.
  lemma RoundExists(s: Ring) returns (steps: seq<Step>, t: Ring)
    requires Inv(s)
    ensures Round(s, steps, t) && Inv(t) && t.post.Keys == s.post.Keys
  {
    hide Inv, Leads, Exchanges, Notifies;
    steps, t := Turns(s, s.post.Keys);
  }
}

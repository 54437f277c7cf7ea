// From the first member to right answers: fair runs settle the links, calls of
// fix_fingers the fingers, and lookups then find owners.
module ChordSettling {
  import opened ChordKeys
  import opened ChordProtocol
  import opened ChordInvariant
  import opened ChordConvergence
  import opened ChordFairness
  import opened ChordFingers
  import opened ChordLookup
  import opened ChordSystem
  import opened ChordTermination

  // The steps of the links among the actions, in order.
  ghost function LinkSteps(actions: seq<Action>): seq<Step>
    decreases |actions|
  {
    if actions == [] then []
    else
      var n := |actions| - 1;
      LinkSteps(actions[..n]) + if actions[n].Links? then [actions[n].step] else []
  }

  lemma LinkOfAct(s: System, a: Action)
    requires Sound(s) && CanAct(s, a) && NobodyJoins([a])
    ensures a.Finger? ==> Act(s, a).ring == s.ring
    ensures a.Links? ==> Leads(s.ring, [a.step], Act(s, a).ring)
  {
    hide Apply, Enabled, Fixed, Potential, Leads, Inv, Valid, WellTyped;
    assert [a][0] == a;
    if a.Links? {
      var t := OneStep(s.ring, a.step);
    }
  }

  // In a stretch without joins the links go through their own steps.
  lemma {:induction false} LinksLead(states: seq<System>, actions: seq<Action>, a: nat, b: nat)
    requires SystemRun(states, actions) && a <= b < |states| && NobodyJoins(actions[a..b]) && Sound(states[a])
    ensures Leads(states[a].ring, LinkSteps(actions[a..b]), states[b].ring) && Sound(states[b])
    decreases b
  {
    hide Inv, Act, Leads, CanAct, Valid;
    if a == b {
      assert actions[a..b] == [];
      Standstill(states[a].ring);
    } else {
      var m, act := b - 1, actions[b - 1];
      var part := actions[a..b];
      assert part[..|part| - 1] == actions[a..m] && part[|part| - 1] == act;
      LinksLead(states, actions, a, m);
      LinkOfAct(states[m], act);
      ActIsSound(states[m], act);
      if act.Links? {
        LeadsOn(states[a].ring, LinkSteps(actions[a..m]), states[m].ring, [act.step], states[b].ring);
      } else {
        assert LinkSteps(actions[a..m]) + [] == LinkSteps(actions[a..m]);
      }
    }
  }

  ghost predicate Ordered(cuts: seq<nat>, n: nat) {
    && cuts != []
    && (forall r | 0 <= r < |cuts| :: cuts[r] <= n)
    && forall q, r | 0 <= q <= r < |cuts| :: cuts[q] <= cuts[r]
  }

  // The link steps between two cuts.
  ghost function Between(actions: seq<Action>, cuts: seq<nat>, r: nat): seq<Step>
    requires Ordered(cuts, |actions|) && r + 1 < |cuts|
  {
    LinkSteps(actions[cuts[r]..cuts[r + 1]])
  }

  // The actions between two cuts hold a full round of the links.
  ghost predicate FairCuts(states: seq<System>, actions: seq<Action>, cuts: seq<nat>)
    requires |states| == |actions| + 1 && Ordered(cuts, |actions|)
  {
    forall r {:trigger Between(actions, cuts, r)} | 0 <= r < |cuts| - 1 ::
      Round(states[cuts[r]].ring, Between(actions, cuts, r), states[cuts[r + 1]].ring)
  }

  ghost function RingsAt(states: seq<System>, cuts: seq<nat>): (rings: seq<Ring>)
    requires states != [] && Ordered(cuts, |states| - 1)
    ensures |rings| == |cuts| && forall r | 0 <= r < |cuts| :: rings[r] == states[cuts[r]].ring
  {
    seq(|cuts|, r requires 0 <= r < |cuts| => states[cuts[r]].ring)
  }

  ghost function RoundsAt(actions: seq<Action>, cuts: seq<nat>): (rounds: seq<seq<Step>>)
    requires Ordered(cuts, |actions|)
    ensures |rounds| == |cuts| - 1
    ensures forall r | 0 <= r < |rounds| :: rounds[r] == Between(actions, cuts, r)
  {
    seq(|cuts| - 1, r requires 0 <= r < |cuts| - 1 => Between(actions, cuts, r))
  }

  lemma CutsAreRounds(states: seq<System>, actions: seq<Action>, cuts: seq<nat>)
    requires |states| == |actions| + 1 && Ordered(cuts, |actions|) && FairCuts(states, actions, cuts)
    ensures Rounds(RingsAt(states, cuts), RoundsAt(actions, cuts))
  {
    hide Round, Between;
    forall r | 0 <= r < |cuts| - 1
      ensures Round(RingsAt(states, cuts)[r], RoundsAt(actions, cuts)[r], RingsAt(states, cuts)[r + 1])
    {
      assert RoundsAt(actions, cuts)[r] == Between(actions, cuts, r);
    }
  }

  // Enough fair rounds settle the links of a run, whatever the calls of fix_fingers between.
  lemma FairCutsSettle(states: seq<System>, actions: seq<Action>, cuts: seq<nat>)
    requires |states| == |actions| + 1 && SystemRun(states, actions) && Starts(states[0])
    requires Ordered(cuts, |actions|) && FairCuts(states, actions, cuts)
    requires |states[cuts[0]].ring.post| >= 2 && |cuts| > 2 * RING * |states[cuts[0]].ring.post| + 1
    ensures var s := states[cuts[|cuts| - 1]];
            && Sound(s) && Sorted(s.ring) && Quiescent(s.ring)
            && s.ring.post.Keys == states[cuts[0]].ring.post.Keys && |s.ring.post| >= 2
  {
    hide SelfLoopsAlone, PresFit, NotesFit, PhasesFit, OneCycle, Sorted, Quiescent, Rounds, FairCuts, Closed;
    var rings, rounds, last := RingsAt(states, cuts), RoundsAt(actions, cuts), |cuts| - 1;
    RunIsSound(states, actions, cuts[0]);
    RunIsSound(states, actions, cuts[last]);
    CutsAreRounds(states, actions, cuts);
    FairRunsSettle(rings, rounds);
    SameMembers(rings, rounds);
    KeysCount(rings[0], rings[last]);
    QuiescentIffSorted(rings[last]);
  }

  lemma SameMembers(rings: seq<Ring>, rounds: seq<seq<Step>>)
    requires Rounds(rings, rounds) && Inv(rings[0])
    ensures |rings| == |rounds| + 1 && rings[|rounds|].post.Keys == rings[0].post.Keys
  {
    hide Inv, Round, Effective, Potential;
    EffectiveLowers(rings, rounds, |rounds|);
  }

  // In every run from the first member on: after enough fair rounds without joins and one
  // call of fix_fingers for each first finger, lookups are right with the one exception.
  lemma FairRunFinds(states: seq<System>, actions: seq<Action>, cuts: seq<nat>, n: nat, x: Key, hash: Key)
    requires |states| == |actions| + 1 && SystemRun(states, actions) && Starts(states[0])
    requires Ordered(cuts, |actions|) && FairCuts(states, actions, cuts)
    requires |states[cuts[0]].ring.post| >= 2 && |cuts| > 2 * RING * |states[cuts[0]].ring.post| + 1
    requires cuts[|cuts| - 1] <= n < |states| && NobodyJoins(actions[cuts[|cuts| - 1]..n])
    requires FirstsCalled(states[cuts[0]].ring.post.Keys, actions[cuts[|cuts| - 1]..n])
    requires !BothEnds(states[cuts[0]].ring.post) && x in states[cuts[0]].ring.post
    ensures var net := NetOf(states[n]);
            && net.post.Keys == states[cuts[0]].ring.post.Keys && Valid(net)
            && (IsOwner(net.post.Keys, hash, Find(net, x, hash).owner) <==>
                !(IsSmallest(net.post.Keys, hash) && x != hash))
  {
    hide SystemRun, Starts, FairCuts, Sound, Sorted, Quiescent, FirstsCalled, NobodyJoins;
    hide Valid, IsOwner, IsSmallest, Find;
    var last := cuts[|cuts| - 1];
    FairCutsSettle(states, actions, cuts);
    SameEnds(states[cuts[0]].ring.post, states[last].ring.post);
    RunIsSound(states, actions, last);
    SettledRunFinds(states, actions, last, n, x, hash);
  }

  lemma SameEnds(post: map<Key, Key>, next: map<Key, Key>)
    requires post.Keys == next.Keys
    ensures BothEnds(post) <==> BothEnds(next)
  {
  }
}

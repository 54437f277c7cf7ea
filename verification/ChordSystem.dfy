// The whole ring: links and fingers change side by side, from the first member on.
module ChordSystem {
  import opened ChordKeys
  import opened ChordProtocol
  import opened ChordInvariant
  import opened ChordConvergence
  import opened ChordEnds
  import opened ChordFairness
  import opened ChordFingers
  import opened ChordHops
  import opened ChordLookup

  datatype System = System(ring: Ring, fingers: map<Key, seq<Key>>)

  datatype Action = Links(step: Step) | Finger(fix: Fix)

  ghost function NetOf(s: System): Net {
    Net(s.ring.post, s.fingers)
  }

  // Before any call of fix_fingers every finger is the member itself.
  function OwnFingers(m: Key): (row: seq<Key>)
    ensures |row| == FINGERS
  {
    seq(FINGERS, _ => m)
  }

  ghost predicate Starts(s: System) {
    Init(s.ring) && s.fingers == map[s.ring.first := OwnFingers(s.ring.first)]
  }

  ghost predicate Sound(s: System) {
    Inv(s.ring) && Valid(NetOf(s))
  }

  ghost predicate CanAct(s: System, a: Action)
    requires Sound(s)
  {
    match a
    case Links(step) => Enabled(s.ring, step)
    case Finger(fix) => CanFix(s.ring.post, fix)
  }

  ghost function Act(s: System, a: Action): System
    requires Sound(s) && CanAct(s, a)
  {
    match a
    case Links(step) =>
      System(Apply(s.ring, step),
             if step.Join? then s.fingers[step.newcomer := OwnFingers(step.newcomer)] else s.fingers)
    case Finger(fix) => System(s.ring, Fixed(NetOf(s), fix).fingers)
  }

  lemma StartIsSound(s: System)
    requires Starts(s)
    ensures Sound(s)
  {
    hide Inv;
    InitHolds(s.ring);
  }

  lemma RowFitsMore(post: map<Key, Key>, next: map<Key, Key>, row: seq<Key>)
    requires RowFits(post, row) && post.Keys <= next.Keys
    ensures RowFits(next, row)
  {
  }

  lemma JoinedFingers(post: map<Key, Key>, next: map<Key, Key>, fingers: map<Key, seq<Key>>, n: Key)
    requires FingersFit(post, fingers) && post.Keys <= next.Keys && n in next
    ensures FingersFit(next, fingers[n := OwnFingers(n)])
  {
    assert RowFits(next, OwnFingers(n));
    hide RowFits;
    var more := fingers[n := OwnFingers(n)];
    forall m | m in more ensures RowFits(next, more[m]) {
      if m != n {
        RowFitsMore(post, next, fingers[m]);
      }
    }
  }

  lemma KeptFingers(post: map<Key, Key>, next: map<Key, Key>, fingers: map<Key, seq<Key>>)
    requires FingersFit(post, fingers) && post.Keys <= next.Keys
    ensures FingersFit(next, fingers)
  {
    hide RowFits;
    forall m | m in fingers ensures RowFits(next, fingers[m]) {
      RowFitsMore(post, next, fingers[m]);
    }
  }

  lemma ApplyKeys(s: Ring, step: Step)
    requires WellTyped(s) && Enabled(s, step)
    ensures Apply(s, step).post.Keys == s.post.Keys + if step.Join? then {step.newcomer} else {}
  {
    hide Adopted, Notified, Closed;
    match step
    case Join(n, c, found) =>
    case Adopt(m) =>
    case _ =>
  }

  lemma ActIsSound(s: System, a: Action)
    requires Sound(s) && CanAct(s, a)
    ensures Sound(Act(s, a))
  {
    hide Apply, Enabled, Fixed, Bridges, FingersFit, Closed;
    hide SelfLoopsAlone, PresFit, NotesFit, PhasesFit, OneCycle;
    match a
    case Links(step) =>
      StepHolds(s.ring, step);
      ApplyKeys(s.ring, step);
      var next := Apply(s.ring, step);
      assert Closed(next.post) by { assert WellTyped(next); }
      if step.Join? {
        JoinedFingers(s.ring.post, next.post, s.fingers, step.newcomer);
      } else {
        KeptFingers(s.ring.post, next.post, s.fingers);
      }
    case Finger(fix) =>
      assert Fixed(NetOf(s), fix) == Net(s.ring.post, Fixed(NetOf(s), fix).fingers);
  }

  // ----- runs

  ghost predicate SystemRun(states: seq<System>, actions: seq<Action>) {
    && |states| == |actions| + 1
    && forall i | 0 <= i < |actions| ::
         Sound(states[i]) && CanAct(states[i], actions[i]) && states[i + 1] == Act(states[i], actions[i])
  }

  // In every run fingers name members, and the links keep their invariant.
  lemma {:induction false} RunIsSound(states: seq<System>, actions: seq<Action>, n: nat)
    requires SystemRun(states, actions) && Starts(states[0]) && n < |states|
    ensures Sound(states[n])
  {
    hide Sound, CanAct, Act;
    if n == 0 {
      StartIsSound(states[0]);
    } else {
      ActIsSound(states[n - 1], actions[n - 1]);
    }
  }

  // ----- once the links have settled

  // The calls of fix_fingers among the actions, in order.
  ghost function FixesIn(actions: seq<Action>): seq<Fix>
    decreases |actions|
  {
    if actions == [] then []
    else
      var n := |actions| - 1;
      FixesIn(actions[..n]) + if actions[n].Finger? then [actions[n].fix] else []
  }

  lemma {:induction false} FixesInAppend(a: seq<Action>, b: seq<Action>)
    ensures FixesIn(a + b) == FixesIn(a) + FixesIn(b)
    decreases |b|
  {
    if b == [] {
      assert a + b == a;
    } else {
      var n := |b| - 1;
      FixesInAppend(a, b[..n]);
      assert (a + b)[..|a + b| - 1] == a + b[..n];
    }
  }

  lemma {:induction false} FixIsIn(actions: seq<Action>, f: Fix)
    requires Finger(f) in actions
    ensures f in FixesIn(actions)
    decreases |actions|
  {
    var n := |actions| - 1;
    assert actions == actions[..n] + [actions[n]];
    if actions[n] != Finger(f) {
      FixIsIn(actions[..n], f);
    }
  }

  ghost predicate NobodyJoins(actions: seq<Action>) {
    forall i | 0 <= i < |actions| :: !(actions[i].Links? && actions[i].step.Join?)
  }

  lemma SettledAct(s: System, a: Action)
    requires Sound(s) && Sorted(s.ring) && CanAct(s, a) && NobodyJoins([a])
    ensures Act(s, a).ring.post == s.ring.post && Sound(Act(s, a)) && Sorted(Act(s, a).ring)
    ensures NetOf(Act(s, a)) == if a.Finger? then Fixed(NetOf(s), a.fix) else NetOf(s)
  {
    hide Apply, Enabled, Fixed, Sorted, Valid;
    hide SelfLoopsAlone, PresFit, NotesFit, PhasesFit, OneCycle;
    ActIsSound(s, a);
    assert [a][0] == a;
    if a.Links? {
      SortedStep(s.ring, a.step);
    }
  }

  // On settled links a run does to the fingers what its calls of fix_fingers do.
  lemma {:induction false} SettledRun(states: seq<System>, actions: seq<Action>, j: nat, n: nat)
    requires SystemRun(states, actions) && j <= n < |states| && NobodyJoins(actions[j..n])
    requires Sound(states[j]) && Sorted(states[j].ring)
    ensures Sound(states[n]) && Sorted(states[n].ring) && states[n].ring.post == states[j].ring.post
    ensures CanFixAll(states[j].ring.post, FixesIn(actions[j..n]))
    ensures NetOf(states[n]) == AfterFixes(NetOf(states[j]), FixesIn(actions[j..n]))
    decreases n
  {
    hide Inv, Sorted, Act, CanFix, Fixed, Valid, WellTyped;
    if j == n {
      assert actions[j..n] == [];
    } else {
      var m, a := n - 1, actions[n - 1];
      assert actions[j..n][..n - 1 - j] == actions[j..m] && actions[j..n][n - 1 - j] == a;
      SettledRun(states, actions, j, m);
      SettledAct(states[m], a);
      ActCanFix(states[m], a);
      OneMoreFix(NetOf(states[j]), FixesIn(actions[j..m]), a);
    }
  }

  lemma OneMoreFix(net: Net, fixes: seq<Fix>, a: Action)
    requires Valid(net) && CanFixAll(net.post, fixes) && (a.Finger? ==> CanFix(net.post, a.fix))
    ensures var more := fixes + if a.Finger? then [a.fix] else [];
            && CanFixAll(net.post, more)
            && AfterFixes(net, more) ==
               if a.Finger? then Fixed(AfterFixes(net, fixes), a.fix) else AfterFixes(net, fixes)
  {
    hide CanFix, Fixed, Valid;
    if a.Finger? {
      assert (fixes + [a.fix])[..|fixes|] == fixes;
    } else {
      assert fixes + [] == fixes;
    }
  }

  lemma ActCanFix(s: System, a: Action)
    requires Sound(s) && CanAct(s, a)
    ensures a.Finger? ==> CanFix(s.ring.post, a.fix)
  {
  }

  // ----- what lookups answer, and how soon

  // From actions[j] to actions[k] every member calls fix_fingers for its first finger ...
  ghost predicate FirstsCalled(members: set<Key>, actions: seq<Action>) {
    forall m {:trigger Finger(Fix(m, 0)) in actions} | m in members :: Finger(Fix(m, 0)) in actions
  }

  // ... and after that for all the others.
  ghost predicate OthersCalled(members: set<Key>, actions: seq<Action>) {
    forall m, i {:trigger Finger(Fix(m, i)) in actions} | m in members && 0 < i < FINGERS ::
      Finger(Fix(m, i)) in actions
  }

  lemma CallsAreFixes(post: map<Key, Key>, actions: seq<Action>)
    ensures FirstsCalled(post.Keys, actions) ==> FirstsFixed(post, FixesIn(actions))
    ensures OthersCalled(post.Keys, actions) ==> OthersFixed(post, FixesIn(actions))
  {
    forall f | Finger(f) in actions ensures f in FixesIn(actions) {
      FixIsIn(actions, f);
    }
  }

  // A quiet stretch: links settled at j, nobody joins until n.
  ghost predicate Settled(states: seq<System>, actions: seq<Action>, j: nat, n: nat)
    requires j <= n < |states| == |actions| + 1
  {
    && SystemRun(states, actions) && Starts(states[0])
    && Sound(states[j]) && |states[j].ring.post| >= 2 && Quiescent(states[j].ring)
    && NobodyJoins(actions[j..n])
  }

  lemma SettledNet(states: seq<System>, actions: seq<Action>, j: nat, n: nat)
    requires j <= n < |states| == |actions| + 1 && Settled(states, actions, j, n)
    ensures Valid(NetOf(states[j])) && SortedPosts(states[j].ring.post)
    ensures CanFixAll(states[j].ring.post, FixesIn(actions[j..n]))
    ensures NetOf(states[n]) == AfterFixes(NetOf(states[j]), FixesIn(actions[j..n]))
  {
    hide SelfLoopsAlone, PresFit, NotesFit, PhasesFit, OneCycle, Quiescent, Sorted, SystemRun, SortedPosts, Closed;
    hide FixesIn, AfterFixes;
    QuiescentIffSorted(states[j].ring);
    SortedRingServes(states[j].ring);
    SettledRun(states, actions, j, n);
  }

  // Once every member has fixed its first finger on settled links, lookups are right in
  // every later state, with the one exception.
  lemma SettledRunFinds(states: seq<System>, actions: seq<Action>, j: nat, n: nat, x: Key, hash: Key)
    requires j <= n < |states| == |actions| + 1 && Settled(states, actions, j, n)
    requires FirstsCalled(states[j].ring.post.Keys, actions[j..n])
    requires !BothEnds(states[j].ring.post) && x in states[j].ring.post
    ensures var net := NetOf(states[n]);
            && net.post == states[j].ring.post && Valid(net)
            && (IsOwner(net.post.Keys, hash, Find(net, x, hash).owner) <==>
                !(IsSmallest(net.post.Keys, hash) && x != hash))
  {
    hide Settled, FirstsCalled, FirstsFixed, OthersCalled, OthersFixed, AfterFixes, FixesIn;
    hide Valid, SortedPosts, FirstFingerIsPost, IsOwner, IsSmallest, Find, BothEnds, CanFixAll;
    SettledNet(states, actions, j, n);
    CallsAreFixes(states[j].ring.post, actions[j..n]);
    FirstsArePosts(NetOf(states[j]), FixesIn(actions[j..n]));
    FindCorrectIff(NetOf(states[n]), x, hash);
  }

  // With the other fingers fixed after that, a lookup is passed on at most 32 times.
  lemma SettledRunHops(states: seq<System>, actions: seq<Action>, j: nat, k: nat, n: nat, x: Key, hash: Key)
    requires j <= n < |states| == |actions| + 1 && Settled(states, actions, j, n) && j <= k <= n
    requires FirstsCalled(states[j].ring.post.Keys, actions[j..k])
    requires OthersCalled(states[j].ring.post.Keys, actions[k..n])
    requires !BothEnds(states[j].ring.post) && x in states[j].ring.post
    ensures var net := NetOf(states[n]);
            net.post == states[j].ring.post && Valid(net) && Find(net, x, hash).hops <= 32
  {
    hide Settled, FirstsCalled, FirstsFixed, OthersCalled, OthersFixed, AfterFixes, FixesIn;
    hide Valid, SortedPosts, FingersFixed, Find, BothEnds, CanFixAll;
    var post, a, b := states[j].ring.post, actions[j..k], actions[k..n];
    SettledNet(states, actions, j, n);
    assert actions[j..n] == a + b;
    FixesInAppend(a, b);
    CallsAreFixes(post, a);
    CallsAreFixes(post, b);
    var fixes, h := FixesIn(a + b), |FixesIn(a)|;
    assert fixes[..h] == FixesIn(a) && fixes[h..] == FixesIn(b);
    FixesReachFixed(NetOf(states[j]), fixes, h);
    HopBoundFixed(NetOf(states[n]), x, hash);
  }

  // With both keys 2^32 - 1 and 0 on the ring, lookups upwards are right, and every wrong
  // answer to another one is the largest member.
  lemma SettledRunBothEnds(states: seq<System>, actions: seq<Action>, j: nat, n: nat, x: Key, hash: Key)
    requires j <= n < |states| == |actions| + 1 && Settled(states, actions, j, n)
    requires FirstsCalled(states[j].ring.post.Keys, actions[j..n])
    requires BothEnds(states[j].ring.post) && x in states[j].ring.post
    ensures var net := NetOf(states[n]);
            && net.post == states[j].ring.post && Valid(net)
            && (IsOwner(net.post.Keys, hash, Find(net, x, hash).owner)
                || (hash < x && Find(net, x, hash).owner == RING - 1))
  {
    hide Settled, FirstsCalled, FirstsFixed, OthersCalled, OthersFixed, AfterFixes, FixesIn;
    hide Valid, SortedPosts, FirstsButLast, IsOwner, Find, BothEnds, CanFixAll;
    SettledNet(states, actions, j, n);
    CallsAreFixes(states[j].ring.post, actions[j..n]);
    FirstsButLastReached(NetOf(states[j]), FixesIn(actions[j..n]));
    if x <= hash {
      FindUpwards(NetOf(states[n]), x, hash);
    } else {
      FindDownwards(NetOf(states[n]), x, hash);
    }
  }

  // There, a lookup from x is right exactly if ...
  lemma SettledRunBothEndsIff(states: seq<System>, actions: seq<Action>, j: nat, n: nat, x: Key, hash: Key)
    requires j <= n < |states| == |actions| + 1 && Settled(states, actions, j, n)
    requires FirstsCalled(states[j].ring.post.Keys, actions[j..n])
    requires BothEnds(states[j].ring.post) && x in states[j].ring.post
    ensures var net := NetOf(states[n]);
            && net.post == states[j].ring.post && Valid(net)
            && (IsOwner(net.post.Keys, hash, Find(net, x, hash).owner) <==>
                x <= hash || Crosses(net, x, hash) ||
                (if x == RING - 1 then LargestRight(net, hash) else LargestLeads(net, hash)))
  {
    hide Settled, FirstsCalled, FirstsFixed, OthersCalled, OthersFixed, AfterFixes, FixesIn;
    hide Valid, SortedPosts, FirstsButLast, IsOwner, Find, CanFixAll, LargestLeads, LargestRight, Crosses;
    SettledNet(states, actions, j, n);
    CallsAreFixes(states[j].ring.post, actions[j..n]);
    FirstsButLastReached(NetOf(states[j]), FixesIn(actions[j..n]));
    BothEndsFindIff(NetOf(states[n]), x, hash);
  }

  // ... and the lookups of a key are right from everywhere exactly if the largest member is.
  lemma SettledRunAllIff(states: seq<System>, actions: seq<Action>, j: nat, n: nat, hash: Key)
    requires j <= n < |states| == |actions| + 1 && Settled(states, actions, j, n)
    requires FirstsCalled(states[j].ring.post.Keys, actions[j..n]) && BothEnds(states[j].ring.post)
    ensures var net := NetOf(states[n]);
            && net.post == states[j].ring.post && Valid(net)
            && ((forall y | y in net.post :: IsOwner(net.post.Keys, hash, Find(net, y, hash).owner)) <==>
                LargestRight(net, hash))
  {
    hide Settled, FirstsCalled, FirstsFixed, OthersCalled, OthersFixed, AfterFixes, FixesIn;
    hide Valid, SortedPosts, FirstsButLast, IsOwner, Find, CanFixAll, LargestLeads, LargestRight;
    SettledNet(states, actions, j, n);
    CallsAreFixes(states[j].ring.post, actions[j..n]);
    FirstsButLastReached(NetOf(states[j]), FixesIn(actions[j..n]));
    BothEndsAllIff(NetOf(states[n]), hash);
  }

  // With the other fingers fixed after that, forwards are bounded there too.
  lemma SettledRunHopsBothEnds(states: seq<System>, actions: seq<Action>, j: nat, k: nat, n: nat, x: Key, hash: Key)
    requires j <= n < |states| == |actions| + 1 && Settled(states, actions, j, n) && j <= k <= n
    requires FirstsCalled(states[j].ring.post.Keys, actions[j..k])
    requires OthersCalled(states[j].ring.post.Keys, actions[k..n])
    requires BothEnds(states[j].ring.post) && x in states[j].ring.post
    ensures var net := NetOf(states[n]);
            net.post == states[j].ring.post && Valid(net) && Find(net, x, hash).hops <= if x <= hash then 31 else 32
  {
    hide Settled, FirstsCalled, FirstsFixed, OthersCalled, OthersFixed, AfterFixes, FixesIn;
    hide Valid, SortedPosts, EndsFixed, Find, BothEnds, CanFixAll;
    var post, a, b := states[j].ring.post, actions[j..k], actions[k..n];
    SettledNet(states, actions, j, n);
    assert actions[j..n] == a + b;
    FixesInAppend(a, b);
    CallsAreFixes(post, a);
    CallsAreFixes(post, b);
    var fixes, h := FixesIn(a + b), |FixesIn(a)|;
    assert fixes[..h] == FixesIn(a) && fixes[h..] == FixesIn(b);
    FixesReachEnds(NetOf(states[j]), fixes, h);
    HopBoundBothEnds(NetOf(states[n]), x, hash);
  }
}

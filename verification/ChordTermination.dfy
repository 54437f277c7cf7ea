// Between joins only finitely many steps change a postnode or prenode, and a sorted ring is within reach.
module ChordTermination {
  import opened ChordKeys
  import opened ChordProtocol
  import opened ChordInvariant
  import opened ChordConvergence

  // ----- sums over members

  ghost function Sum(members: set<Key>, gap: map<Key, nat>): nat
    requires members <= gap.Keys
  {
    if members == {} then 0 else var x :| x in members; gap[x] + Sum(members - {x}, gap)
  }

  lemma {:induction false} SumPick(members: set<Key>, gap: map<Key, nat>, x: Key)
    requires members <= gap.Keys && x in members
    ensures Sum(members, gap) == gap[x] + Sum(members - {x}, gap)
  {
    var y :| y in members && Sum(members, gap) == gap[y] + Sum(members - {y}, gap);
    if y != x {
      SumPick(members - {y}, gap, x);
      SumPick(members - {x}, gap, y);
      assert members - {y} - {x} == members - {x} - {y};
    }
  }

  lemma {:induction false} SumAgrees(members: set<Key>, gap: map<Key, nat>, next: map<Key, nat>)
    requires members <= gap.Keys && members <= next.Keys
    requires forall x | x in members :: gap[x] == next[x]
    ensures Sum(members, gap) == Sum(members, next)
  {
    if members != {} {
      var x :| x in members;
      SumPick(members, gap, x);
      SumPick(members, next, x);
      SumAgrees(members - {x}, gap, next);
    }
  }

  // Changing one summand changes the sum by as much.
  lemma SumChange(gap: map<Key, nat>, x: Key, value: nat)
    requires x in gap
    ensures Sum(gap.Keys, gap[x := value]) + gap[x] == Sum(gap.Keys, gap) + value
  {
    var next := gap[x := value];
    SumPick(gap.Keys, gap, x);
    SumPick(gap.Keys, next, x);
    SumAgrees(gap.Keys - {x}, gap, next);
  }

  lemma {:induction false} SumBound(members: set<Key>, gap: map<Key, nat>)
    requires members <= gap.Keys && forall x | x in members :: gap[x] <= RING
    ensures Sum(members, gap) <= RING * |members|
  {
    if members != {} {
      var x :| x in members;
      SumPick(members, gap, x);
      SumBound(members - {x}, gap);
    }
  }

  // ----- the potential

  ghost function PostGaps(post: Links): (gaps: map<Key, nat>)
    ensures gaps.Keys == post.Keys
  {
    map m | m in post :: Dist(m, post[m])
  }

  // No predecessor counts as the farthest.
  ghost function PreGap(m: Key, pre: Option<Key>): nat {
    if pre.None? then RING else Dist(pre.value, m)
  }

  ghost function PreGaps(pre: map<Key, Option<Key>>): (gaps: map<Key, nat>)
    ensures gaps.Keys == pre.Keys
  {
    map m | m in pre :: PreGap(m, pre[m])
  }

  ghost function Potential(post: Links, pre: map<Key, Option<Key>>): nat {
    Sum(post.Keys, PostGaps(post)) + Sum(pre.Keys, PreGaps(pre))
  }

  lemma PotentialBound(post: Links, pre: map<Key, Option<Key>>)
    ensures Potential(post, pre) <= RING * |post| + RING * |pre|
  {
    SumBound(post.Keys, PostGaps(post));
    SumBound(pre.Keys, PreGaps(pre));
  }

  lemma AdoptLowers(post: Links, pre: map<Key, Option<Key>>, m: Key, answer: Option<Key>)
    requires m in post && Adopted(m, post[m], answer) != post[m]
    ensures Dist(m, Adopted(m, post[m], answer)) < Dist(m, post[m])
    ensures Potential(post[m := Adopted(m, post[m], answer)], pre) < Potential(post, pre)
  {
    var v := Adopted(m, post[m], answer);
    SumChange(PostGaps(post), m, Dist(m, v));
    assert PostGaps(post[m := v]) == PostGaps(post)[m := Dist(m, v)];
    assert post[m := v].Keys == post.Keys;
  }

  lemma NotifyLowers(post: Links, pre: map<Key, Option<Key>>, m: Key, from: Key)
    requires m in pre && Notified(m, pre[m], from) != pre[m]
    ensures PreGap(m, Notified(m, pre[m], from)) < PreGap(m, pre[m])
    ensures Potential(post, pre[m := Notified(m, pre[m], from)]) < Potential(post, pre)
  {
    var p := Notified(m, pre[m], from);
    SumChange(PreGaps(pre), m, PreGap(m, p));
    assert PreGaps(pre[m := p]) == PreGaps(pre)[m := PreGap(m, p)];
    assert pre[m := p].Keys == pre.Keys;
  }

  lemma AdoptStepLowers(s: Ring, m: Key)
    requires WellTyped(s) && Enabled(s, Adopt(m))
    ensures var t := Apply(s, Adopt(m));
            && t.post.Keys == s.post.Keys && t.pre == s.pre
            && (t.post == s.post || Potential(t.post, t.pre) < Potential(s.post, s.pre))
  {
    hide Potential, Adopted, Closed;
    if Adopted(m, s.post[m], s.phase[m].answer) != s.post[m] {
      AdoptLowers(s.post, s.pre, m, s.phase[m].answer);
    }
  }

  lemma DeliverStepLowers(s: Ring, note: Note)
    requires WellTyped(s) && Enabled(s, DeliverNotify(note))
    ensures var t := Apply(s, DeliverNotify(note));
            && t.post == s.post
            && (t.pre == s.pre || Potential(t.post, t.pre) < Potential(s.post, s.pre))
  {
    hide Potential, Notified, Closed;
    if Notified(note.to, s.pre[note.to], note.from) != s.pre[note.to] {
      NotifyLowers(s.post, s.pre, note.to, note.from);
    }
  }

  // Apart from joins, a step either leaves every postnode and prenode as it is or lowers the potential.
  lemma StepLowers(s: Ring, step: Step)
    requires WellTyped(s) && Enabled(s, step) && !step.Join?
    ensures Apply(s, step).post.Keys == s.post.Keys
    ensures var t := Apply(s, step);
            (t.post == s.post && t.pre == s.pre) || Potential(t.post, t.pre) < Potential(s.post, s.pre)
  {
    hide Potential, Adopted, Notified, Closed;
    match step
    case Adopt(m) => AdoptStepLowers(s, m);
    case DeliverNotify(note) => DeliverStepLowers(s, note);
    case _ =>
  }

  // ----- stretches of a run without joins

  ghost predicate Leads(s: Ring, steps: seq<Step>, t: Ring)
    decreases |steps|
  {
    if steps == [] then s == t
    else !steps[0].Join? && WellTyped(s) && Enabled(s, steps[0]) && Leads(Apply(s, steps[0]), steps[1..], t)
  }

  // How many of the steps change a postnode or a prenode.
  ghost function Changes(s: Ring, steps: seq<Step>, t: Ring): nat
    requires Leads(s, steps, t)
    decreases |steps|
  {
    if steps == [] then 0
    else
      var u := Apply(s, steps[0]);
      (if u.post == s.post && u.pre == s.pre then 0 else 1) + Changes(u, steps[1..], t)
  }

  lemma {:induction false} ChangesLowerPotential(s: Ring, steps: seq<Step>, t: Ring)
    requires Leads(s, steps, t)
    ensures t.post.Keys == s.post.Keys
    ensures Changes(s, steps, t) + Potential(t.post, t.pre) <= Potential(s.post, s.pre)
    decreases |steps|
  {
    hide Potential;
    if steps != [] {
      StepLowers(s, steps[0]);
      hide Apply, Enabled;
      ChangesLowerPotential(Apply(s, steps[0]), steps[1..], t);
    }
  }

  // Between two joins, however long the run, at most 2 * 2^32 changes per member.
  lemma ChangesBounded(s: Ring, steps: seq<Step>, t: Ring)
    requires WellTyped(s) && Leads(s, steps, t)
    ensures Changes(s, steps, t) <= 2 * RING * |s.post|
  {
    hide Leads, Changes, Apply, Enabled, Potential, Closed;
    ChangesLowerPotential(s, steps, t);
    PotentialBound(s.post, s.pre);
    assert |s.pre.Keys| == |s.post.Keys|;
  }

  // ----- a sorted ring is within reach

  lemma {:induction false} LeadsOn(s: Ring, steps: seq<Step>, t: Ring, more: seq<Step>, u: Ring)
    requires Leads(s, steps, t) && Leads(t, more, u)
    ensures Leads(s, steps + more, u)
    decreases |steps|
  {
    hide Apply, Enabled, WellTyped;
    if steps == [] {
      assert steps + more == more;
    } else {
      LeadsOn(Apply(s, steps[0]), steps[1..], t, more, u);
      assert (steps + more)[0] == steps[0] && (steps + more)[1..] == steps[1..] + more;
    }
  }

  lemma OneStep(s: Ring, step: Step) returns (t: Ring)
    requires Inv(s) && Enabled(s, step) && !step.Join?
    ensures t == Apply(s, step) && Leads(s, [step], t) && Inv(t)
    ensures t.post.Keys == s.post.Keys
    ensures (t.post == s.post && t.pre == s.pre) || Potential(t.post, t.pre) < Potential(s.post, s.pre)
  {
    hide Apply, Enabled, Potential, Bridges, WellTyped;
    hide SelfLoopsAlone, PresFit, NotesFit, PhasesFit, OneCycle;
    t := Apply(s, step);
    StepHolds(s, step);
    StepLowers(s, step);
    assert [step][1..] == [];
    assert Leads(t, [], t);
  }

  // Progress from s to t: nobody joined, no potential was gained.
  ghost predicate Progress(s: Ring, steps: seq<Step>, t: Ring) {
    && Leads(s, steps, t) && Inv(t) && t.post.Keys == s.post.Keys
    && ((t.post == s.post && t.pre == s.pre) || Potential(t.post, t.pre) < Potential(s.post, s.pre))
  }

  lemma ProgressOn(s: Ring, steps: seq<Step>, t: Ring, step: Step) returns (u: Ring)
    requires Progress(s, steps, t) && Enabled(t, step) && !step.Join?
    ensures u == Apply(t, step) && Progress(s, steps + [step], u)
  {
    hide Apply, Enabled, Potential, Leads, Inv;
    u := OneStep(t, step);
    LeadsOn(s, steps, t, [step], u);
  }

  // ----- a full exchange

  lemma PhaseKnown(t: Ring, m: Key)
    requires Inv(t) && m in t.post
    ensures m in t.phase && m in t.pre
    ensures t.phase[m].Asked? ==> t.phase[m].successor in t.post && t.phase[m].successor in t.pre
    ensures t.post[m] in t.post && t.post[m] in t.pre
  {
    hide SelfLoopsAlone, PresFit, NotesFit, OneCycle;
    assert PhaseFits(t.post, m, t.pre[m], t.phase[m]);
  }

  lemma DoReply(s: Ring, steps: seq<Step>, t: Ring, m: Key) returns (more: seq<Step>, u: Ring)
    requires Progress(s, steps, t) && m in t.post && m in t.phase && t.phase[m].Asked?
    ensures Progress(s, more, u) && u.post == t.post && u.pre == t.pre
    ensures m in u.phase && u.phase[m].Replied?
    ensures t.phase[m].successor in t.pre && u.phase[m].answer == t.pre[t.phase[m].successor]
  {
    hide Leads, Potential, Closed;
    hide SelfLoopsAlone, PresFit, NotesFit, PhasesFit, OneCycle;
    PhaseKnown(t, m);
    u := ProgressOn(s, steps, t, Reply(m));
    more := steps + [Reply(m)];
  }

  lemma DoAdopt(s: Ring, steps: seq<Step>, t: Ring, m: Key) returns (more: seq<Step>, u: Ring)
    requires Progress(s, steps, t) && m in t.post && m in t.phase && t.phase[m].Replied?
    ensures Progress(s, more, u) && u.post == t.post[m := Adopted(m, t.post[m], t.phase[m].answer)]
    ensures m in u.phase && u.phase[m].Idle? && u.pre == t.pre
  {
    hide Leads, Potential, Adopted, Closed;
    hide SelfLoopsAlone, PresFit, NotesFit, PhasesFit, OneCycle;
    u := ProgressOn(s, steps, t, Adopt(m));
    more := steps + [Adopt(m)];
  }

  lemma DoAsk(s: Ring, steps: seq<Step>, t: Ring, m: Key) returns (more: seq<Step>, u: Ring)
    requires Progress(s, steps, t) && m in t.post && m in t.phase && t.phase[m].Idle?
    ensures Progress(s, more, u) && u.post == t.post && u.pre == t.pre
    ensures m in u.phase && u.phase[m] == Asked(t.post[m])
  {
    hide Leads, Potential, Closed;
    hide SelfLoopsAlone, PresFit, NotesFit, PhasesFit, OneCycle;
    u := ProgressOn(s, steps, t, Ask(m));
    more := steps + [Ask(m)];
  }

  lemma Standstill(s: Ring)
    requires Inv(s)
    ensures Progress(s, [], s)
  {
    hide Inv, Potential;
    assert Leads(s, [], s);
  }

  // m finishes the stabilize exchange it is in, if any.
  lemma FinishExchange(s: Ring, m: Key) returns (steps: seq<Step>, t: Ring)
    requires Inv(s) && m in s.post
    ensures Progress(s, steps, t) && m in t.post && m in t.phase && t.phase[m].Idle?
  {
    hide Inv, Leads, Potential, Adopted, Progress;
    PhaseKnown(s, m);
    Standstill(s);
    steps, t := [], s;
    if t.phase[m].Asked? {
      steps, t := DoReply(s, steps, t, m);
    }
    if t.phase[m].Replied? {
      steps, t := DoAdopt(s, steps, t, m);
    }
  }

  // A fresh exchange of m brings it the prenode of its postnode.
  lemma FreshExchange(s: Ring, steps: seq<Step>, t: Ring, m: Key) returns (more: seq<Step>, u: Ring)
    requires Progress(s, steps, t) && m in t.post && m in t.phase && t.phase[m].Idle?
    ensures t.post[m] in t.pre
    ensures Progress(s, more, u) && u.pre == t.pre
    ensures u.post == t.post[m := Adopted(m, t.post[m], t.pre[t.post[m]])]
  {
    hide Inv, Leads, Potential, Adopted;
    PhaseKnown(t, m);
    more, u := DoAsk(s, steps, t, m);
    more, u := DoReply(s, more, u, m);
    more, u := DoAdopt(s, more, u, m);
  }

  lemma FreshNotify(s: Ring, m: Key) returns (steps: seq<Step>, u: Ring)
    requires Inv(s) && m in s.post
    ensures s.post[m] in s.pre
    ensures Progress(s, steps, u) && u.post == s.post
    ensures u.pre == s.pre[s.post[m] := Notified(s.post[m], s.pre[s.post[m]], m)]
  {
    hide Leads, Potential, Notified;
    hide SelfLoopsAlone, PresFit, NotesFit, PhasesFit, OneCycle;
    PhaseKnown(s, m);
    Standstill(s);
    u := ProgressOn(s, [], s, SendNotify(m));
    steps := [] + [SendNotify(m)];
    var note := Note(m, s.post[m]);
    u := ProgressOn(s, steps, u, DeliverNotify(note));
    steps := steps + [DeliverNotify(note)];
  }

  lemma ImprovePost(s: Ring, m: Key) returns (steps: seq<Step>, t: Ring)
    requires Inv(s) && m in s.post && s.post[m] in s.pre
    requires Adopted(m, s.post[m], s.pre[s.post[m]]) != s.post[m]
    ensures Progress(s, steps, t) && Potential(t.post, t.pre) < Potential(s.post, s.pre)
  {
    hide Inv, Leads, Potential, Adopted;
    steps, t := FinishExchange(s, m);
    if t.post == s.post && t.pre == s.pre {
      steps, t := FreshExchange(s, steps, t, m);
      assert t.post[m] != s.post[m];
    }
  }

  lemma ImprovePre(s: Ring, m: Key) returns (steps: seq<Step>, t: Ring)
    requires Inv(s) && m in s.post && s.post[m] in s.pre
    requires Notified(s.post[m], s.pre[s.post[m]], m) != s.pre[s.post[m]]
    ensures Progress(s, steps, t) && Potential(t.post, t.pre) < Potential(s.post, s.pre)
  {
    hide Inv, Leads, Potential, Notified;
    steps, t := FreshNotify(s, m);
    assert t.pre[s.post[m]] != s.pre[s.post[m]];
  }

  lemma Unquiet(s: Ring) returns (m: Key)
    requires Inv(s) && !Quiescent(s)
    ensures m in s.post && s.post[m] in s.pre
    ensures || Adopted(m, s.post[m], s.pre[s.post[m]]) != s.post[m]
            || Notified(s.post[m], s.pre[s.post[m]], m) != s.pre[s.post[m]]
  {
    hide SelfLoopsAlone, PresFit, NotesFit, PhasesFit, OneCycle, Adopted, Notified;
    m :| m in s.post && !QuietAt(s, m);
  }

  // While the ring is not quiescent, some exchange lowers the potential.
  lemma Improve(s: Ring) returns (steps: seq<Step>, t: Ring)
    requires Inv(s) && !Quiescent(s)
    ensures Progress(s, steps, t) && Potential(t.post, t.pre) < Potential(s.post, s.pre)
  {
    hide Inv, Potential, Adopted, Notified, Progress, Quiescent;
    var m := Unquiet(s);
    if Adopted(m, s.post[m], s.pre[s.post[m]]) != s.post[m] {
      steps, t := ImprovePost(s, m);
    } else {
      steps, t := ImprovePre(s, m);
    }
  }

  lemma KeysCount(s: Ring, t: Ring)
    requires t.post.Keys == s.post.Keys
    ensures |t.post| == |s.post|
  {
    assert |t.post.Keys| == |t.post| && |s.post.Keys| == |s.post|;
  }

  lemma QuiescentIsSorted(s: Ring)
    requires Inv(s) && |s.post| >= 2 && Quiescent(s)
    ensures Sorted(s)
  {
    hide SelfLoopsAlone, PresFit, NotesFit, PhasesFit, OneCycle, Sorted, Quiescent;
    QuiescentIffSorted(s);
  }

  // From every reachable state, some further steps without joins lead to the sorted ring.
  lemma {:induction false} CanSettle(s: Ring) returns (steps: seq<Step>, t: Ring)
    requires Inv(s) && |s.post| >= 2
    ensures Leads(s, steps, t) && Inv(t) && t.post.Keys == s.post.Keys && Sorted(t)
    decreases Potential(s.post, s.pre)
  {
    hide SelfLoopsAlone, PresFit, NotesFit, PhasesFit, OneCycle, Leads, Potential, Sorted, Quiescent, Closed;
    if Quiescent(s) {
      Standstill(s);
      QuiescentIsSorted(s);
      steps, t := [], s;
    } else {
      var first, u := Improve(s);
      KeysCount(s, u);
      var rest;
      rest, t := CanSettle(u);
      LeadsOn(s, first, u, rest, t);
      steps := first + rest;
    }
  }
}

// What every reachable state of a pure-join run keeps.
module ChordInvariant {
  import opened ChordKeys
  import opened ChordProtocol

  type Links = map<Key, Key>

  // Only a member alone on the ring is its own successor.
  ghost predicate SelfLoopsAlone(post: Links) {
    forall m {:trigger AloneAt(post, m)} | m in post :: AloneAt(post, m)
  }

  ghost predicate AloneAt(post: Links, m: Key)
    requires m in post
  {
    post[m] == m ==> post.Keys == {m}
  }

  // A predecessor lies on a path that leads to its owner without passing it.
  ghost predicate PreFits(post: Links, m: Key, pre: Option<Key>) {
    pre.Some? ==>
      && pre.value in post
      && Path(post, pre.value, m)
      && (pre.value == m ==> m in post && post[m] == m)
  }

  ghost predicate PresFit(first: Key, post: Links, pre: map<Key, Option<Key>>) {
    && first in pre && pre[first].Some?
    && forall m {:trigger PreFits(post, m, pre[m])} | m in pre :: PreFits(post, m, pre[m])
  }

  // So does the sender of every notify, however late it arrives.
  ghost predicate NoteFits(first: Key, post: Links, note: Note) {
    && note.from in post && note.to in post
    && Path(post, note.from, note.to)
    && (note.from == note.to ==> note.from == first)
  }

  ghost predicate NotesFit(first: Key, post: Links, notes: set<Note>) {
    forall note {:trigger NoteFits(first, post, note)} | note in notes :: NoteFits(first, post, note)
  }

  // A stabilize request is with the current successor, or the first member sent it to
  // itself before anybody joined; then its predecessor is not nearer than its successor.
  // A reply that would be adopted names a member on a path to the current successor.
  ghost predicate PhaseFits(post: Links, m: Key, pre: Option<Key>, phase: Phase)
    requires m in post
  {
    match phase
    case Idle => true
    case Asked(t) => t == post[m] || (t == m && pre.Some? && !Inside(m, pre.value, post[m]))
    case Replied(answer) => answer.Some? ==> AnswerFits(post, m, answer.value)
  }

  ghost predicate AnswerFits(post: Links, m: Key, v: Key)
    requires m in post
  {
    v in post && (Inside(m, v, post[m]) ==> Path(post, v, post[m]))
  }

  ghost predicate PhasesFit(post: Links, pre: map<Key, Option<Key>>, phase: map<Key, Phase>) {
    && phase.Keys <= post.Keys && phase.Keys <= pre.Keys
    && forall m {:trigger PhaseFits(post, m, pre[m], phase[m])} | m in phase :: PhaseFits(post, m, pre[m], phase[m])
  }

  // One cycle: the postnodes of the first member lead once around, back to it, and
  // those of every other member lead into that cycle.
  ghost predicate OneCycle(first: Key, post: Links) {
    && first in post && Path(post, post[first], first)
    && forall m {:trigger Reach(post, m, first)} | m in post :: Reach(post, m, first)
  }

  ghost predicate Inv(s: Ring) {
    && WellTyped(s)
    && SelfLoopsAlone(s.post)
    && PresFit(s.first, s.post, s.pre)
    && NotesFit(s.first, s.post, s.notes)
    && PhasesFit(s.post, s.pre, s.phase)
    && OneCycle(s.first, s.post)
  }

  lemma InitLinks(first: Key)
    ensures SelfLoopsAlone(map[first := first])
    ensures PresFit(first, map[first := first], map[first := Some(first)])
    ensures NotesFit(first, map[first := first], {})
    ensures PhasesFit(map[first := first], map[first := Some(first)], map[first := Idle])
  {
  }

  lemma InitCycle(first: Key)
    ensures OneCycle(first, map[first := first])
  {
    assert ReachIn(map[first := first], first, first, 0);
  }

  lemma InitHolds(s: Ring)
    requires Init(s)
    ensures Inv(s)
  {
    hide SelfLoopsAlone, PresFit, NotesFit, PhasesFit, OneCycle;
    InitLinks(s.first);
    InitCycle(s.first);
  }

  // ----- steps that leave the postnodes alone

  lemma PhaseChange(post: Links, pre: map<Key, Option<Key>>, phase: map<Key, Phase>, m: Key, p: Phase)
    requires PhasesFit(post, pre, phase) && m in phase && PhaseFits(post, m, pre[m], p)
    ensures PhasesFit(post, pre, phase[m := p])
  {
    hide PhaseFits;
  }

  lemma AskedFits(post: Links, m: Key, pre: Option<Key>)
    requires m in post
    ensures PhaseFits(post, m, pre, Asked(post[m]))
  {
  }

  lemma AskHolds(s: Ring, m: Key)
    requires Inv(s) && Enabled(s, Ask(m))
    ensures Inv(Apply(s, Ask(m)))
    ensures Apply(s, Ask(m)).post == s.post
  {
    hide SelfLoopsAlone, PresFit, NotesFit, PhasesFit, OneCycle, PhaseFits, PreFits, NoteFits, Path,
         Notified, Adopted, Bridges;
    AskedFits(s.post, m, s.pre[m]);
    PhaseChange(s.post, s.pre, s.phase, m, Asked(s.post[m]));
  }

  // The reply carries the predecessor of the member that was asked.
  lemma ReplyFits(s: Ring, m: Key)
    requires Inv(s) && Enabled(s, Reply(m))
    ensures PhaseFits(s.post, m, s.pre[m], Replied(s.pre[s.phase[m].successor]))
  {
    hide SelfLoopsAlone, NotesFit, OneCycle, Path;
    assert PhaseFits(s.post, m, s.pre[m], s.phase[m]);
    assert PreFits(s.post, s.phase[m].successor, s.pre[s.phase[m].successor]);
  }

  lemma ReplyHolds(s: Ring, m: Key)
    requires Inv(s) && Enabled(s, Reply(m))
    ensures Inv(Apply(s, Reply(m)))
    ensures Apply(s, Reply(m)).post == s.post
  {
    hide SelfLoopsAlone, PresFit, NotesFit, PhasesFit, OneCycle, PhaseFits, PreFits, NoteFits, Path,
         Notified, Adopted, Bridges;
    ReplyFits(s, m);
    PhaseChange(s.post, s.pre, s.phase, m, Replied(s.pre[s.phase[m].successor]));
  }

  lemma SentFits(first: Key, post: Links, notes: set<Note>, m: Key)
    requires m in post && post[m] in post && NotesFit(first, post, notes) && SelfLoopsAlone(post) && first in post
    ensures NotesFit(first, post, notes + {Note(m, post[m])})
  {
    assert NoteFits(first, post, Note(m, post[m])) by {
      assert Path(post, m, post[m]);
      assert AloneAt(post, m);
    }
    hide NoteFits;
  }

  lemma SendHolds(s: Ring, m: Key)
    requires Inv(s) && Enabled(s, SendNotify(m))
    ensures Inv(Apply(s, SendNotify(m)))
    ensures Apply(s, SendNotify(m)).post == s.post
  {
    hide SelfLoopsAlone, PresFit, NotesFit, PhasesFit, OneCycle, PhaseFits, PreFits, NoteFits, Path,
         Notified, Adopted, Bridges;
    SentFits(s.first, s.post, s.notes, m);
  }

  // A delivered notify keeps the predecessor on a path to its owner, and keeps it from
  // entering the arc that a pending reply of the owner to itself could open.
  lemma NotifiedFits(first: Key, post: Links, note: Note, pre: Option<Key>, phase: Phase)
    requires NoteFits(first, post, note) && PreFits(post, note.to, pre)
    requires note.to == first ==> pre.Some?
    requires SelfLoopsAlone(post)
    requires PhaseFits(post, note.to, pre, phase)
    ensures PreFits(post, note.to, Notified(note.to, pre, note.from))
    ensures PhaseFits(post, note.to, Notified(note.to, pre, note.from), phase)
  {
    hide Path;
  }

  lemma PreChange(first: Key, post: Links, pre: map<Key, Option<Key>>, phase: map<Key, Phase>, m: Key, p: Option<Key>)
    requires PresFit(first, post, pre) && PhasesFit(post, pre, phase)
    requires m in phase && p.Some? && PreFits(post, m, p) && PhaseFits(post, m, p, phase[m])
    ensures PresFit(first, post, pre[m := p]) && PhasesFit(post, pre[m := p], phase)
  {
    hide PhaseFits, PreFits;
  }

  lemma DeliverFits(first: Key, post: Links, pre: map<Key, Option<Key>>, phase: map<Key, Phase>,
      notes: set<Note>, note: Note)
    requires PresFit(first, post, pre) && PhasesFit(post, pre, phase) && NotesFit(first, post, notes)
    requires SelfLoopsAlone(post)
    requires note in notes && note.to in phase
    ensures note.to in pre
    ensures var p := Notified(note.to, pre[note.to], note.from);
            PresFit(first, post, pre[note.to := p]) && PhasesFit(post, pre[note.to := p], phase)
  {
    hide SelfLoopsAlone, NoteFits, PreFits, PhaseFits, Notified;
    assert NoteFits(first, post, note);
    assert PreFits(post, note.to, pre[note.to]);
    NotifiedFits(first, post, note, pre[note.to], phase[note.to]);
    NotifiedKnown(note.to, pre[note.to], note.from);
    PreChange(first, post, pre, phase, note.to, Notified(note.to, pre[note.to], note.from));
  }

  lemma NotifiedKnown(self: Key, pre: Option<Key>, from: Key)
    ensures Notified(self, pre, from).Some?
  {
  }

  lemma DeliverHolds(s: Ring, note: Note)
    requires Inv(s) && Enabled(s, DeliverNotify(note))
    ensures Inv(Apply(s, DeliverNotify(note)))
    ensures Apply(s, DeliverNotify(note)).post == s.post
  {
    hide SelfLoopsAlone, PresFit, NotesFit, PhasesFit, OneCycle, PhaseFits, PreFits, NoteFits, Path,
         Notified, Adopted, Bridges;
    DeliverFits(s.first, s.post, s.pre, s.phase, s.notes, note);
  }

  // ----- a change of postnodes that keeps paths

  ghost predicate KeepsPaths(post: Links, next: Links) {
    && post.Keys <= next.Keys
    && forall x, y | Path(post, x, y) :: Path(next, x, y)
  }

  lemma NotesKept(first: Key, post: Links, next: Links, notes: set<Note>)
    requires KeepsPaths(post, next) && NotesFit(first, post, notes)
    ensures NotesFit(first, next, notes)
  {
    hide Path;
    forall note | note in notes ensures NoteFits(first, next, note) {
      assert NoteFits(first, post, note);
    }
  }

  lemma PhaseKept(post: Links, next: Links, m: Key, pre: Option<Key>, phase: Phase)
    requires KeepsPaths(post, next) && m in post && next[m] == post[m] && PhaseFits(post, m, pre, phase)
    ensures PhaseFits(next, m, pre, phase)
  {
    hide Path, Inside;
  }

  // ----- a member adopts a closer successor

  lemma AdoptKeepsPaths(post: Links, m: Key, v: Key)
    requires m in post && Inside(m, v, post[m]) && Path(post, v, post[m])
    ensures KeepsPaths(post, post[m := v])
  {
    hide Path;
    forall x, y | Path(post, x, y) ensures Path(post[m := v], x, y) {
      AdoptKeepsPath(post, m, v, x, y);
    }
  }

  lemma AdoptPres(first: Key, post: Links, pre: map<Key, Option<Key>>, m: Key, v: Key)
    requires m in post && Inside(m, v, post[m]) && KeepsPaths(post, post[m := v]) && PresFit(first, post, pre)
    ensures PresFit(first, post[m := v], pre)
  {
    var next := post[m := v];
    forall x | x in pre ensures PreFits(next, x, pre[x]) {
      assert PreFits(post, x, pre[x]);
      hide Path;
    }
  }

  lemma AdoptPhases(post: Links, pre: map<Key, Option<Key>>, phase: map<Key, Phase>, m: Key, v: Key)
    requires m in phase && KeepsPaths(post, post[m := v]) && PhasesFit(post, pre, phase)
    ensures PhasesFit(post[m := v], pre, phase[m := Idle])
  {
    hide KeepsPaths;
    var next := post[m := v];
    forall x | x in phase && x != m ensures x in next && PhaseFits(next, x, pre[x], phase[x]) {
      PhaseKept(post, next, x, pre[x], phase[x]);
    }
    hide PhaseFits;
    assert PhasesFit(next, pre, phase[m := Idle]) by {
      assert PhaseFits(next, m, pre[m], Idle) by { IdleFits(next, m, pre[m]); }
    }
  }

  lemma IdleFits(post: Links, m: Key, pre: Option<Key>)
    requires m in post
    ensures PhaseFits(post, m, pre, Idle)
  {
  }

  lemma AdoptSelfLoops(post: Links, m: Key, v: Key)
    requires m in post && v in post && Inside(m, v, post[m]) && SelfLoopsAlone(post)
    ensures SelfLoopsAlone(post[m := v])
  {
    forall x | x in post ensures AloneAt(post[m := v], x) {
      assert AloneAt(post, x);
    }
  }

  lemma JoinSelfLoops(post: Links, n: Key, found: Key, c: Key)
    requires n !in post && found in post && c in post && post[c] != c && SelfLoopsAlone(post)
    ensures SelfLoopsAlone(post[n := found])
  {
    var next := post[n := found];
    forall x | x in next ensures AloneAt(next, x) {
      if x in post {
        assert AloneAt(post, x);
        assert c in post.Keys;
      }
    }
  }

  lemma AdoptCycle(first: Key, post: Links, m: Key, v: Key)
    requires OneCycle(first, post) && m in post && v in post
    requires Inside(m, v, post[m]) && Path(post, v, post[m])
    ensures OneCycle(first, post[m := v])
  {
    var next := post[m := v];
    AdoptBridges(post, m, v);
    if m == first {
      PathJoins(post, v, post[m], m);
      AdoptKeepsPath(post, m, v, v, m);
    } else {
      AdoptKeepsPath(post, m, v, post[first], first);
    }
    hide Path;
    forall x | x in next ensures Reach(next, x, first) {
      assert Reach(post, x, first);
      var h: nat :| ReachIn(post, x, first, h);
      BridgedReach(post, next, x, first, h);
    }
  }

  lemma AdoptFits(first: Key, post: Links, pre: map<Key, Option<Key>>, phase: map<Key, Phase>, notes: set<Note>, m: Key)
    requires SelfLoopsAlone(post) && PresFit(first, post, pre) && NotesFit(first, post, notes)
    requires PhasesFit(post, pre, phase) && OneCycle(first, post)
    requires m in phase && phase[m].Replied?
    ensures m in post
    ensures var next := post[m := Adopted(m, post[m], phase[m].answer)];
            && SelfLoopsAlone(next) && PresFit(first, next, pre) && NotesFit(first, next, notes)
            && PhasesFit(next, pre, phase[m := Idle]) && OneCycle(first, next)
            && Bridges(post, next)
            && (post[m] in post ==> next[m] in post)
  {
    assert PhaseFits(post, m, pre[m], phase[m]);
    hide SelfLoopsAlone, PresFit, NotesFit, PhasesFit, OneCycle, Path, Bridges;
    var v := Adopted(m, post[m], phase[m].answer);
    if v == post[m] {
      assert post[m := v] == post;
      IdleFits(post, m, pre[m]);
      PhaseChange(post, pre, phase, m, Idle);
      SameBridges(post);
    } else {
      AdoptBridges(post, m, v);
      AdoptKeepsPaths(post, m, v);
      AdoptCycle(first, post, m, v);
      AdoptSelfLoops(post, m, v);
      AdoptPres(first, post, pre, m, v);
      AdoptPhases(post, pre, phase, m, v);
      NotesKept(first, post, post[m := v], notes);
    }
  }

  lemma AdoptHolds(s: Ring, m: Key)
    requires Inv(s) && Enabled(s, Adopt(m))
    ensures Inv(Apply(s, Adopt(m)))
    ensures Bridges(s.post, Apply(s, Adopt(m)).post)
  {
    hide SelfLoopsAlone, PresFit, NotesFit, PhasesFit, OneCycle, PhaseFits, PreFits, NoteFits, Path,
         Notified, Adopted, Bridges;
    AdoptFits(s.first, s.post, s.pre, s.phase, s.notes, m);
  }

  lemma SameBridges(post: Links)
    ensures Bridges(post, post)
  {
    forall x | x in post ensures Reach(post, x, post[x]) {
      LinkReaches(post, x);
    }
  }

  // ----- joins

  lemma JoinKeepsPaths(post: Links, n: Key, found: Key)
    requires n !in post
    ensures KeepsPaths(post, post[n := found])
  {
    hide Path;
    forall x, y | Path(post, x, y) ensures Path(post[n := found], x, y) {
      JoinKeepsPath(post, n, found, x, y);
    }
  }

  lemma JoinBridges(post: Links, n: Key, found: Key)
    requires n !in post
    ensures Bridges(post, post[n := found])
  {
    forall x | x in post ensures Reach(post[n := found], x, post[x]) {
      LinkReaches(post[n := found], x);
    }
  }

  lemma JoinCycle(first: Key, post: Links, n: Key, found: Key)
    requires OneCycle(first, post) && n !in post && found in post
    ensures OneCycle(first, post[n := found])
  {
    var next := post[n := found];
    JoinKeepsPath(post, n, found, post[first], first);
    JoinBridges(post, n, found);
    hide Path;
    forall x | x in next ensures Reach(next, x, first) {
      var y := if x == n then found else x;
      assert Reach(post, y, first);
      var h: nat :| ReachIn(post, y, first, h);
      BridgedReach(post, next, y, first, h);
      var g: nat :| ReachIn(next, y, first, g);
      assert x == n ==> ReachIn(next, n, first, g + 1);
    }
  }

  lemma JoinPres(first: Key, post: Links, pre: map<Key, Option<Key>>, n: Key, found: Key)
    requires PresFit(first, post, pre) && KeepsPaths(post, post[n := found]) && n !in post && n !in pre
    ensures PresFit(first, post[n := found], pre[n := None])
  {
    var next := post[n := found];
    hide Path;
    forall x | x in pre ensures PreFits(next, x, pre[x]) {
      assert PreFits(post, x, pre[x]);
    }
  }

  lemma JoinPhases(post: Links, pre: map<Key, Option<Key>>, phase: map<Key, Phase>, n: Key, found: Key)
    requires PhasesFit(post, pre, phase) && KeepsPaths(post, post[n := found]) && n !in post
    ensures PhasesFit(post[n := found], pre[n := None], phase[n := Idle])
  {
    hide KeepsPaths;
    var next := post[n := found];
    forall x | x in phase && x != n ensures x in next && x in pre && PhaseFits(next, x, pre[x], phase[x]) {
      PhaseKept(post, next, x, pre[x], phase[x]);
    }
    IdleFits(next, n, None);
    hide PhaseFits;
  }

  lemma LaterJoinFits(first: Key, post: Links, pre: map<Key, Option<Key>>, phase: map<Key, Phase>,
      notes: set<Note>, n: Key, found: Key, c: Key)
    requires SelfLoopsAlone(post) && PresFit(first, post, pre) && NotesFit(first, post, notes)
    requires PhasesFit(post, pre, phase) && OneCycle(first, post)
    requires n !in post && n !in pre && found in post && c in post && post[c] != c
    ensures var next := post[n := found];
            && SelfLoopsAlone(next) && PresFit(first, next, pre[n := None]) && NotesFit(first, next, notes)
            && PhasesFit(next, pre[n := None], phase[n := Idle]) && OneCycle(first, next) && Bridges(post, next)
  {
    JoinSelfLoops(post, n, found, c);
    hide SelfLoopsAlone, PresFit, NotesFit, PhasesFit, OneCycle, Path, Bridges;
    JoinKeepsPaths(post, n, found);
    JoinBridges(post, n, found);
    JoinCycle(first, post, n, found);
    JoinPres(first, post, pre, n, found);
    JoinPhases(post, pre, phase, n, found);
    NotesKept(first, post, post[n := found], notes);
  }

  // The first join: a ring of two, with messages of the first member to itself under way.
  lemma FirstJoinFits(first: Key, pre: map<Key, Option<Key>>, phase: map<Key, Phase>, notes: set<Note>, n: Key)
    requires var post := map[first := first];
             && PresFit(first, post, pre) && NotesFit(first, post, notes) && PhasesFit(post, pre, phase)
             && pre.Keys == phase.Keys == {first} && n != first
    ensures var next := map[first := n, n := first]; var p := pre[first := Some(n)][n := None];
            && SelfLoopsAlone(next) && PresFit(first, next, p) && NotesFit(first, next, notes)
            && PhasesFit(next, p, phase[n := Idle])
  {
    var post := map[first := first];
    var next := map[first := n, n := first];
    assert PhaseFits(post, first, pre[first], phase[first]);
    assert forall note | note in notes :: NoteFits(first, post, note);
    assert Path(next, n, first);
  }

  lemma PairCycle(first: Key, n: Key)
    requires n != first
    ensures OneCycle(first, map[first := n, n := first])
    ensures Bridges(map[first := first], map[first := n, n := first])
  {
    var next := map[first := n, n := first];
    assert Path(next, n, first);
    assert ReachIn(next, first, first, 0);
    assert ReachIn(next, n, first, 1);
  }

  lemma AloneMeansFirst(s: Ring, c: Key)
    requires Inv(s) && c in s.post && s.post[c] == c
    ensures c == s.first && s.post == map[c := c] && s.pre[c].Some?
  {
    hide NotesFit, PhasesFit, OneCycle, PreFits;
    assert AloneAt(s.post, c);
  }

  lemma FirstJoinHolds(s: Ring, n: Key, c: Key, found: Key)
    requires Inv(s) && Enabled(s, Join(n, c, found)) && s.post[c] == c
    ensures Inv(Apply(s, Join(n, c, found)))
    ensures Bridges(s.post, Apply(s, Join(n, c, found)).post)
  {
    hide SelfLoopsAlone, PresFit, NotesFit, PhasesFit, OneCycle, PhaseFits, PreFits, NoteFits, Path,
         Notified, Adopted, Bridges;
    AloneMeansFirst(s, c);
    assert s.post[c := n][n := c] == map[c := n, n := c];
    FirstJoinFits(c, s.pre, s.phase, s.notes, n);
    PairCycle(c, n);
  }

  lemma LaterJoinHolds(s: Ring, n: Key, c: Key, found: Key)
    requires Inv(s) && Enabled(s, Join(n, c, found)) && s.post[c] != c
    ensures Inv(Apply(s, Join(n, c, found)))
    ensures Bridges(s.post, Apply(s, Join(n, c, found)).post)
  {
    hide SelfLoopsAlone, PresFit, NotesFit, PhasesFit, OneCycle, PhaseFits, PreFits, NoteFits, Path,
         Notified, Adopted, Bridges;
    LaterJoinFits(s.first, s.post, s.pre, s.phase, s.notes, n, found, c);
  }

  lemma JoinHolds(s: Ring, n: Key, c: Key, found: Key)
    requires Inv(s) && Enabled(s, Join(n, c, found))
    ensures Inv(Apply(s, Join(n, c, found)))
    ensures Bridges(s.post, Apply(s, Join(n, c, found)).post)
  {
    hide Inv, Apply, Bridges;
    if s.post[c] == c {
      FirstJoinHolds(s, n, c, found);
    } else {
      LaterJoinHolds(s, n, c, found);
    }
  }

  // ----- whole runs

  // Every step keeps the invariant and bridges every old link.
  lemma StepHolds(s: Ring, step: Step)
    requires Inv(s) && Enabled(s, step)
    ensures Inv(Apply(s, step))
    ensures Bridges(s.post, Apply(s, step).post)
  {
    SameBridges(s.post);
    hide Inv, Apply, Enabled, Bridges;
    match step
    case Join(n, c, found) => JoinHolds(s, n, c, found);
    case Ask(m) => AskHolds(s, m);
    case Reply(m) => ReplyHolds(s, m);
    case Adopt(m) => AdoptHolds(s, m);
    case SendNotify(m) => SendHolds(s, m);
    case DeliverNotify(note) => DeliverHolds(s, note);
  }

  // states[i + 1] comes from states[i] by steps[i].
  ghost predicate Run(states: seq<Ring>, steps: seq<Step>) {
    && |states| == |steps| + 1
    && forall i | 0 <= i < |steps| ::
         WellTyped(states[i]) && Enabled(states[i], steps[i]) && states[i + 1] == Apply(states[i], steps[i])
  }

  // In every run from the first member alone, every state has the invariant.
  lemma {:induction false} RunHolds(states: seq<Ring>, steps: seq<Step>, i: nat)
    requires Run(states, steps) && Init(states[0]) && i < |states|
    ensures Inv(states[i])
  {
    if i == 0 {
      InitHolds(states[0]);
    } else {
      RunHolds(states, steps, i - 1);
      StepHolds(states[i - 1], steps[i - 1]);
    }
  }

  lemma RunBridges(states: seq<Ring>, steps: seq<Step>, i: nat)
    requires Run(states, steps) && Init(states[0]) && i < |steps|
    ensures Bridges(states[i].post, states[i + 1].post)
  {
    hide Inv, Apply, Enabled, Bridges, Init;
    RunHolds(states, steps, i);
    StepHolds(states[i], steps[i]);
  }

  // A member that was reachable through postnodes stays reachable.
  lemma {:induction false} ReachStays(states: seq<Ring>, steps: seq<Step>, i: nat, j: nat, x: Key, y: Key)
    requires |states| == |steps| + 1 && Run(states, steps) && Init(states[0]) && i <= j < |states|
    requires Reach(states[i].post, x, y)
    ensures Reach(states[j].post, x, y)
    decreases j
  {
    hide Enabled, Bridges, Init, Reach, Run;
    if i < j {
      ReachStays(states, steps, i, j - 1, x, y);
      RunBridges(states, steps, j - 1);
      ReachBridged(states[j - 1].post, states[j].post, x, y);
    }
  }

  lemma ReachBridged(post: Links, next: Links, x: Key, y: Key)
    requires Bridges(post, next) && Reach(post, x, y)
    ensures Reach(next, x, y)
  {
    hide Bridges;
    var h: nat :| ReachIn(post, x, y, h);
    BridgedReach(post, next, x, y, h);
  }

  // ----- what the one cycle means

  ghost function PathLength(post: Links, x: Key, y: Key): nat
    requires Path(post, x, y)
    decreases Dist(x, y)
  {
    if x == y then 0 else Dist(x, post[x]) + PathLength(post, post[x], y)
  }

  lemma {:induction false} PathLengthIsDist(post: Links, x: Key, y: Key)
    requires Path(post, x, y)
    ensures PathLength(post, x, y) == Dist(x, y)
    decreases Dist(x, y)
  {
    if x != y {
      PathLengthIsDist(post, post[x], y);
    }
  }

  // The cycle of the first member has clockwise length 2^32: it winds exactly once.
  lemma CycleWindsOnce(first: Key, post: Links)
    requires OneCycle(first, post) && post[first] != first
    ensures Path(post, post[first], first)
    ensures Dist(first, post[first]) + PathLength(post, post[first], first) == RING
  {
    hide Reach;
    PathLengthIsDist(post, post[first], first);
    hide PathLength, Path;
  }

  lemma {:induction false} ReachRest(post: Links, x: Key, y: Key, z: Key, g: nat, h: nat)
    requires ReachIn(post, x, y, g) && ReachIn(post, x, z, g + h)
    ensures ReachIn(post, y, z, h)
    decreases g
  {
    if g > 0 {
      ReachRest(post, post[x], y, z, g - 1, h);
    }
  }

  lemma {:induction false} CycleRepeats(post: Links, x: Key, hops: nat, times: nat)
    requires ReachIn(post, x, x, hops)
    ensures ReachIn(post, x, x, hops * times)
  {
    if times > 0 {
      CycleRepeats(post, x, hops, times - 1);
      ReachJoins(post, x, x, x, hops, hops * (times - 1));
      assert hops + hops * (times - 1) == hops * times;
    }
  }

  // There is no other cycle: whoever lies on one lies on that of the first member.
  lemma NoOtherCycle(first: Key, post: Links, x: Key, hops: nat)
    requires OneCycle(first, post) && x in post && hops > 0 && ReachIn(post, x, x, hops)
    ensures Reach(post, first, x) && Reach(post, x, first)
  {
    assert Reach(post, x, first);
    var h: nat :| ReachIn(post, x, first, h);
    hide Path;
    CycleRepeats(post, x, hops, h);
    var rest: nat := hops * h - h;
    assert ReachIn(post, x, x, h + rest);
    ReachRest(post, x, first, x, h, rest);
    hide ReachIn;
  }
}

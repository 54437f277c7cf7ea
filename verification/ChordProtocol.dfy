// Runs of a Chord ring that members only join: handlers are atomic, messages may be late.
module ChordProtocol {
  import opened ChordKeys

  // Where a member stands in stabilize: it waits for the reply before it goes on, so it
  // has at most one request or reply under way.
  datatype Phase = Idle | Asked(successor: Key) | Replied(answer: Option<Key>)

  datatype Note = Note(from: Key, to: Key)

  datatype Ring = Ring(
    first: Key,
    post: map<Key, Key>,
    pre: map<Key, Option<Key>>,
    phase: map<Key, Phase>,
    notes: set<Note>)  // notify messages sent so far; a delivery may be late or repeated

  datatype Step =
    | Join(newcomer: Key, contact: Key, found: Key)
    | Ask(member: Key)
    | Reply(member: Key)
    | Adopt(member: Key)
    | SendNotify(member: Key)
    | DeliverNotify(note: Note)

  ghost predicate Init(s: Ring) {
    s == Ring(s.first, map[s.first := s.first], map[s.first := Some(s.first)], map[s.first := Idle], {})
  }

  ghost predicate WellTyped(s: Ring) {
    && s.first in s.post
    && s.pre.Keys == s.post.Keys && s.phase.Keys == s.post.Keys
    && Closed(s.post)
  }

  ghost predicate Enabled(s: Ring, step: Step)
    requires WellTyped(s)
  {
    match step
    case Join(n, c, found) => n !in s.post && c in s.post && found in s.post
    case Ask(m) => m in s.post && s.phase[m].Idle?
    case Reply(m) => m in s.post && s.phase[m].Asked? && s.phase[m].successor in s.post
    case Adopt(m) => m in s.post && s.phase[m].Replied?
    case SendNotify(m) => m in s.post
    case DeliverNotify(note) => note in s.notes && note.to in s.post
  }

  // The joining member takes the lookup's answer, which may be any member, for its
  // successor; a contact that was alone answers with itself and closes a ring of two.
  ghost function Apply(s: Ring, step: Step): Ring
    requires WellTyped(s) && Enabled(s, step)
  {
    match step
    case Join(n, c, found) =>
      if s.post[c] == c then
        s.(post := s.post[c := n][n := c], pre := s.pre[c := Some(n)][n := None], phase := s.phase[n := Idle])
      else
        s.(post := s.post[n := found], pre := s.pre[n := None], phase := s.phase[n := Idle])
    case Ask(m) => s.(phase := s.phase[m := Asked(s.post[m])])
    case Reply(m) => s.(phase := s.phase[m := Replied(s.pre[s.phase[m].successor])])
    case Adopt(m) =>
      s.(post := s.post[m := Adopted(m, s.post[m], s.phase[m].answer)], phase := s.phase[m := Idle])
    case SendNotify(m) => s.(notes := s.notes + {Note(m, s.post[m])})
    case DeliverNotify(note) => s.(pre := s.pre[note.to := Notified(note.to, s.pre[note.to], note.from)])
  }

  // ----- following postnodes

  // From x, postnodes lead to y without ever passing it.
  ghost predicate Path(post: map<Key, Key>, x: Key, y: Key)
    decreases Dist(x, y)
  {
    x == y || (x in post && 0 < Dist(x, post[x]) <= Dist(x, y) && Path(post, post[x], y))
  }

  ghost predicate Reach(post: map<Key, Key>, x: Key, y: Key) {
    exists hops: nat :: ReachIn(post, x, y, hops)
  }

  ghost predicate ReachIn(post: map<Key, Key>, x: Key, y: Key, hops: nat)
    decreases hops
  {
    if hops == 0 then x == y else x in post && ReachIn(post, post[x], y, hops - 1)
  }

  lemma {:induction false} PathJoins(post: map<Key, Key>, x: Key, y: Key, z: Key)
    requires Path(post, x, y) && Path(post, y, z)
    requires Dist(x, y) + Dist(y, z) == Dist(x, z)
    ensures Path(post, x, z)
    decreases Dist(x, y)
  {
    if x != y {
      PathJoins(post, post[x], y, z);
    }
  }

  lemma {:induction false} PathReaches(post: map<Key, Key>, x: Key, y: Key) returns (hops: nat)
    requires Path(post, x, y)
    ensures ReachIn(post, x, y, hops)
    decreases Dist(x, y)
  {
    if x == y {
      hops := 0;
    } else {
      var h := PathReaches(post, post[x], y);
      hops := h + 1;
    }
  }

  lemma {:induction false} ReachJoins(post: map<Key, Key>, x: Key, y: Key, z: Key, g: nat, h: nat)
    requires ReachIn(post, x, y, g) && ReachIn(post, y, z, h)
    ensures ReachIn(post, x, z, g + h)
    decreases g
  {
    if g > 0 {
      ReachJoins(post, post[x], y, z, g - 1, h);
    }
  }

  // If every old link is still bridged, everything reachable stays reachable.
  ghost predicate Bridges(post: map<Key, Key>, next: map<Key, Key>) {
    forall x | x in post :: Reach(next, x, post[x])
  }

  lemma {:induction false} BridgedReach(post: map<Key, Key>, next: map<Key, Key>, x: Key, y: Key, hops: nat)
    requires Bridges(post, next) && ReachIn(post, x, y, hops)
    ensures Reach(next, x, y)
    decreases hops
  {
    if hops == 0 {
      assert ReachIn(next, x, y, 0);
    } else {
      BridgedReach(post, next, post[x], y, hops - 1);
      var g: nat :| ReachIn(next, x, post[x], g);
      var h: nat :| ReachIn(next, post[x], y, h);
      ReachJoins(next, x, post[x], y, g, h);
    }
  }

  lemma LinkReaches(post: map<Key, Key>, x: Key)
    requires x in post
    ensures Reach(post, x, post[x])
  {
    assert ReachIn(post, post[x], post[x], 0);
    assert ReachIn(post, x, post[x], 1);
  }

  // ----- an adopted successor refines the path, never cuts it

  lemma {:induction false} AdoptKeepsPath(post: map<Key, Key>, m: Key, v: Key, x: Key, y: Key)
    requires m in post && Inside(m, v, post[m]) && Path(post, v, post[m])
    requires Path(post, x, y)
    ensures Path(post[m := v], x, y)
    decreases Dist(x, y)
  {
    if x != y {
      if x == m {
        PathJoins(post, v, post[m], y);
        AdoptKeepsPath(post, m, v, v, y);
      } else {
        AdoptKeepsPath(post, m, v, post[x], y);
      }
    }
  }

  lemma AdoptBridges(post: map<Key, Key>, m: Key, v: Key)
    requires m in post && Inside(m, v, post[m]) && Path(post, v, post[m])
    ensures Bridges(post, post[m := v])
  {
    var next := post[m := v];
    forall x | x in post ensures Reach(next, x, post[x]) {
      if x == m {
        AdoptKeepsPath(post, m, v, v, post[m]);
        var h := PathReaches(next, v, post[m]);
        assert ReachIn(next, m, post[m], h + 1);
      } else {
        LinkReaches(next, x);
      }
    }
  }

  lemma {:induction false} JoinKeepsPath(post: map<Key, Key>, n: Key, found: Key, x: Key, y: Key)
    requires n !in post && Path(post, x, y)
    ensures Path(post[n := found], x, y)
    decreases Dist(x, y)
  {
    if x != y {
      JoinKeepsPath(post, n, found, post[x], y);
    }
  }
}

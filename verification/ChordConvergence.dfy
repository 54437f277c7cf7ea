// When nothing more would change, the ring is sorted.
module ChordConvergence {
  import opened ChordKeys
  import opened ChordProtocol
  import opened ChordInvariant

  // x is the member that follows m clockwise.
  ghost predicate NextClockwise(members: set<Key>, m: Key, x: Key) {
    && m in members && x in members && x != m
    && forall y {:trigger Dist(m, y)} | y in members && y != m :: Dist(m, x) <= Dist(m, y)
  }

  ghost predicate Sorted(s: Ring)
    requires WellTyped(s)
  {
    forall m {:trigger SortedAt(s, m)} | m in s.post :: SortedAt(s, m)
  }

  ghost predicate SortedAt(s: Ring, m: Key)
    requires WellTyped(s) && m in s.post
  {
    && NextClockwise(s.post.Keys, m, s.post[m])
    && s.pre[m].Some? && NextClockwise(s.post.Keys, s.pre[m].value, m)
  }

  // A stabilize exchange of m now would change nothing.
  ghost predicate QuietAt(s: Ring, m: Key)
    requires WellTyped(s) && m in s.post
  {
    && Adopted(m, s.post[m], s.pre[s.post[m]]) == s.post[m]
    && Notified(s.post[m], s.pre[s.post[m]], m) == s.pre[s.post[m]]
  }

  ghost predicate Quiescent(s: Ring)
    requires WellTyped(s)
  {
    forall m {:trigger QuietAt(s, m)} | m in s.post :: QuietAt(s, m)
  }

  // ----- the members on a path

  ghost predicate OnPath(post: Links, a: Key, b: Key, x: Key)
    requires Path(post, a, b)
    decreases Dist(a, b)
  {
    x == a || (a != b && OnPath(post, post[a], b, x))
  }

  lemma {:induction false} OnPathWithin(post: Links, a: Key, b: Key, x: Key)
    requires Path(post, a, b) && OnPath(post, a, b, x)
    ensures Dist(a, x) <= Dist(a, b)
    ensures x != b ==> x in post && 0 < Dist(x, post[x]) <= Dist(x, b)
    decreases Dist(a, b)
  {
    if x != a {
      OnPathWithin(post, post[a], b, x);
    }
  }

  // Two members of a path: none lies strictly between the other and its postnode.
  lemma {:induction false} NoneBetween(post: Links, a: Key, b: Key, m: Key, x: Key)
    requires Path(post, a, b) && OnPath(post, a, b, m) && OnPath(post, a, b, x) && m != b
    ensures m in post && !Inside(m, x, post[m])
    decreases Dist(a, b)
  {
    OnPathWithin(post, a, b, m);
    if m == a {
      if x != a {
        OnPathWithin(post, post[a], b, x);
      }
    } else if x == a {
      OnPathWithin(post, post[a], b, m);
    } else {
      NoneBetween(post, post[a], b, m, x);
    }
  }

  lemma {:induction false} EndOnPath(post: Links, a: Key, b: Key)
    requires Path(post, a, b)
    ensures OnPath(post, a, b, b)
    decreases Dist(a, b)
  {
    if a != b {
      EndOnPath(post, post[a], b);
    }
  }

  lemma {:induction false} BeforeOnPath(post: Links, a: Key, b: Key, y: Key) returns (z: Key)
    requires Path(post, a, b) && OnPath(post, a, b, y) && y != a
    ensures OnPath(post, a, b, z) && z != b && z in post && post[z] == y
    decreases Dist(a, b)
  {
    if y == post[a] {
      z := a;
    } else {
      z := BeforeOnPath(post, post[a], b, y);
    }
  }

  // ----- quiescent means sorted

  ghost predicate Injective(post: Links) {
    forall x, y | x in post && y in post && post[x] == post[y] :: x == y
  }

  // The member before y on the cycle is the only one whose postnode is y.
  lemma PredecessorOnCycle(first: Key, post: Links, x: Key)
    requires first in post && Path(post, post[first], first) && Injective(post) && x in post && x != first
    requires OnPath(post, post[first], first, post[x])
    ensures OnPath(post, post[first], first, x)
  {
    if post[x] != post[first] {
      var z := BeforeOnPath(post, post[first], first, post[x]);
      assert z == x;
    }
  }

  // With no two members sharing a postnode, everybody is on the one cycle.
  lemma {:induction false} AllOnCycle(first: Key, post: Links, x: Key, hops: nat)
    requires first in post && Path(post, post[first], first) && Injective(post)
    requires Closed(post)
    requires x in post && ReachIn(post, x, first, hops)
    ensures OnPath(post, post[first], first, x)
    decreases hops
  {
    hide Path, OnPath, Injective;
    if x == first {
      EndOnPath(post, post[first], first);
    } else {
      AllOnCycle(first, post, post[x], hops - 1);
      PredecessorOnCycle(first, post, x);
    }
  }

  // The exchange of m with its postnode t is quiet only when t knows m already.
  lemma QuietMeansKnown(m: Key, t: Key, pre: Option<Key>)
    requires Adopted(m, t, pre) == t && Notified(t, pre, m) == pre
    requires m != t && pre != Some(t)
    ensures pre == Some(m)
  {
    assert forall p | p != m && p != t :: Inside(p, m, t) || Inside(m, p, t);
  }

  lemma AloneIsOne(members: set<Key>, m: Key)
    requires m in members && forall x | x in members :: x == m
    ensures |members| == 1
  {
    assert members == {m};
  }

  lemma AtLeastTwo(first: Key, post: Links, pre: map<Key, Option<Key>>, m: Key)
    requires SelfLoopsAlone(post) && PresFit(first, post, pre) && |post| >= 2 && m in post && m in pre
    ensures post[m] != m && pre[m] != Some(m)
  {
    assert PreFits(post, m, pre[m]) && AloneAt(post, m);
    hide Path;
    if post[m] == m {
      AloneIsOne(post.Keys, m);
    }
  }

  // Everybody is known to its postnode; so no two members share one.
  lemma QuietKnown(first: Key, post: Links, pre: map<Key, Option<Key>>, m: Key)
    requires SelfLoopsAlone(post) && PresFit(first, post, pre) && |post| >= 2
    requires m in post && m in pre && post[m] in post && post[m] in pre
    requires Adopted(m, post[m], pre[post[m]]) == post[m]
    requires Notified(post[m], pre[post[m]], m) == pre[post[m]]
    ensures pre[post[m]] == Some(m)
  {
    AtLeastTwo(first, post, pre, m);
    AtLeastTwo(first, post, pre, post[m]);
    hide SelfLoopsAlone, PresFit;
    QuietMeansKnown(m, post[m], pre[post[m]]);
  }

  lemma QuietInjective(s: Ring)
    requires Inv(s) && |s.post| >= 2 && Quiescent(s)
    ensures forall m {:trigger s.post[m]} | m in s.post :: s.pre[s.post[m]] == Some(m)
    ensures Injective(s.post)
  {
    hide SelfLoopsAlone, PresFit, NotesFit, PhasesFit, OneCycle, Adopted, Notified;
    forall m | m in s.post ensures s.pre[s.post[m]] == Some(m) {
      assert QuietAt(s, m);
      QuietKnown(s.first, s.post, s.pre, m);
    }
  }

  lemma CycleMember(first: Key, post: Links, x: Key)
    requires OneCycle(first, post) && Injective(post) && x in post
    requires Closed(post)
    ensures first in post && Path(post, post[first], first) && OnPath(post, post[first], first, x)
  {
    hide Injective, Path;
    assert Reach(post, x, first);
    var hops: nat :| ReachIn(post, x, first, hops);
    hide ReachIn;
    AllOnCycle(first, post, x, hops);
  }

  // The next member on the cycle is the next member of the circle.
  lemma CycleIsSorted(first: Key, post: Links, m: Key, x: Key)
    requires OneCycle(first, post) && Injective(post) && post[first] != first
    requires Closed(post)
    requires m in post && x in post
    ensures !Inside(m, x, post[m])
  {
    CycleMember(first, post, m);
    CycleMember(first, post, x);
    hide OneCycle, Injective, Inside;
    if m == first {
      OnPathWithin(post, post[first], first, x);
      FirstArc(first, post[first], x);
    } else {
      NoneBetween(post, post[first], first, m, x);
    }
  }

  lemma FirstArc(a: Key, b: Key, x: Key)
    requires a != b && Dist(b, x) <= Dist(b, a)
    ensures !Inside(a, x, b)
  {
  }

  lemma NotInsideMeansNext(members: set<Key>, m: Key, t: Key)
    requires m in members && t in members && t != m
    requires forall x | x in members :: !Inside(m, x, t)
    ensures NextClockwise(members, m, t)
  {
  }

  ghost predicate NoSelfLoops(post: Links) {
    forall m {:trigger post[m]} | m in post :: post[m] != m
  }

  lemma QuietNext(first: Key, post: Links, m: Key)
    requires OneCycle(first, post) && Injective(post) && m in post && Closed(post)
    requires NoSelfLoops(post)
    ensures NextClockwise(post.Keys, m, post[m])
  {
    assert post[m] in post && post[m] != m && first in post && post[first] != first;
    hide OneCycle, Injective, Inside, NextClockwise, NoSelfLoops;
    forall x | x in post.Keys ensures !Inside(m, x, post[m]) {
      CycleIsSorted(first, post, m, x);
    }
    hide Closed;
    NotInsideMeansNext(post.Keys, m, post[m]);
  }

  // On the one cycle every member is somebody's postnode.
  lemma SomebodysPost(first: Key, post: Links, t: Key) returns (m: Key)
    requires OneCycle(first, post) && Injective(post) && t in post
    requires Closed(post)
    ensures m in post && post[m] == t
  {
    CycleMember(first, post, t);
    hide OneCycle, Injective;
    if t == post[first] {
      m := first;
    } else {
      m := BeforeOnPath(post, post[first], first, t);
    }
  }

  lemma TwoMeansNoSelfLoops(first: Key, post: Links, pre: map<Key, Option<Key>>)
    requires SelfLoopsAlone(post) && PresFit(first, post, pre) && |post| >= 2 && pre.Keys == post.Keys
    ensures NoSelfLoops(post)
  {
    hide SelfLoopsAlone, PresFit;
    forall m | m in post ensures post[m] != m {
      AtLeastTwo(first, post, pre, m);
    }
  }

  // Every member is somebody's postnode, so it knows its predecessor.
  lemma KnownPredecessor(first: Key, post: Links, pre: map<Key, Option<Key>>, t: Key)
    requires OneCycle(first, post) && Injective(post) && Closed(post) && NoSelfLoops(post)
    requires pre.Keys == post.Keys && t in post
    requires forall m {:trigger post[m]} | m in post :: pre[post[m]] == Some(m)
    ensures pre[t].Some? && NextClockwise(post.Keys, pre[t].value, t)
  {
    hide Injective, NextClockwise, OneCycle, Closed, NoSelfLoops;
    var m := SomebodysPost(first, post, t);
    QuietNext(first, post, m);
  }

  lemma QuietMeansSorted(s: Ring)
    requires Inv(s) && |s.post| >= 2 && Quiescent(s)
    ensures Sorted(s)
  {
    hide SelfLoopsAlone, PresFit, NotesFit, PhasesFit, OneCycle, Injective, NextClockwise, Closed, NoSelfLoops;
    QuietInjective(s);
    TwoMeansNoSelfLoops(s.first, s.post, s.pre);
    hide Quiescent;
    forall t | t in s.post ensures SortedAt(s, t) {
      QuietNext(s.first, s.post, t);
      KnownPredecessor(s.first, s.post, s.pre, t);
    }
  }

  lemma NoneInside(members: set<Key>, m: Key, t: Key, v: Key)
    requires NextClockwise(members, m, t)
    ensures m in members && t in members
    ensures v in members ==> !Inside(m, v, t)
  {
  }

  // Nothing any member could be told, now or late, changes a sorted ring.
  lemma SortedIsStable(s: Ring, m: Key, v: Key)
    requires WellTyped(s) && Sorted(s) && m in s.post && v in s.post
    ensures Adopted(m, s.post[m], Some(v)) == s.post[m]
    ensures Notified(m, s.pre[m], v) == s.pre[m]
  {
    hide NextClockwise, Inside, Closed;
    assert SortedAt(s, m);
    NoneInside(s.post.Keys, m, s.post[m], v);
    NoneInside(s.post.Keys, s.pre[m].value, m, v);
  }

  // With at least two members, quiescent states are exactly the sorted rings.
  lemma QuiescentIffSorted(s: Ring)
    requires Inv(s) && |s.post| >= 2
    ensures Quiescent(s) <==> Sorted(s)
  {
    hide SelfLoopsAlone, PresFit, NotesFit, PhasesFit, OneCycle, NextClockwise, Inside;
    if Sorted(s) {
      forall m | m in s.post ensures QuietAt(s, m) {
        SortedQuietAt(s, m);
      }
    } else if Quiescent(s) {
      QuietMeansSorted(s);
    }
  }

  lemma SortedQuietAt(s: Ring, m: Key)
    requires WellTyped(s) && Sorted(s) && m in s.post
    ensures QuietAt(s, m)
  {
    hide NextClockwise, Inside;
    var t := s.post[m];
    assert t in s.post;
    assert SortedAt(s, m) && SortedAt(s, t);
    var p := s.pre[t].value;
    hide Sorted, Closed;
    NoneInside(s.post.Keys, p, t, m);
    NoneInside(s.post.Keys, m, t, p);
  }
}

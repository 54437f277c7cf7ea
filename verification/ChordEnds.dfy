// A ring with both keys 2^32 - 1 and 0: fix_fingers takes the first finger of the one away
// from the other, and lookups across zero depend on what else leads there.
module ChordEnds {
  import opened ChordKeys
  import opened ChordFingers
  import opened ChordHops
  import opened ChordLookup

  lemma EndsAnswerWrongly(post: map<Key, Key>)
    requires SortedPosts(post) && BothEnds(post) && post[RING - 1] in post
    ensures !AnswerIs(post.Keys, RING - 1, 0, post[RING - 1])
  {
    assert !Inside(RING - 1, 0, post[RING - 1]);
    assert IsSmallest(post.Keys, 0);
    assert !IsLargest(post.Keys, 0);
  }

  // Where both ends are members, a first finger equal to the postnode is not what
  // fix_fingers leaves.
  lemma BothEndsNeverFixed(net: Net)
    requires Valid(net) && SortedPosts(net.post) && BothEnds(net.post)
    ensures !FingersFixed(net)
  {
    hide SortedPosts, AnswerIs;
    var m: Key := RING - 1;
    assert Start(m, 0) == 0 by { assert Pow2(0) == 1; }
    hide Start, Pow2;
    assert net.post[m] in net.post;
    EndsAnswerWrongly(net.post);
    assert net.fingers[m][0] == net.post[m] ==> !AnswerIs(net.post.Keys, m, Start(m, 0), net.fingers[m][0]);
  }

  // All first fingers are postnodes, except that of the member 2^32 - 1.
  ghost predicate FirstsButLast(net: Net)
    requires Valid(net)
  {
    forall m {:trigger net.fingers[m]} | m in net.post && m != RING - 1 :: net.fingers[m][0] == net.post[m]
  }

  lemma FirstsButLastReached(net: Net, fixes: seq<Fix>)
    requires Valid(net) && CanFixAll(net.post, fixes) && FirstsFixed(net.post, fixes)
    ensures FirstsButLast(AfterFixes(net, fixes))
  {
    hide AfterFixes;
    forall m | m in net.post && m != RING - 1 ensures AfterFixes(net, fixes).fingers[m][0] == net.post[m] {
      assert Fix(m, 0) in fixes;
      FirstStays(net, fixes, m);
    }
  }

  // Below the largest member, postnodes go upwards.
  lemma Upwards(post: map<Key, Key>, x: Key)
    requires SortedPosts(post) && RING - 1 in post && x in post && post[x] in post && x != RING - 1
    ensures x < post[x]
  {
    assert !Inside(x, RING - 1, post[x]);
  }

  // A question for a key further up never crosses zero, and reaches the owner.
  lemma {:induction false} FindUpwards(net: Net, x: Key, hash: Key)
    requires Valid(net) && SortedPosts(net.post) && BothEnds(net.post) && FirstsButLast(net)
    requires x in net.post && x <= hash
    ensures IsOwner(net.post.Keys, hash, Find(net, x, hash).owner)
    decreases Dist(x, hash)
  {
    hide SortedPosts, IsOwner, FindRoute;
    var route := FindRoute(x, net.post[x], net.fingers[x], hash);
    match route
    case Forward(f) =>
      ForwardIsCloser(net, x, hash);
      FindUpwards(net, f, hash);
    case Answer(_) => AnswersUpwards(net, x, hash);
  }

  lemma AnswersUpwards(net: Net, x: Key, hash: Key)
    requires Valid(net) && SortedPosts(net.post) && BothEnds(net.post) && FirstsButLast(net)
    requires x in net.post && x <= hash
    requires FindRoute(x, net.post[x], net.fingers[x], hash).Answer?
    ensures IsOwner(net.post.Keys, hash, FindRoute(x, net.post[x], net.fingers[x], hash).owner)
  {
    hide SortedPosts;
    HighestFingerInside(net.fingers[x], FINGERS, x, hash);
    if x < hash {
      Upwards(net.post, x);
      assert net.fingers[x][0] == net.post[x];
      assert OwnedByPost(x, net.post[x], hash);
      PostOwns(net.post, x, hash);
    }
  }

  // Asked for a key further down, a member passes the question upwards, and what is not
  // the owner's name is the largest member's.
  lemma {:induction false} FindDownwards(net: Net, x: Key, hash: Key)
    requires Valid(net) && SortedPosts(net.post) && BothEnds(net.post) && FirstsButLast(net)
    requires x in net.post && hash < x
    ensures IsOwner(net.post.Keys, hash, Find(net, x, hash).owner) || Find(net, x, hash).owner == RING - 1
    decreases Dist(x, hash)
  {
    hide SortedPosts, IsOwner, FindRoute;
    var route := FindRoute(x, net.post[x], net.fingers[x], hash);
    match route
    case Forward(f) =>
      ForwardIsCloser(net, x, hash);
      if f <= hash {
        FindUpwards(net, f, hash);
      } else {
        FindDownwards(net, f, hash);
      }
    case Answer(_) => AnswersDownwards(net, x, hash);
  }

  lemma LargestsPost(post: map<Key, Key>)
    requires SortedPosts(post) && BothEnds(post) && post[RING - 1] in post
    ensures post[RING - 1] == 0
  {
    assert !Inside(RING - 1, 0, post[RING - 1]);
  }

  // Only the largest member answers such a question itself.
  lemma AnswersDownwards(net: Net, x: Key, hash: Key)
    requires Valid(net) && SortedPosts(net.post) && BothEnds(net.post) && FirstsButLast(net)
    requires x in net.post && hash < x
    requires FindRoute(x, net.post[x], net.fingers[x], hash).Answer?
    ensures x == RING - 1 && FindRoute(x, net.post[x], net.fingers[x], hash).owner == RING - 1
  {
    hide SortedPosts;
    HighestFingerInside(net.fingers[x], FINGERS, x, hash);
    if x == RING - 1 {
      LargestsPost(net.post);
    } else {
      Upwards(net.post, x);
    }
  }

  // The largest member has a finger that lies before the hash, across zero.
  ghost predicate LargestLeads(net: Net, hash: Key)
    requires Valid(net) && RING - 1 in net.post
  {
    var row: seq<Key> := net.fingers[RING - 1];
    exists i | 0 <= i < FINGERS :: row[i] < hash
  }

  // When the largest member is right: asked for its own key or one it owns, or able to
  // pass the question on.
  ghost predicate LargestRight(net: Net, hash: Key)
    requires Valid(net) && RING - 1 in net.post
  {
    hash == RING - 1 || IsOwner(net.post.Keys, hash, RING - 1) || LargestLeads(net, hash)
  }

  lemma LargestRoute(net: Net, hash: Key)
    requires Valid(net) && SortedPosts(net.post) && BothEnds(net.post) && hash != RING - 1
    ensures var route := FindRoute(RING - 1, net.post[RING - 1], net.fingers[RING - 1], hash);
            if LargestLeads(net, hash) then route.Forward? && route.next < hash else route == Answer(RING - 1)
  {
    hide SortedPosts;
    PostIsMember(net.post, RING - 1);
    LargestsPost(net.post);
    HighestFingerInside(net.fingers[RING - 1], FINGERS, RING - 1, hash);
    if LargestLeads(net, hash) {
      var i :| 0 <= i < FINGERS && net.fingers[RING - 1][i] < hash;
      assert Inside(RING - 1, net.fingers[RING - 1][i], hash);
    }
  }

  // Asked itself, the largest member is right exactly then.
  lemma LargestFindIff(net: Net, hash: Key)
    requires Valid(net) && SortedPosts(net.post) && BothEnds(net.post) && FirstsButLast(net)
    ensures IsOwner(net.post.Keys, hash, Find(net, RING - 1, hash).owner) <==> LargestRight(net, hash)
  {
    hide SortedPosts, IsOwner, FindRoute, LargestLeads, FirstsButLast;
    if hash == RING - 1 {
      FindUpwards(net, hash, hash);
    } else {
      LargestRoute(net, hash);
      if LargestLeads(net, hash) {
        ForwardIsCloser(net, RING - 1, hash);
        FindUpwards(net, FindRoute(RING - 1, net.post[RING - 1], net.fingers[RING - 1], hash).next, hash);
      }
    }
  }

  // The question crosses zero before it reaches the largest member.
  ghost predicate Crosses(net: Net, x: Key, hash: Key)
    requires Valid(net) && x in net.post
    decreases Dist(x, hash)
  {
    var route := FindRoute(x, net.post[x], net.fingers[x], hash);
    x != RING - 1 && hash < x && route.Forward? &&
    (ForwardIsCloser(net, x, hash);
     route.next <= hash || Crosses(net, route.next, hash))
  }

  // With both keys 2^32 - 1 and 0 on the ring, whatever the other fingers, a lookup from x
  // is right exactly if it goes upwards, or crosses zero before the largest member, or
  // gets there and the largest member is right.
  lemma {:induction false} BothEndsFindIff(net: Net, x: Key, hash: Key)
    requires Valid(net) && SortedPosts(net.post) && BothEnds(net.post) && FirstsButLast(net) && x in net.post
    ensures IsOwner(net.post.Keys, hash, Find(net, x, hash).owner) <==>
            x <= hash || Crosses(net, x, hash) ||
            (if x == RING - 1 then LargestRight(net, hash) else LargestLeads(net, hash))
    decreases Dist(x, hash)
  {
    hide SortedPosts, IsOwner, FindRoute, LargestLeads, LargestRight, FirstsButLast;
    var route := FindRoute(x, net.post[x], net.fingers[x], hash);
    if x <= hash {
      FindUpwards(net, x, hash);
    } else if x == RING - 1 {
      LargestFindIff(net, hash);
    } else if route.Answer? {
      AnswersDownwards(net, x, hash);
    } else {
      ForwardIsCloser(net, x, hash);
      BothEndsFindIff(net, route.next, hash);
      NotOwnedAcross(net, x, hash);
    }
  }

  // From below the largest member, it does not own a key further down.
  lemma NotOwnedAcross(net: Net, x: Key, hash: Key)
    requires Valid(net) && BothEnds(net.post) && x in net.post && hash < x < RING - 1
    ensures LargestRight(net, hash) <==> LargestLeads(net, hash)
  {
    hide LargestLeads;
    assert Dist(hash, x) < Dist(hash, RING - 1);
  }

  // All starts find the owner of a key exactly if the largest member does: a condition on
  // one member's fingers.
  lemma BothEndsAllIff(net: Net, hash: Key)
    requires Valid(net) && SortedPosts(net.post) && BothEnds(net.post) && FirstsButLast(net)
    ensures (forall x | x in net.post :: IsOwner(net.post.Keys, hash, Find(net, x, hash).owner)) <==>
            LargestRight(net, hash)
  {
    hide SortedPosts, IsOwner, Find, LargestLeads, LargestRight, FirstsButLast, Crosses;
    LargestFindIff(net, hash);
    if LargestRight(net, hash) {
      forall x | x in net.post ensures IsOwner(net.post.Keys, hash, Find(net, x, hash).owner) {
        BothEndsFindIff(net, x, hash);
        if hash < x < RING - 1 {
          NotOwnedAcross(net, x, hash);
        }
      }
    }
  }

  // ----- how often a find is passed on there

  // What a call of fix_fingers leaves: the owner of the start or, for a start across zero
  // to which no finger of the largest member leads, that member.
  ghost predicate EndsEntry(net: Net, m: Key, i: nat)
    requires Valid(net) && RING - 1 in net.post && m in net.post && i < FINGERS
  {
    || IsOwner(net.post.Keys, Start(m, i), net.fingers[m][i])
    || (net.fingers[m][i] == RING - 1 && Start(m, i) < m && !LargestLeads(net, Start(m, i)))
  }

  ghost predicate EndsFixed(net: Net)
    requires Valid(net) && RING - 1 in net.post
  {
    forall m, i {:trigger EndsEntry(net, m, i)} | m in net.post && 0 <= i < FINGERS :: EndsEntry(net, m, i)
  }

  // Going upwards, no start on the way to the last member is across zero.
  lemma StartUpwards(members: set<Key>, x: Key, hash: Key, p: Key, i: nat)
    requires IsLast(members, hash, p) && x in members && x < hash && i < FINGERS && Pow2(i) <= Dist(x, p)
    ensures x < Start(x, i)
  {
    LastOnTheWay(members, hash, p, x);
    Pow2Range(i);
    hide Pow2;
    assert Start(x, i) == x + Pow2(i);
  }

  lemma HopUpwards(net: Net, x: Key, hash: Key, p: Key, i: nat) returns (j: nat)
    requires Valid(net) && SortedPosts(net.post) && RING - 1 in net.post && EndsFixed(net)
    requires x in net.post && x < hash && IsLast(net.post.Keys, hash, p) && x != p
    requires i < FINGERS && Pow2(i) <= Dist(x, p)
    ensures j < FINGERS && net.fingers[x][j] in net.post && net.fingers[x][j] < hash
    ensures Dist(net.fingers[x][j], p) + Pow2(i) <= Dist(x, p)
    ensures Find(net, x, hash).hops == Find(net, net.fingers[x][j], hash).hops + 1
  {
    hide SortedPosts, Find, IsOwner, Start, Pow2;
    assert EndsEntry(net, x, i);
    StartUpwards(net.post.Keys, x, hash, p, i);
    LastIsMember(net.post.Keys, hash, p);
    NearFinger(net.post.Keys, x, i, net.fingers[x][i], p);
    LastOnTheWay(net.post.Keys, hash, p, x);
    Pow2Range(i);
    j := PassesOn(net, x, hash, p, i);
    assert EndsEntry(net, x, j);
    FarFinger(net.post.Keys, x, j, net.fingers[x][j]);
    Pow2Grows(i, j);
  }

  lemma {:induction false} HopsUpwards(net: Net, x: Key, hash: Key, p: Key)
    requires Valid(net) && SortedPosts(net.post) && RING - 1 in net.post && EndsFixed(net)
    requires x in net.post && x < hash && IsLast(net.post.Keys, hash, p)
    ensures Pow2(Find(net, x, hash).hops) <= Dist(x, p) + 1
    decreases Dist(x, p)
  {
    hide SortedPosts, IsLast, Find, EndsFixed;
    if x == p {
      AnswersAtOnce(net, x, hash);
    } else {
      var i := Level(Dist(x, p));
      var j := HopUpwards(net, x, hash, p, i);
      var f := net.fingers[x][j];
      Pow2Range(i);
      HopsUpwards(net, f, hash, p);
      Paid(Find(net, f, hash).hops, Dist(f, p), Dist(x, p), i, 1);
    }
  }

  // The largest member passes a question on to no finger below the start of any of its own.
  lemma HopOfLargest(net: Net, hash: Key, p: Key, f: Key, i: nat)
    requires Valid(net) && SortedPosts(net.post) && BothEnds(net.post) && EndsFixed(net)
    requires hash < RING - 1 && IsLast(net.post.Keys, hash, p) && p != RING - 1
    requires i < FINGERS && Pow2(i) <= Dist(RING - 1, p)
    requires FindRoute(RING - 1, net.post[RING - 1], net.fingers[RING - 1], hash) == Forward(f)
    ensures f in net.post && f < hash && Dist(f, p) + Pow2(i) <= Dist(RING - 1, p)
    ensures Find(net, RING - 1, hash).hops == Find(net, f, hash).hops + 1
  {
    hide SortedPosts, Find, IsOwner, Start, Pow2, FindRoute, LargestLeads;
    var x: Key := RING - 1;
    LargestRoute(net, hash);
    ForwardIsCloser(net, x, hash);
    FindUnfolds(net, x, hash, f);
    MemberOnTheWay(net.post.Keys, hash, p, x, f);
    var j := NextFinger(net, x, hash, f);
    assert EndsEntry(net, x, i);
    if IsOwner(net.post.Keys, Start(x, i), net.fingers[x][i]) {
      LastIsMember(net.post.Keys, hash, p);
      NearFinger(net.post.Keys, x, i, net.fingers[x][i], p);
      LastOnTheWay(net.post.Keys, hash, p, x);
      Pow2Range(i);
      assert EndsEntry(net, x, j);
      FarFinger(net.post.Keys, x, j, f);
      Pow2Grows(i, j);
    } else {
      NotBelow(net, Start(x, i), j);
      StartDist(x, i);
      FartherAcross(Start(x, i), f);
    }
  }

  lemma NextFinger(net: Net, x: Key, hash: Key, f: Key) returns (j: nat)
    requires Valid(net) && x in net.post && FindRoute(x, net.post[x], net.fingers[x], hash) == Forward(f)
    ensures j < FINGERS && net.fingers[x][j] == f
    ensures forall h | j < h < FINGERS :: !Inside(x, net.fingers[x][h], hash)
  {
    hide Inside;
    HighestFingerInside(net.fingers[x], FINGERS, x, hash);
    j :| 0 <= j < FINGERS && net.fingers[x][j] == f
         && forall h | j < h < FINGERS :: !Inside(x, net.fingers[x][h], hash);
  }

  lemma NotBelow(net: Net, s: Key, j: nat)
    requires Valid(net) && RING - 1 in net.post && !LargestLeads(net, s) && j < FINGERS
    ensures s <= net.fingers[RING - 1][j]
  {
  }

  lemma FartherAcross(s: Key, f: Key)
    requires s <= f < RING - 1
    ensures Dist(RING - 1, s) <= Dist(RING - 1, f)
  {
  }

  // The largest member answers, or it passes the question across zero, and it goes upwards.
  lemma HopsOfLargest(net: Net, hash: Key, p: Key)
    requires Valid(net) && SortedPosts(net.post) && BothEnds(net.post) && EndsFixed(net)
    requires hash < RING - 1 && IsLast(net.post.Keys, hash, p)
    ensures Pow2(Find(net, RING - 1, hash).hops) <= Dist(RING - 1, p) + 1
  {
    hide SortedPosts, IsLast, Find, EndsFixed, FindRoute, Inside;
    var route := FindRoute(RING - 1, net.post[RING - 1], net.fingers[RING - 1], hash);
    if p == RING - 1 {
      AnswersAtOnce(net, p, hash);
    } else if route.Answer? {
      AnswersItself(net, hash);
    } else {
      var i := Level(Dist(RING - 1, p));
      HopOfLargest(net, hash, p, route.next, i);
      HopsUpwards(net, route.next, hash, p);
      Paid(Find(net, route.next, hash).hops, Dist(route.next, p), Dist(RING - 1, p), i, 1);
    }
  }

  lemma AnswersItself(net: Net, hash: Key)
    requires Valid(net) && RING - 1 in net.post
    requires FindRoute(RING - 1, net.post[RING - 1], net.fingers[RING - 1], hash).Answer?
    ensures Find(net, RING - 1, hash).hops == 0
  {
  }

  // From another member, a hop covers a power of two or reaches the largest member.
  lemma HopDownwards(net: Net, x: Key, hash: Key, p: Key, i: nat) returns (j: nat)
    requires Valid(net) && SortedPosts(net.post) && RING - 1 in net.post && EndsFixed(net)
    requires x in net.post && hash < x < RING - 1 && IsLast(net.post.Keys, hash, p) && x != p
    requires i < FINGERS && Pow2(i) <= Dist(x, p)
    ensures j < FINGERS && net.fingers[x][j] in net.post && net.fingers[x][j] != hash
    ensures Dist(net.fingers[x][j], p) + Pow2(i) <= Dist(x, p) || net.fingers[x][j] == RING - 1
    ensures Dist(net.fingers[x][j], p) <= Dist(x, p)
    ensures Find(net, x, hash).hops == Find(net, net.fingers[x][j], hash).hops + 1
  {
    hide SortedPosts, Find, IsOwner, Start, Pow2;
    assert EndsEntry(net, x, i);
    if IsOwner(net.post.Keys, Start(x, i), net.fingers[x][i]) {
      LastIsMember(net.post.Keys, hash, p);
      NearFinger(net.post.Keys, x, i, net.fingers[x][i], p);
      LastOnTheWay(net.post.Keys, hash, p, x);
      Pow2Range(i);
    }
    j := PassesOn(net, x, hash, p, i);
    assert EndsEntry(net, x, j);
    if net.fingers[x][j] != RING - 1 {
      FarFinger(net.post.Keys, x, j, net.fingers[x][j]);
      Pow2Grows(i, j);
    }
  }

  lemma {:induction false} HopsDownwards(net: Net, x: Key, hash: Key, p: Key)
    requires Valid(net) && SortedPosts(net.post) && BothEnds(net.post) && EndsFixed(net)
    requires x in net.post && hash < x && IsLast(net.post.Keys, hash, p)
    ensures Pow2(Find(net, x, hash).hops) <= 2 * (Dist(x, p) + 1)
    decreases Dist(x, p)
  {
    hide SortedPosts, IsLast, Find, EndsFixed, Pow2;
    if x == p {
      AnswersAtOnce(net, x, hash);
      Pow2Zero();
    } else if x == RING - 1 {
      HopsOfLargest(net, hash, p);
    } else {
      var i := Level(Dist(x, p));
      var j := HopDownwards(net, x, hash, p, i);
      var f := net.fingers[x][j];
      Pow2Range(i);
      Pow2Next(Find(net, f, hash).hops);
      if f == RING - 1 {
        HopsOfLargest(net, hash, p);
      } else {
        if f < hash {
          HopsUpwards(net, f, hash, p);
        } else {
          HopsDownwards(net, f, hash, p);
        }
        Paid(Find(net, f, hash).hops, Dist(f, p), Dist(x, p), i, 2);
      }
    }
  }

  // So with both end keys a find is passed on at most 31 times upwards and 32 times else.
  lemma HopBoundBothEnds(net: Net, x: Key, hash: Key)
    requires Valid(net) && SortedPosts(net.post) && BothEnds(net.post) && EndsFixed(net) && x in net.post
    ensures Find(net, x, hash).hops <= if x <= hash then 31 else 32
  {
    hide SortedPosts, EndsFixed, IsLast, Find, Pow2, Valid;
    if x == hash {
      AnswersAtOnce(net, x, hash);
    } else {
      var p := FindLast(net.post.Keys, x, hash);
      LastDistance(net.post.Keys, hash, p, x);
      Pow2At32();
      Pow2Next(32);
      if x < hash {
        HopsUpwards(net, x, hash, p);
        SmallerPower(Find(net, x, hash).hops, 32);
      } else {
        HopsDownwards(net, x, hash, p);
        SmallerPower(Find(net, x, hash).hops, 33);
      }
    }
  }

  // ----- calls of fix_fingers reach such fingers

  lemma EndsAnswer(net: Net, m: Key, i: nat)
    requires Valid(net) && SortedPosts(net.post) && BothEnds(net.post) && FirstsButLast(net)
    requires m in net.post && i < FINGERS
    ensures var s, e := Start(m, i), Find(net, m, Start(m, i)).owner;
            IsOwner(net.post.Keys, s, e) || (e == RING - 1 && s < m && !LargestLeads(net, s))
  {
    hide SortedPosts, IsOwner, Find, Start, FirstsButLast, LargestLeads, Crosses;
    BothEndsFindIff(net, m, Start(m, i));
    if Start(m, i) < m {
      FindDownwards(net, m, Start(m, i));
    }
  }

  // A call never makes the largest member lead to a key it did not lead to before.
  lemma NewlyLeads(net: Net, f: Fix, s: Key)
    requires Valid(net) && SortedPosts(net.post) && BothEnds(net.post) && FirstsButLast(net)
    requires CanFix(net.post, f) && LargestLeads(Fixed(net, f), s)
    ensures LargestLeads(net, s)
  {
    hide SortedPosts, IsOwner, Find, Start, FirstsButLast, Fixed;
    var i :| 0 <= i < FINGERS && Fixed(net, f).fingers[RING - 1][i] < s;
    FixedEntries(net, f, RING - 1, i);
    if f == Fix(RING - 1, i) {
      var start := Start(RING - 1, i);
      EndsAnswer(net, RING - 1, i);
      OwnerNotBelow(net.post.Keys, start, Entry(net, f));
      if IsOwner(net.post.Keys, start, RING - 1) {
        OwnerIsUnique(net.post.Keys, start, RING - 1, Entry(net, f));
      }
      LargestFindIff(net, start);
    }
  }

  // With the last key of all on the ring, owners lie at or above their keys.
  lemma OwnerNotBelow(members: set<Key>, hash: Key, o: Key)
    requires RING - 1 in members && IsOwner(members, hash, o)
    ensures hash <= o
  {
    assert Dist(hash, o) <= Dist(hash, RING - 1);
  }

  // A finger fixed after all first fingers is such an entry, for good.
  lemma {:induction false} EndsEntryStays(net: Net, fixes: seq<Fix>, k: nat, j: nat)
    requires Valid(net) && SortedPosts(net.post) && BothEnds(net.post)
    requires CanFixAll(net.post, fixes) && k <= j < |fixes| && FirstsFixed(net.post, fixes[..k])
    ensures var f := fixes[j]; CanFix(net.post, f) && EndsEntry(AfterFixes(net, fixes), f.member, f.finger)
    decreases |fixes|
  {
    hide Find, Start, Fixed, IsOwner, SortedPosts, Valid, FirstsFixed, FirstsButLast, LargestLeads;
    var n, f := |fixes| - 1, fixes[j];
    assert CanFix(net.post, f);
    var before := AfterFixes(net, fixes[..n]);
    FixedEntries(before, fixes[n], f.member, f.finger);
    FirstsFixedLater(net.post, fixes, k, n);
    FirstsButLastReached(net, fixes[..n]);
    if LargestLeads(Fixed(before, fixes[n]), Start(f.member, f.finger)) {
      NewlyLeads(before, fixes[n], Start(f.member, f.finger));
    }
    if fixes[n] == f {
      EndsAnswer(before, f.member, f.finger);
    } else {
      assert fixes[..n][..k] == fixes[..k];
      EndsEntryStays(net, fixes[..n], k, j);
    }
  }

  // The first finger of the largest member becomes the member itself, for good.
  lemma LargestLosesFirst(net: Net)
    requires Valid(net) && SortedPosts(net.post) && BothEnds(net.post)
    ensures Start(RING - 1, 0) == 0 && Find(net, RING - 1, 0).owner == RING - 1
  {
    assert Pow2(0) == 1;
    hide SortedPosts;
    LargestRoute(net, 0);
  }

  lemma {:induction false} LargestFirstStays(net: Net, fixes: seq<Fix>)
    requires Valid(net) && SortedPosts(net.post) && BothEnds(net.post)
    requires CanFixAll(net.post, fixes) && Fix(RING - 1, 0) in fixes
    ensures AfterFixes(net, fixes).fingers[RING - 1][0] == RING - 1
    decreases |fixes|
  {
    hide Find, Start, Fixed, Valid, SortedPosts;
    var n := |fixes| - 1;
    assert fixes == fixes[..n] + [fixes[n]];
    var before := AfterFixes(net, fixes[..n]);
    FixedEntries(before, fixes[n], RING - 1, 0);
    if fixes[n] == Fix(RING - 1, 0) {
      LargestLosesFirst(before);
    } else {
      LargestFirstStays(net, fixes[..n]);
    }
  }

  lemma FirstEndsEntry(net: Net, fixes: seq<Fix>, m: Key)
    requires Valid(net) && SortedPosts(net.post) && BothEnds(net.post)
    requires CanFixAll(net.post, fixes) && FirstsFixed(net.post, fixes) && m in net.post
    ensures EndsEntry(AfterFixes(net, fixes), m, 0)
  {
    hide Find, IsOwner, SortedPosts, AfterFixes, Start;
    assert Fix(m, 0) in fixes;
    if m == RING - 1 {
      LargestLosesFirst(net);
      LargestFirstStays(net, fixes);
    } else {
      FirstStays(net, fixes, m);
      PostIsMember(net.post, m);
      PostOwnsNextKey(net.post, m);
    }
  }

  // Once every member has fixed its first finger and, after that, every other one, in any
  // order, all fingers are of this kind.
  lemma FixesReachEnds(net: Net, fixes: seq<Fix>, k: nat)
    requires Valid(net) && SortedPosts(net.post) && BothEnds(net.post)
    requires CanFixAll(net.post, fixes) && k <= |fixes|
    requires FirstsFixed(net.post, fixes[..k]) && OthersFixed(net.post, fixes[k..])
    ensures EndsFixed(AfterFixes(net, fixes))
  {
    hide Start, AfterFixes, EndsEntry, SortedPosts, FirstsFixed, CanFixAll, OthersFixed;
    FirstsFixedLater(net.post, fixes, k, |fixes|);
    assert fixes[..|fixes|] == fixes;
    forall m, i | m in net.post && 0 <= i < FINGERS ensures EndsEntry(AfterFixes(net, fixes), m, i) {
      if i == 0 {
        FirstEndsEntry(net, fixes, m);
      } else {
        var j := FixAfter(net.post, fixes, k, m, i);
        EndsEntryStays(net, fixes, k, j);
      }
    }
  }
}

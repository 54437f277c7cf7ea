// How often a find is passed on: at most 31 times with exact fingers, and at most 32
// times with the fingers that fix_fingers leaves.
module ChordHops {
  import opened ChordKeys
  import opened ChordConvergence
  import opened ChordLookup
  import opened ChordProtocol

  function Pow2(i: nat): nat {
    if i == 0 then 1 else 2 * Pow2(i - 1)
  }

  lemma {:induction false} Pow2Grows(i: nat, j: nat)
    requires i <= j
    ensures 1 <= Pow2(i) <= Pow2(j)
    decreases j
  {
    if i < j {
      Pow2Grows(i, j - 1);
    } else if i > 0 {
      Pow2Grows(i - 1, j - 1);
    }
  }

  lemma Pow2Range(i: nat)
    requires i < FINGERS
    ensures 1 <= Pow2(i) < RING
  {
    Pow2Grows(i, 31);
    Pow2At32();
  }

  lemma Pow2At32()
    ensures Pow2(32) == RING && Pow2(31) < RING
  {
    assert Pow2(8) == 256;
    assert Pow2(16) == 256 * Pow2(8);
    assert Pow2(24) == 256 * Pow2(16);
    assert Pow2(32) == 256 * Pow2(24);
  }

  // fin_tb[i].start: the key 2^i further on, modulo 2^32.
  function Start(m: Key, i: nat): Key
    requires i < FINGERS
  {
    (m + Pow2(i)) % RING
  }

  lemma StartDist(m: Key, i: nat)
    requires i < FINGERS
    ensures Dist(m, Start(m, i)) == Pow2(i) > 0
  {
    Pow2Range(i);
    hide Pow2;
    if m + Pow2(i) >= RING {
      assert (m + Pow2(i)) % RING == m + Pow2(i) - RING;
    }
  }

  // ----- where the chain is heading

  // The last member strictly before the hash: the one that answers.
  ghost predicate IsLast(members: set<Key>, hash: Key, p: Key) {
    p in members && p != hash && forall m {:trigger Inside(p, m, hash)} | m in members :: !Inside(p, m, hash)
  }

  lemma LastOnTheWay(members: set<Key>, hash: Key, p: Key, x: Key)
    requires IsLast(members, hash, p) && x in members && x != hash
    ensures Dist(x, p) + Dist(p, hash) == Dist(x, hash)
  {
    assert !Inside(p, x, hash);
  }

  lemma {:induction false} LastExists(members: set<Key>, rest: set<Key>, hash: Key) returns (p: Key)
    requires rest <= members && exists x :: x in rest && x != hash
    ensures p in rest && p != hash && forall m | m in rest && m != hash :: Dist(p, hash) <= Dist(m, hash)
  {
    var x :| x in rest && x != hash;
    var others := rest - {x};
    if exists y :: y in others && y != hash {
      var q := LastExists(members, others, hash);
      p := if Dist(x, hash) < Dist(q, hash) then x else q;
      forall m | m in rest && m != hash ensures Dist(p, hash) <= Dist(m, hash) {
        assert m == x || m in others;
      }
    } else {
      p := x;
      forall m | m in rest && m != hash ensures m == x {
        assert m == x || m in others;
      }
    }
  }

  lemma FindLast(members: set<Key>, x: Key, hash: Key) returns (p: Key)
    requires x in members && x != hash
    ensures IsLast(members, hash, p)
  {
    p := LastExists(members, members, hash);
  }

  // A member found strictly before the hash is on the way to the last one.
  lemma MemberOnTheWay(members: set<Key>, hash: Key, p: Key, x: Key, f: Key)
    requires IsLast(members, hash, p) && x in members && x != hash
    requires f in members && Inside(x, f, hash)
    ensures f != hash && Dist(x, f) + Dist(f, p) == Dist(x, p)
  {
    assert !Inside(p, x, hash) && !Inside(p, f, hash);
  }

  // The last member answers, and so does a member asked for its own key.
  lemma AnswersAtOnce(net: Net, x: Key, hash: Key)
    requires Valid(net) && x in net.post && (IsLast(net.post.Keys, hash, x) || x == hash)
    ensures Find(net, x, hash).hops == 0
  {
    HighestFingerInside(net.fingers[x], FINGERS, x, hash);
  }

  // A member before the last one, with some finger before the hash, passes the question
  // on to the highest such finger.
  lemma PassesOn(net: Net, x: Key, hash: Key, p: Key, i: nat) returns (j: nat)
    requires Valid(net) && SortedPosts(net.post) && x in net.post && x != hash
    requires IsLast(net.post.Keys, hash, p) && x != p
    requires i < FINGERS && Inside(x, net.fingers[x][i], hash)
    ensures i <= j < FINGERS && Inside(x, net.fingers[x][j], hash) && net.fingers[x][j] in net.post
    ensures net.fingers[x][j] != hash
    ensures Dist(x, net.fingers[x][j]) + Dist(net.fingers[x][j], p) == Dist(x, p)
    ensures Find(net, x, hash).hops == Find(net, net.fingers[x][j], hash).hops + 1
  {
    hide SortedPosts, IsLast, Find, Inside;
    NotOwned(net.post, x, hash, p);
    HighestFingerInside(net.fingers[x], FINGERS, x, hash);
    j :| 0 <= j < FINGERS && HighestFinger(net.fingers[x], FINGERS, x, hash) == Some(net.fingers[x][j])
         && Inside(x, net.fingers[x][j], hash)
         && forall h | j < h < FINGERS :: !Inside(x, net.fingers[x][h], hash);
    MemberOnTheWay(net.post.Keys, hash, p, x, net.fingers[x][j]);
    FindUnfolds(net, x, hash, net.fingers[x][j]);
  }

  lemma FindUnfolds(net: Net, x: Key, hash: Key, f: Key)
    requires Valid(net) && x in net.post && f in net.post
    requires FindRoute(x, net.post[x], net.fingers[x], hash) == Forward(f)
    ensures Find(net, x, hash).hops == Find(net, f, hash).hops + 1
  {
  }

  lemma NotOwned(post: map<Key, Key>, x: Key, hash: Key, p: Key)
    requires SortedPosts(post) && x in post && x != hash && IsLast(post.Keys, hash, p) && x != p
    ensures !OwnedByPost(x, post[x], hash)
  {
    assert p in post && !Inside(x, p, post[x]);
    LastOnTheWay(post.Keys, hash, p, x);
  }

  // ----- exact fingers

  // The owner of the start, if it lies before the hash, is at least 2^j away.
  lemma FarFinger(members: set<Key>, x: Key, j: nat, f: Key)
    requires x in members && j < FINGERS && IsOwner(members, Start(x, j), f) && f != x
    ensures Dist(x, f) >= Pow2(j)
  {
    StartDist(x, j);
    hide Pow2, Start;
    assert Dist(Start(x, j), f) <= Dist(Start(x, j), x);
  }

  // The owner of a start that is not past p is not past p.
  lemma NearFinger(members: set<Key>, x: Key, i: nat, f: Key, p: Key)
    requires i < FINGERS && IsOwner(members, Start(x, i), f) && p in members && Pow2(i) <= Dist(x, p)
    ensures Pow2(i) <= Dist(x, f) <= Dist(x, p)
  {
    StartDist(x, i);
    hide Pow2, Start;
    assert Dist(Start(x, i), f) <= Dist(Start(x, i), p);
  }

  ghost predicate FingersExact(net: Net)
    requires Valid(net)
  {
    forall m, i {:trigger IsOwner(net.post.Keys, Start(m, i), net.fingers[m][i])} |
      m in net.post && 0 <= i < FINGERS :: IsOwner(net.post.Keys, Start(m, i), net.fingers[m][i])
  }

  lemma SmallerPower(i: nat, k: nat)
    requires Pow2(i) < Pow2(k)
    ensures i < k
  {
    if i >= k {
      Pow2Grows(k, i);
    }
  }

  // Every distance lies between two powers of two.
  lemma {:induction false} Level(d: nat) returns (i: nat)
    requires 0 < d < RING
    ensures i < FINGERS && Pow2(i) <= d < 2 * Pow2(i)
  {
    if d == 1 {
      i := 0;
    } else {
      var j := Level(d / 2);
      i := j + 1;
      Pow2At32();
      SmallerPower(i, 32);
    }
  }

  // Hops pay for themselves: each covers a power of two that it did not need before.
  lemma Paid(hops: nat, left: nat, d: nat, i: nat, c: nat)
    requires c == 1 || c == 2
    requires Pow2(hops) <= c * (left + 1) && left + Pow2(i) <= d < 2 * Pow2(i)
    ensures Pow2(hops + 1) <= c * (d + 1)
  {
    assert Pow2(hops + 1) == 2 * Pow2(hops);
    hide Pow2;
    if c == 1 {
    } else {
      assert c == 2;
    }
  }

  // With exact fingers, n hops take a distance of at least 2^n - 1 to the last member.
  lemma {:induction false} HopsExact(net: Net, x: Key, hash: Key, p: Key)
    requires Valid(net) && SortedPosts(net.post) && FingersExact(net)
    requires x in net.post && x != hash && IsLast(net.post.Keys, hash, p)
    ensures Pow2(Find(net, x, hash).hops) <= Dist(x, p) + 1
    decreases Dist(x, p)
  {
    hide SortedPosts, IsLast, Find, Inside, IsOwner, Start;
    if x == p {
      AnswersAtOnce(net, x, hash);
    } else {
      var i := Level(Dist(x, p));
      var j := ExactHop(net, x, hash, p, i);
      var f := net.fingers[x][j];
      Pow2Range(i);
      HopsExact(net, f, hash, p);
      Paid(Find(net, f, hash).hops, Dist(f, p), Dist(x, p), i, 1);
    }
  }

  // From distance 2^i or more, one hop covers at least 2^i.
  lemma ExactHop(net: Net, x: Key, hash: Key, p: Key, i: nat) returns (j: nat)
    requires Valid(net) && SortedPosts(net.post) && FingersExact(net)
    requires x in net.post && x != hash && IsLast(net.post.Keys, hash, p) && x != p
    requires i < FINGERS && Pow2(i) <= Dist(x, p)
    ensures j < FINGERS && net.fingers[x][j] in net.post && net.fingers[x][j] != hash
    ensures Dist(net.fingers[x][j], p) + Pow2(i) <= Dist(x, p)
    ensures Find(net, x, hash).hops == Find(net, net.fingers[x][j], hash).hops + 1
  {
    hide SortedPosts, Find, IsOwner, Start, Pow2;
    NearFinger(net.post.Keys, x, i, net.fingers[x][i], p);
    LastOnTheWay(net.post.Keys, hash, p, x);
    Pow2Range(i);
    j := PassesOn(net, x, hash, p, i);
    FarFinger(net.post.Keys, x, j, net.fingers[x][j]);
    Pow2Grows(i, j);
  }

  // The last member is at most 2^32 - 2 away: the hash lies behind it.
  lemma LastDistance(members: set<Key>, hash: Key, p: Key, x: Key)
    requires IsLast(members, hash, p) && x in members && x != hash
    ensures Dist(x, p) + 2 <= RING
  {
    LastOnTheWay(members, hash, p, x);
  }

  // With every finger the owner of its start, a find is passed on at most 31 times.
  lemma HopBound(net: Net, x: Key, hash: Key)
    requires Valid(net) && SortedPosts(net.post) && FingersExact(net) && x in net.post
    ensures Find(net, x, hash).hops <= 31
  {
    hide SortedPosts, FingersExact, IsLast, Find, Pow2;
    if x == hash {
      AnswersAtOnce(net, x, hash);
    } else {
      var p := FindLast(net.post.Keys, x, hash);
      LastDistance(net.post.Keys, hash, p, x);
      HopsExact(net, x, hash, p);
      Pow2At32();
      SmallerPower(Find(net, x, hash).hops, 32);
    }
  }

  // ----- the fingers that fix_fingers leaves

  // Every finger is what a lookup of its start answers: its owner, but for a start that
  // is the smallest member key.  The first finger is still the postnode.
  ghost predicate FingersFixed(net: Net)
    requires Valid(net)
  {
    && FirstFingerIsPost(net)
    && forall m, i {:trigger AnswerIs(net.post.Keys, m, Start(m, i), net.fingers[m][i])} |
         m in net.post && 0 <= i < FINGERS :: AnswerIs(net.post.Keys, m, Start(m, i), net.fingers[m][i])
  }

  // Whatever the other fingers were, fix_fingers leaves such an entry.
  lemma FixFingersAnswer(net: Net, m: Key, i: nat)
    requires Valid(net) && SortedPosts(net.post) && FirstFingerIsPost(net) && m in net.post && i < FINGERS
    ensures AnswerIs(net.post.Keys, m, Start(m, i), Find(net, m, Start(m, i)).owner)
  {
    hide SortedPosts, AnswerIs, Find, Start;
    FindAnswers(net, m, Start(m, i));
  }

  lemma OwnerIsUnique(members: set<Key>, hash: Key, o: Key, o': Key)
    requires IsOwner(members, hash, o) && IsOwner(members, hash, o')
    ensures o == o'
  {
    assert Dist(hash, o) == Dist(hash, o');
  }

  lemma PostOwnsNextKey(post: map<Key, Key>, m: Key)
    requires SortedPosts(post) && m in post && post[m] in post
    ensures IsOwner(post.Keys, Start(m, 0), post[m])
  {
    StartDist(m, 0);
    assert Pow2(0) == 1;
    hide Start;
    if post[m] != m {
      PostOwns(post, m, Start(m, 0));
    } else {
      AloneOnRing(post, m);
    }
  }

  // Whatever the fingers and however the ring is linked, fix_fingers makes the first finger
  // the postnode, except for a member with the key 2^32 - 1 whose postnode has the key 0.
  lemma FirstFingerKeptIff(net: Net, m: Key)
    requires Valid(net) && m in net.post
    ensures Find(net, m, Start(m, 0)).owner == net.post[m] <==> !(m == RING - 1 && net.post[m] == 0)
  {
    StartDist(m, 0);
    assert Pow2(0) == 1;
    hide Start, Pow2;
    assert forall f: Key :: !Inside(m, f, Start(m, 0));
    HighestFingerInside(net.fingers[m], FINGERS, m, Start(m, 0));
    if net.post[m] != m {
      assert OwnedByPost(m, net.post[m], Start(m, 0)) <==> !(Start(m, 0) == net.post[m] && net.post[m] < m);
    }
  }

  lemma WrapOfNextKey(members: set<Key>, m: Key, t: Key)
    requires m in members && IsOwner(members, Start(m, 0), t)
    ensures IsSmallest(members, Start(m, 0)) && m != Start(m, 0) <==> m == RING - 1 && t == 0
  {
    StartDist(m, 0);
    assert Pow2(0) == 1;
    hide Start, Pow2;
    if Start(m, 0) in members {
      assert Dist(Start(m, 0), t) <= Dist(Start(m, 0), Start(m, 0));
    }
  }

  // Whether the way from x to p passes the key zero.
  function Wraps(x: Key, p: Key): nat {
    if p < x then 1 else 0
  }

  // A finger below the wrap: either it is exact, or it is the largest member.
  lemma FixedFinger(members: set<Key>, x: Key, j: nat, f: Key)
    requires x in members && j < FINGERS && AnswerIs(members, x, Start(x, j), f)
    ensures IsOwner(members, Start(x, j), f) || (IsLargest(members, f) && IsSmallest(members, Start(x, j)))
  {
  }

  // After the largest member, whoever comes next is no nearer than the smallest.
  lemma PastTheWrap(members: set<Key>, l: Key, s: Key, y: Key, p: Key)
    requires IsLargest(members, l) && IsSmallest(members, s)
    requires y in members && y != l && p in members && p != l
    requires Dist(l, y) + Dist(y, p) == Dist(l, p)
    ensures Wraps(y, p) == 0 && Dist(y, p) <= Dist(s, p)
  {
    assert s <= y && s <= p;
  }

  // What one hop from distance 2^i or more achieves: it covers 2^i, or it reaches the
  // largest member with the wrap still ahead.
  ghost predicate HopFrom(net: Net, x: Key, hash: Key, p: Key, i: nat, j: nat)
    requires Valid(net) && x in net.post && i < FINGERS
  {
    && j < FINGERS && net.fingers[x][j] in net.post && net.fingers[x][j] != hash
    && Find(net, x, hash).hops == Find(net, net.fingers[x][j], hash).hops + 1
    && Dist(x, net.fingers[x][j]) + Dist(net.fingers[x][j], p) == Dist(x, p)
    && (|| Dist(net.fingers[x][j], p) + Pow2(i) <= Dist(x, p)
        || (IsLargest(net.post.Keys, net.fingers[x][j]) && i <= j && IsSmallest(net.post.Keys, Start(x, j))))
  }

  lemma UpwardHop(net: Net, x: Key, hash: Key, p: Key, i: nat) returns (j: nat)
    requires Valid(net) && SortedPosts(net.post) && FingersFixed(net)
    requires x in net.post && x != hash && IsLast(net.post.Keys, hash, p) && x != p
    requires i < FINGERS && Pow2(i) <= Dist(x, p)
    requires Inside(x, net.fingers[x][i], hash)
    ensures HopFrom(net, x, hash, p, i, j)
  {
    hide SortedPosts, Find, IsOwner, Start, Pow2, IsLargest, IsSmallest, AnswerIs, FirstFingerIsPost, IsLast;
    j := PassesOn(net, x, hash, p, i);
    FixedFinger(net.post.Keys, x, j, net.fingers[x][j]);
    if IsOwner(net.post.Keys, Start(x, j), net.fingers[x][j]) {
      FarFinger(net.post.Keys, x, j, net.fingers[x][j]);
      Pow2Grows(i, j);
    }
  }

  // The largest member, whose finger i is itself, still knows its postnode.
  lemma LargestHop(net: Net, x: Key, hash: Key, p: Key, i: nat) returns (j: nat)
    requires Valid(net) && SortedPosts(net.post) && FingersFixed(net)
    requires x in net.post && x != hash && IsLast(net.post.Keys, hash, p) && x != p
    requires i < FINGERS && Pow2(i) <= Dist(x, p)
    requires IsLargest(net.post.Keys, x) && IsSmallest(net.post.Keys, Start(x, i))
    ensures HopFrom(net, x, hash, p, i, j)
  {
    hide SortedPosts, Find, IsOwner, Start, Pow2, IsLargest, IsSmallest, AnswerIs, FirstFingerIsPost, IsLast;
    PostOnTheWay(net, x, hash, p);
    j := PassesOn(net, x, hash, p, 0);
    StartDist(x, i);
    LastIsMember(net.post.Keys, hash, p);
    BehindTheWrap(net.post.Keys, x, x, Start(x, i), p);
    PastTheWrap(net.post.Keys, x, Start(x, i), net.fingers[x][j], p);
  }

  lemma LastIsMember(members: set<Key>, hash: Key, p: Key)
    requires IsLast(members, hash, p)
    ensures p in members
  {
  }

  lemma PostOnTheWay(net: Net, x: Key, hash: Key, p: Key)
    requires Valid(net) && SortedPosts(net.post) && FirstFingerIsPost(net)
    requires x in net.post && x != hash && IsLast(net.post.Keys, hash, p) && x != p
    ensures Inside(x, net.fingers[x][0], hash)
  {
    assert net.fingers[x][0] == net.post[x];
    assert !Inside(x, p, net.post[x]) && net.post[x] != x;
    LastOnTheWay(net.post.Keys, hash, p, x);
  }

  lemma LargestInside(members: set<Key>, x: Key, hash: Key, p: Key, i: nat, l: Key)
    requires IsLast(members, hash, p) && x in members && x != hash && x != p && i < FINGERS
    requires IsLargest(members, l) && IsSmallest(members, Start(x, i)) && l != x && Pow2(i) <= Dist(x, p)
    ensures Inside(x, l, hash)
  {
    LastOnTheWay(members, hash, p, x);
    StartDist(x, i);
    hide Start, Pow2;
    assert x < l && Start(x, i) <= x && p <= l;
  }

  lemma FixedHop(net: Net, x: Key, hash: Key, p: Key, i: nat) returns (j: nat)
    requires Valid(net) && SortedPosts(net.post) && FingersFixed(net)
    requires x in net.post && x != hash && IsLast(net.post.Keys, hash, p) && x != p
    requires i < FINGERS && Pow2(i) <= Dist(x, p)
    ensures HopFrom(net, x, hash, p, i, j)
  {
    hide SortedPosts, Find, IsOwner, Start, Pow2, IsLargest, IsSmallest, AnswerIs, FirstFingerIsPost, HopFrom;
    FixedFinger(net.post.Keys, x, i, net.fingers[x][i]);
    if IsOwner(net.post.Keys, Start(x, i), net.fingers[x][i]) {
      NearFinger(net.post.Keys, x, i, net.fingers[x][i], p);
      LastOnTheWay(net.post.Keys, hash, p, x);
      Pow2Range(i);
      j := UpwardHop(net, x, hash, p, i);
    } else if net.fingers[x][i] == x {
      j := LargestHop(net, x, hash, p, i);
    } else {
      LargestInside(net.post.Keys, x, hash, p, i, net.fingers[x][i]);
      j := UpwardHop(net, x, hash, p, i);
    }
  }

  // From the largest member the next hop crosses the wrap, and the arc from x that ended
  // at the smallest member is behind it.
  lemma CrossTheWrap(net: Net, x: Key, hash: Key, p: Key, i: nat, j: nat) returns (h: nat)
    requires Valid(net) && SortedPosts(net.post) && FingersFixed(net)
    requires x in net.post && x != hash && IsLast(net.post.Keys, hash, p) && x != p
    requires i < FINGERS && HopFrom(net, x, hash, p, i, j)
    requires Dist(net.fingers[x][j], p) + Pow2(i) > Dist(x, p) && net.fingers[x][j] != p
    ensures var l := net.fingers[x][j];
            && h < FINGERS && net.fingers[l][h] in net.post && net.fingers[l][h] != hash
            && Find(net, x, hash).hops == Find(net, net.fingers[l][h], hash).hops + 2
            && Dist(net.fingers[l][h], p) + Pow2(i) <= Dist(x, p)
            && Wraps(net.fingers[l][h], p) == 0 && Wraps(x, p) == 1
  {
    hide SortedPosts, Find, Start, Pow2, AnswerIs, IsOwner, FirstFingerIsPost, IsLast, Inside;
    LastIsMember(net.post.Keys, hash, p);
    var l := net.fingers[x][j];
    PostOnTheWay(net, l, hash, p);
    h := PassesOn(net, l, hash, p, 0);
    StartDist(x, j);
    Pow2Grows(i, j);
    PastTheWrap(net.post.Keys, l, Start(x, j), net.fingers[l][h], p);
    BehindTheWrap(net.post.Keys, x, l, Start(x, j), p);
  }

  lemma BehindTheWrap(members: set<Key>, x: Key, l: Key, s: Key, p: Key)
    requires IsLargest(members, l) && IsSmallest(members, s) && x in members && p in members && p != l
    requires Dist(x, l) + Dist(l, p) == Dist(x, p)
    ensures Wraps(x, p) == 1 && Dist(x, s) + Dist(s, p) == Dist(x, p)
  {
    assert x <= l && s <= p < l && s <= x;
  }

  // The wrap costs at most one hop more.
  lemma {:induction false} HopsFixed(net: Net, x: Key, hash: Key, p: Key)
    requires Valid(net) && SortedPosts(net.post) && FingersFixed(net)
    requires x in net.post && x != hash && IsLast(net.post.Keys, hash, p)
    ensures Pow2(Find(net, x, hash).hops) <= (1 + Wraps(x, p)) * (Dist(x, p) + 1)
    decreases Dist(x, p)
  {
    hide SortedPosts, IsLast, Find, Inside, Pow2, IsOwner, Start, FingersFixed, IsLargest, IsSmallest;
    if x == p {
      AnswersAtOnce(net, x, hash);
      assert Pow2(0) == 1 by { Pow2Zero(); }
    } else {
      var i := Level(Dist(x, p));
      var j := FixedHop(net, x, hash, p, i);
      var f := net.fingers[x][j];
      Pow2Range(i);
      if Dist(f, p) + Pow2(i) <= Dist(x, p) {
        HopsFixed(net, f, hash, p);
        NoNewWrap(x, f, p);
        MoreAllowed(Pow2(Find(net, f, hash).hops), Wraps(f, p), Wraps(x, p), Dist(f, p));
        Paid(Find(net, f, hash).hops, Dist(f, p), Dist(x, p), i, 1 + Wraps(x, p));
      } else {
        var h := CrossTheWrap(net, x, hash, p, i, j);
        var g := net.fingers[f][h];
        HopsFixed(net, g, hash, p);
        Paid(Find(net, g, hash).hops, Dist(g, p), Dist(x, p), i, 1);
        Pow2Next(Find(net, g, hash).hops + 1);
      }
    }
  }

  lemma Pow2Zero()
    ensures Pow2(0) == 1
  {
  }

  lemma Pow2Next(i: nat)
    ensures Pow2(i + 1) == 2 * Pow2(i)
  {
  }

  lemma MoreAllowed(v: nat, a: nat, b: nat, d: nat)
    requires a <= b <= 1 && v <= (1 + a) * (d + 1)
    ensures v <= (1 + b) * (d + 1)
  {
    if a == 0 && b == 1 {
      assert (1 + b) * (d + 1) == 2 * (d + 1);
    }
  }

  lemma NoNewWrap(x: Key, f: Key, p: Key)
    requires Dist(x, f) + Dist(f, p) == Dist(x, p)
    ensures Wraps(f, p) <= Wraps(x, p)
  {
  }

  // With the fingers that fix_fingers leaves, a find is passed on at most 32 times.
  lemma HopBoundFixed(net: Net, x: Key, hash: Key)
    requires Valid(net) && SortedPosts(net.post) && FingersFixed(net) && x in net.post
    ensures Find(net, x, hash).hops <= 32
  {
    hide SortedPosts, FingersFixed, IsLast, Find, Pow2;
    if x == hash {
      AnswersAtOnce(net, x, hash);
    } else {
      var p := FindLast(net.post.Keys, x, hash);
      LastDistance(net.post.Keys, hash, p, x);
      HopsFixed(net, x, hash, p);
      MoreAllowed(Pow2(Find(net, x, hash).hops), Wraps(x, p), 1, Dist(x, p));
      Pow2At32();
      Pow2Next(32);
      SmallerPower(Find(net, x, hash).hops, 33);
    }
  }

  // ----- such fingers exist

  lemma {:induction false} OwnerExists(members: set<Key>, hash: Key) returns (o: Key)
    requires members != {}
    ensures IsOwner(members, hash, o)
  {
    var x :| x in members;
    var rest := members - {x};
    if rest == {} {
      o := x;
      assert members == {x};
    } else {
      var r := OwnerExists(rest, hash);
      o := if Dist(hash, x) < Dist(hash, r) then x else r;
      forall m | m in members ensures Dist(hash, o) <= Dist(hash, m) {
        assert m == x || m in rest;
      }
    }
  }

  lemma SomeOwner(members: set<Key>, hash: Key)
    requires members != {}
    ensures exists o: Key :: IsOwner(members, hash, o)
  {
    var o := OwnerExists(members, hash);
  }

  ghost function Owner(members: set<Key>, hash: Key): (o: Key)
    requires members != {}
    ensures IsOwner(members, hash, o)
  {
    SomeOwner(members, hash);
    var o :| IsOwner(members, hash, o);
    o
  }

  ghost function ExactRow(members: set<Key>, m: Key): (row: seq<Key>)
    requires members != {}
    ensures |row| == FINGERS
    ensures forall i | 0 <= i < FINGERS :: row[i] == Owner(members, Start(m, i))
  {
    seq(FINGERS, i requires 0 <= i < FINGERS => Owner(members, Start(m, i)))
  }

  ghost function ExactNet(post: map<Key, Key>): (net: Net)
    requires post != map[]
    ensures net.post == post && net.fingers.Keys == post.Keys
  {
    var m :| m in post;
    assert m in post.Keys;
    Net(post, map m | m in post :: ExactRow(post.Keys, m))
  }

  lemma ExactEntry(post: map<Key, Key>, m: Key, i: nat)
    requires m in post && i < FINGERS
    ensures post != map[] && |ExactNet(post).fingers[m]| == FINGERS
    ensures IsOwner(post.Keys, Start(m, i), ExactNet(post).fingers[m][i]) && ExactNet(post).fingers[m][i] in post
  {
    hide IsOwner, Start;
    assert m in post.Keys;
    OwnerIsMember(post.Keys, Start(m, i), ExactNet(post).fingers[m][i]);
  }

  lemma ExactFingersFit(post: map<Key, Key>)
    requires post != map[]
    ensures FingersFit(post, ExactNet(post).fingers)
  {
    hide ExactNet, IsOwner, Start;
    forall m | m in post ensures RowFits(post, ExactNet(post).fingers[m]) {
      ExactEntry(post, m, 0);
      forall i | 0 <= i < FINGERS ensures ExactNet(post).fingers[m][i] in post {
        ExactEntry(post, m, i);
      }
    }
  }

  lemma PostIsMember(post: map<Key, Key>, m: Key)
    requires Closed(post) && m in post
    ensures post[m] in post
  {
  }

  // Every sorted ring has exact fingers; the first of them is the postnode.
  lemma ExactFingersExist(post: map<Key, Key>) returns (net: Net)
    requires post != map[] && SortedPosts(post) && Closed(post)
    ensures net.post == post && Valid(net) && FingersExact(net) && FirstFingerIsPost(net)
  {
    hide IsOwner, Start, SortedPosts, Closed, ExactNet;
    net := ExactNet(post);
    ExactFingersFit(post);
    forall m, i | m in post && 0 <= i < FINGERS ensures IsOwner(post.Keys, Start(m, i), net.fingers[m][i]) {
      ExactEntry(post, m, i);
    }
    forall m | m in post ensures net.fingers[m][0] == post[m] {
      PostIsMember(post, m);
      PostOwnsNextKey(post, m);
      ExactEntry(post, m, 0);
      OwnerIsUnique(post.Keys, Start(m, 0), post[m], net.fingers[m][0]);
    }
  }

  lemma OwnerIsMember(members: set<Key>, hash: Key, o: Key)
    requires IsOwner(members, hash, o)
    ensures o in members
  {
  }

  // ----- from the protocol to the lookups

  lemma NextServes(members: set<Key>, m: Key, t: Key)
    requires NextClockwise(members, m, t)
    ensures t != m && forall y | y in members :: !Inside(m, y, t)
  {
  }

  lemma SortedRingServes(s: Ring)
    requires WellTyped(s) && Sorted(s)
    ensures SortedPosts(s.post)
  {
    hide Inside, Closed, NextClockwise, WellTyped;
    forall m, y | m in s.post && y in s.post ensures !Inside(m, y, s.post[m]) && s.post[m] != m {
      assert SortedAt(s, m);
      NextServes(s.post.Keys, m, s.post[m]);
    }
  }
}

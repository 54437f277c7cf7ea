// findClosestPort across the ring: every question ends, where it ends, and how soon.
module ChordLookup {
  import opened ChordKeys

  // The links that lookups follow, member by member.
  datatype Net = Net(post: map<Key, Key>, fingers: map<Key, seq<Key>>)

  ghost predicate Valid(net: Net) {
    && net.fingers.Keys == net.post.Keys
    && Closed(net.post)
    && FingersFit(net.post, net.fingers)
  }

  ghost predicate FingersFit(post: map<Key, Key>, fingers: map<Key, seq<Key>>) {
    forall m {:trigger fingers[m]} | m in fingers :: RowFits(post, fingers[m])
  }

  ghost predicate RowFits(post: map<Key, Key>, row: seq<Key>) {
    |row| == FINGERS && forall i | 0 <= i < FINGERS :: row[i] in post
  }

  datatype Found = Found(owner: Key, hops: nat)

  lemma {:induction false} HighestFingerInside(fingers: seq<Key>, n: nat, self: Key, hash: Key)
    requires n <= |fingers|
    ensures var f := HighestFinger(fingers, n, self, hash);
            && (f.Some? ==> exists i | 0 <= i < n ::
                  && f.value == fingers[i] && Inside(self, fingers[i], hash)
                  && forall j | i < j < n :: !Inside(self, fingers[j], hash))
            && (f.None? ==> forall i | 0 <= i < n :: !Inside(self, fingers[i], hash))
  {
    if n > 0 && !Inside(self, fingers[n - 1], hash) {
      HighestFingerInside(fingers, n - 1, self, hash);
    }
  }

  lemma ForwardIsCloser(net: Net, x: Key, hash: Key)
    requires Valid(net) && x in net.post
    requires FindRoute(x, net.post[x], net.fingers[x], hash).Forward?
    ensures var f := FindRoute(x, net.post[x], net.fingers[x], hash).next;
            f in net.post && Inside(x, f, hash) && Dist(f, hash) < Dist(x, hash)
  {
    HighestFingerInside(net.fingers[x], FINGERS, x, hash);
  }

  // The chain of finds that starts at x.  It ends in every network, sorted or not: each
  // member passes the question to one that lies strictly between itself and the hash.
  ghost function Find(net: Net, x: Key, hash: Key): Found
    requires Valid(net) && x in net.post
    decreases Dist(x, hash)
  {
    var route := FindRoute(x, net.post[x], net.fingers[x], hash);
    match route
    case Answer(owner) => Found(owner, 0)
    case Forward(f) =>
      ForwardIsCloser(net, x, hash);
      var r := Find(net, f, hash);
      Found(r.owner, r.hops + 1)
  }

  // The two tests that let a member answer with its postnode.
  lemma OwnedByPostIff(self: Key, post: Key, hash: Key)
    ensures OwnedByPost(self, post, hash) <==>
            (self < hash && hash <= post) || ((hash > self || hash < post) && self > post)
  {
  }

  // One hop of a lookup, in every network: the postnode if one of the two tests holds, or
  // what the highest finger before the hash finds, or else the member itself.
  lemma FindHop(net: Net, x: Key, hash: Key)
    requires Valid(net) && x in net.post
    ensures var post, row: seq<Key>, found := net.post[x], net.fingers[x], Find(net, x, hash);
            if (x < hash && hash <= post) || ((hash > x || hash < post) && x > post) then
              found == Found(post, 0)
            else if forall i | 0 <= i < FINGERS :: !Inside(x, row[i], hash) then
              found == Found(x, 0)
            else
              exists i | 0 <= i < FINGERS ::
                && Inside(x, row[i], hash) && (forall j | i < j < FINGERS :: !Inside(x, row[j], hash))
                && row[i] in net.post && found.owner == Find(net, row[i], hash).owner
                && found.hops == Find(net, row[i], hash).hops + 1
  {
    hide Inside, OwnedByPost;
    OwnedByPostIff(x, net.post[x], hash);
    HighestFingerInside(net.fingers[x], FINGERS, x, hash);
    if FindRoute(x, net.post[x], net.fingers[x], hash).Forward? {
      ForwardIsCloser(net, x, hash);
    }
  }

  // Where a lookup ends, in every network: at a member on the way that answers with its
  // postnode, one of the two tests holding there, or with itself, neither holding and no
  // finger leading on.
  lemma {:induction false} FindEnds(net: Net, x: Key, hash: Key) returns (y: Key)
    requires Valid(net) && x in net.post
    ensures y in net.post && Dist(y, hash) <= Dist(x, hash)
    ensures var post, owner := net.post[y], Find(net, x, hash).owner;
            if (y < hash && hash <= post) || ((hash > y || hash < post) && y > post) then owner == post
            else owner == y && forall i | 0 <= i < FINGERS :: !Inside(y, net.fingers[y][i], hash)
    decreases Dist(x, hash)
  {
    hide FindRoute, Inside;
    FindHop(net, x, hash);
    if FindRoute(x, net.post[x], net.fingers[x], hash).Forward? {
      ForwardIsCloser(net, x, hash);
      y := FindEnds(net, FindRoute(x, net.post[x], net.fingers[x], hash).next, hash);
    } else {
      y := x;
    }
  }

  // ----- a sorted ring

  ghost predicate SortedPosts(post: map<Key, Key>) {
    forall m, y {:trigger Inside(m, y, post[m])} | m in post && y in post ::
      !Inside(m, y, post[m]) && (post[m] == m ==> y == m)
  }

  // The owner of a hash is the first member at or after it.
  ghost predicate IsOwner(members: set<Key>, hash: Key, o: Key) {
    o in members && forall m {:trigger Dist(hash, m)} | m in members :: Dist(hash, o) <= Dist(hash, m)
  }

  ghost predicate IsSmallest(members: set<Key>, k: Key) {
    k in members && forall m | m in members :: k <= m
  }

  ghost predicate IsLargest(members: set<Key>, k: Key) {
    k in members && forall m | m in members :: m <= k
  }

  ghost predicate FirstFingerIsPost(net: Net)
    requires Valid(net)
  {
    forall m {:trigger net.fingers[m]} | m in net.post :: net.fingers[m][0] == net.post[m]
  }

  lemma PostOwns(post: map<Key, Key>, x: Key, hash: Key)
    requires SortedPosts(post) && x in post && post[x] in post
    requires 0 < Dist(x, hash) <= Dist(x, post[x])
    ensures IsOwner(post.Keys, hash, post[x])
  {
    forall m | m in post.Keys ensures Dist(hash, post[x]) <= Dist(hash, m) {
      assert !Inside(x, m, post[x]);
    }
  }

  // Where the keys wrap around zero, self is the largest member and its postnode the smallest.
  lemma WrapEnds(post: map<Key, Key>, x: Key)
    requires SortedPosts(post) && x in post && post[x] in post && post[x] <= x
    ensures IsSmallest(post.Keys, post[x]) && IsLargest(post.Keys, x)
  {
    forall m | m in post.Keys ensures post[x] <= m <= x {
      assert !Inside(x, m, post[x]);
    }
  }

  lemma AloneOnRing(post: map<Key, Key>, x: Key)
    requires SortedPosts(post) && x in post && post[x] == x
    ensures forall m | m in post :: m == x
  {
    forall m | m in post ensures m == x {
      assert !Inside(x, m, post[x]);
    }
  }

  // What the lookup answers, exactly: the owner, but for the smallest member key, which
  // the largest member does not recognise as its successor's.
  ghost predicate AnswerIs(members: set<Key>, x: Key, hash: Key, o: Key) {
    if IsSmallest(members, hash) && x != hash then IsLargest(members, o) else IsOwner(members, hash, o)
  }

  lemma AnsweredByPost(post: map<Key, Key>, x: Key, hash: Key)
    requires SortedPosts(post) && x in post && post[x] in post && OwnedByPost(x, post[x], hash)
    ensures AnswerIs(post.Keys, x, hash, post[x])
  {
    PostOwns(post, x, hash);
    if hash in post {
      assert !Inside(x, hash, post[x]);
    }
  }

  // Neither the postnode's arc nor a step towards the hash: the member is alone, or it is
  // asked for its own key, or it is the largest and is asked for the smallest.
  lemma AnsweredBySelf(post: map<Key, Key>, x: Key, hash: Key)
    requires SortedPosts(post) && x in post && post[x] in post
    requires !OwnedByPost(x, post[x], hash) && !Inside(x, post[x], hash)
    ensures AnswerIs(post.Keys, x, hash, x)
  {
    if hash == x {
      hide SortedPosts, IsSmallest, IsLargest;
    } else if post[x] != x {
      WrapEnds(post, x);
    } else {
      AloneOnRing(post, x);
    }
  }

  lemma AnsweredHere(net: Net, x: Key, hash: Key)
    requires Valid(net) && SortedPosts(net.post) && FirstFingerIsPost(net) && x in net.post
    requires FindRoute(x, net.post[x], net.fingers[x], hash).Answer?
    ensures AnswerIs(net.post.Keys, x, hash, FindRoute(x, net.post[x], net.fingers[x], hash).owner)
  {
    hide SortedPosts, AnswerIs, OwnedByPost, Inside;
    if OwnedByPost(x, net.post[x], hash) {
      AnsweredByPost(net.post, x, hash);
    } else {
      HighestFingerInside(net.fingers[x], FINGERS, x, hash);
      assert !Inside(x, net.fingers[x][0], hash);
      AnsweredBySelf(net.post, x, hash);
    }
  }

  lemma AnswerCarriesOver(members: set<Key>, x: Key, f: Key, hash: Key, o: Key)
    requires Inside(x, f, hash) && AnswerIs(members, f, hash, o)
    ensures AnswerIs(members, x, hash, o)
  {
    hide IsSmallest, IsLargest, IsOwner;
    assert f != hash && x != hash;
  }

  lemma {:induction false} FindAnswers(net: Net, x: Key, hash: Key)
    requires Valid(net) && SortedPosts(net.post) && FirstFingerIsPost(net) && x in net.post
    ensures AnswerIs(net.post.Keys, x, hash, Find(net, x, hash).owner)
    decreases Dist(x, hash)
  {
    hide SortedPosts, FirstFingerIsPost, AnswerIs, FindRoute;
    var route := FindRoute(x, net.post[x], net.fingers[x], hash);
    match route
    case Answer(_) => AnsweredHere(net, x, hash);
    case Forward(f) =>
      ForwardIsCloser(net, x, hash);
      FindAnswers(net, f, hash);
      AnswerCarriesOver(net.post.Keys, x, f, hash, Find(net, f, hash).owner);
  }

  lemma SmallestOwnsItself(members: set<Key>, x: Key, hash: Key, o: Key)
    requires AnswerIs(members, x, hash, o) && x in members
    ensures IsOwner(members, hash, o) <==> !(IsSmallest(members, hash) && x != hash)
  {
    assert Dist(hash, hash) == 0;
  }

  // The answer is the owner unless the hash is the smallest member key and the question
  // was not put to that member itself.
  lemma FindCorrectIff(net: Net, x: Key, hash: Key)
    requires Valid(net) && SortedPosts(net.post) && FirstFingerIsPost(net) && x in net.post
    ensures IsOwner(net.post.Keys, hash, Find(net, x, hash).owner) <==>
            !(IsSmallest(net.post.Keys, hash) && x != hash)
  {
    hide SortedPosts, FirstFingerIsPost, AnswerIs, IsOwner, IsSmallest;
    FindAnswers(net, x, hash);
    SmallestOwnsItself(net.post.Keys, x, hash, Find(net, x, hash).owner);
  }
}

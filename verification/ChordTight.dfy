// The bounds on forwards are reached: rings on which a find is passed on 31 and 32 times.
module ChordTight {
  import opened ChordKeys
  import opened ChordEnds
  import opened ChordFingers
  import opened ChordHops
  import opened ChordLookup

  // The finger that decides, with nothing higher before the hash.
  lemma Decides(net: Net, m: Key, hash: Key, k: nat)
    requires Valid(net) && m in net.post && k < FINGERS && !OwnedByPost(m, net.post[m], hash)
    requires Inside(m, net.fingers[m][k], hash)
    requires forall j | k < j < FINGERS :: !Inside(m, net.fingers[m][j], hash)
    ensures net.fingers[m][k] in net.post
    ensures Find(net, m, hash).hops == Find(net, net.fingers[m][k], hash).hops + 1
  {
    hide Inside, OwnedByPost;
    HighestFingerInside(net.fingers[m], FINGERS, m, hash);
    FindUnfolds(net, m, hash, net.fingers[m][k]);
  }

  // The owner of a start that lies between the hash and m is m or before it.
  lemma StartBehind(members: set<Key>, m: Key, s: Key, o: Key, hash: Key)
    requires IsOwner(members, s, o) && m in members && hash != m
    requires Dist(hash, s) + Dist(s, m) == Dist(hash, m)
    ensures !Inside(m, o, hash)
  {
    assert Dist(s, o) <= Dist(s, m);
  }

  lemma MemberOwnsItself(members: set<Key>, s: Key, o: Key)
    requires s in members && IsOwner(members, s, o)
    ensures o == s
  {
    assert Dist(s, o) <= Dist(s, s);
  }

  // ----- rings given by their keys in order

  ghost predicate Rising(keys: seq<Key>) {
    forall i, j | 0 <= i < j < |keys| :: keys[i] < keys[j]
  }

  ghost function Index(keys: seq<Key>, m: Key): (i: nat)
    requires m in keys
    ensures i < |keys| && keys[i] == m
  {
    var i :| 0 <= i < |keys| && keys[i] == m;
    i
  }

  ghost function After(keys: seq<Key>, i: nat): Key
    requires i < |keys|
  {
    if i + 1 < |keys| then keys[i + 1] else keys[0]
  }

  ghost function RingOf(keys: seq<Key>): (post: map<Key, Key>)
    ensures post.Keys == set m | m in keys
  {
    map m | m in keys :: After(keys, Index(keys, m))
  }

  lemma RingNext(keys: seq<Key>, i: nat)
    requires Rising(keys) && i < |keys|
    ensures keys[i] in RingOf(keys) && RingOf(keys)[keys[i]] == After(keys, i)
  {
    var j := Index(keys, keys[i]);
    assert !(i < j) && !(j < i);
  }

  lemma NothingBetween(keys: seq<Key>, i: nat, j: nat)
    requires Rising(keys) && |keys| >= 2 && i < |keys| && j < |keys|
    ensures !Inside(keys[i], keys[j], After(keys, i)) && After(keys, i) != keys[i]
  {
    if i + 1 < |keys| {
      assert keys[i] < keys[i + 1];
      assert j <= i || keys[i + 1] <= keys[j];
    } else {
      assert keys[0] < keys[i] && keys[0] <= keys[j] <= keys[i];
    }
  }

  lemma RingIsClosed(keys: seq<Key>)
    ensures Closed(RingOf(keys)) && (keys != [] ==> RingOf(keys) != map[])
  {
    hide After;
    var post := RingOf(keys);
    forall m | m in post ensures post[m] in post {
      AfterIsKey(keys, Index(keys, m));
    }
    assert keys != [] ==> keys[0] in post;
  }

  lemma RingIsSorted(keys: seq<Key>)
    requires Rising(keys) && |keys| >= 2
    ensures SortedPosts(RingOf(keys))
  {
    hide Inside, After, Rising;
    var post := RingOf(keys);
    forall m, y | m in post && y in post ensures !Inside(m, y, post[m]) && post[m] != m {
      NothingBetween(keys, Index(keys, m), Index(keys, y));
    }
  }

  lemma AfterIsKey(keys: seq<Key>, i: nat)
    requires i < |keys|
    ensures After(keys, i) in keys
  {
  }

  // ----- 31 forwards with exact fingers

  // 0, 2^31, 2^31 + 2^30, ..., 2^32 - 2
  function Halvings(): (keys: seq<Key>)
    ensures |keys| == 32 && forall i | 0 <= i < 32 :: keys[i] == RING - Pow2(32 - i)
  {
    seq(32, i requires 0 <= i < 32 => Halving(i))
  }

  function Halving(i: nat): (m: Key)
    requires i < 32
    ensures m == RING - Pow2(32 - i)
  {
    Pow2At32();
    Pow2Grows(32 - i, 32);
    RING - Pow2(32 - i)
  }

  lemma HalvingsRise()
    ensures Rising(Halvings())
  {
    hide Pow2;
    forall i, j | 0 <= i < j < 32 ensures Halvings()[i] < Halvings()[j] {
      PowersRise(32 - j, 32 - i);
    }
  }

  lemma PowersRise(a: nat, b: nat)
    requires a < b
    ensures Pow2(a) < Pow2(b)
  {
    Pow2Grows(a, b - 1);
    Pow2Next(b - 1);
  }

  lemma LastHalving(net: Net)
    requires Valid(net) && RING - 2 in net.post && net.post[RING - 2] == 0
    ensures Find(net, RING - 2, RING - 1).hops == 0
  {
  }

  ghost predicate ExactRow(net: Net, m: Key)
    requires Valid(net) && m in net.post
  {
    forall j {:trigger IsOwner(net.post.Keys, Start(m, j), net.fingers[m][j])} | 0 <= j < FINGERS ::
      IsOwner(net.post.Keys, Start(m, j), net.fingers[m][j])
  }

  lemma ExactRows(net: Net, m: Key)
    requires Valid(net) && FingersExact(net) && m in net.post
    ensures ExactRow(net, m)
  {
    hide IsOwner, Start;
  }

  // Where the starts of the fingers of m = top - 2^e fall.
  lemma HalvingStart(top: nat, e: nat, m: Key, j: nat, hash: Key)
    requires 0 < e <= 32 && m == top - Pow2(e) && j < FINGERS && hash <= top <= RING && m < hash
    ensures j == e - 1 ==> Start(m, j) == top - Pow2(e - 1)
    ensures j >= e ==> Dist(hash, Start(m, j)) + Dist(Start(m, j), m) == Dist(hash, m)
  {
    Pow2Next(e - 1);
    Pow2Range(e - 1);
    Pow2Range(j);
    if j >= e {
      Pow2Grows(e, j);
    }
    hide Pow2;
  }

  // Asked for a key just before top, m = top - 2^e asks top - 2^(e - 1).
  lemma HalvingForwards(net: Net, top: nat, e: nat, m: Key, next: Key, hash: Key)
    requires Valid(net) && 0 < e <= 32 && m == top - Pow2(e) && next == top - Pow2(e - 1)
    requires m in net.post && ExactRow(net, m) && net.post[m] == next && next < hash <= top <= RING
    ensures next in net.post && Find(net, m, hash).hops == Find(net, next, hash).hops + 1
  {
    Pow2Next(e - 1);
    hide Find, Start, Pow2, IsOwner, OwnedByPost;
    Pow2Range(e - 1);
    HalvingStart(top, e, m, e - 1, hash);
    assert next in net.post;
    MemberOwnsItself(net.post.Keys, next, net.fingers[m][e - 1]);
    forall j | e - 1 < j < FINGERS ensures !Inside(m, net.fingers[m][j], hash) {
      HalvingStart(top, e, m, j, hash);
      StartBehind(net.post.Keys, m, Start(m, j), net.fingers[m][j], hash);
    }
    BeyondPost(m, next, hash);
    Decides(net, m, hash, e - 1);
  }

  lemma BeyondPost(m: Key, next: Key, hash: Key)
    requires m < next < hash
    ensures !OwnedByPost(m, next, hash) && Inside(m, next, hash)
  {
  }

  // Member i passes the question for 2^32 - 1 on to member i + 1.
  lemma {:induction false} HalvingsHops(net: Net, i: nat)
    requires Valid(net) && FingersExact(net) && net.post == RingOf(Halvings()) && i < 32
    ensures Halvings()[i] in net.post && Find(net, Halvings()[i], RING - 1).hops == 31 - i
    decreases 32 - i
  {
    hide Find, FingersExact, RingOf, Halvings, Valid;
    HalvingsRise();
    RingNext(Halvings(), i);
    Pow2At32();
    if i == 31 {
      assert Pow2(1) == 2;
      assert Halvings()[31] == RING - 2 && After(Halvings(), 31) == 0;
      LastHalving(net);
    } else {
      assert After(Halvings(), i) == Halvings()[i + 1];
      Pow2Grows(1, 31 - i);
      ExactRows(net, Halvings()[i]);
      HalvingForwards(net, RING, 32 - i, Halvings()[i], Halvings()[i + 1], RING - 1);
      HalvingsHops(net, i + 1);
    }
  }

  // The bound of 31 forwards with exact fingers is reached.
  lemma ExactBoundReached() returns (net: Net, x: Key, hash: Key)
    ensures Valid(net) && SortedPosts(net.post) && FingersExact(net) && x in net.post
    ensures Find(net, x, hash).hops == 31
  {
    hide Find, FingersExact, RingOf, Halvings, SortedPosts, Rising, Closed, Valid;
    HalvingsRise();
    RingIsSorted(Halvings());
    RingIsClosed(Halvings());
    net := ExactFingersExist(RingOf(Halvings()));
    x, hash := Halvings()[0], RING - 1;
    HalvingsHops(net, 0);
  }

  // ----- 32 forwards with the fingers that fix_fingers leaves

  ghost function FixedRow(keys: seq<Key>, m: Key): (row: seq<Key>)
    requires keys != []
    ensures |row| == FINGERS
  {
    seq(FINGERS, i requires 0 <= i < FINGERS => FixedEntry(keys, m, i))
  }

  ghost function FixedEntry(keys: seq<Key>, m: Key, i: nat): Key
    requires keys != [] && i < FINGERS
  {
    assert keys[0] in RingOf(keys).Keys;
    if Start(m, i) == keys[0] && m != keys[0] then keys[|keys| - 1] else Owner(RingOf(keys).Keys, Start(m, i))
  }

  ghost function FixedNet(keys: seq<Key>): Net
    requires keys != []
  {
    Net(RingOf(keys), map m | m in RingOf(keys) :: FixedRow(keys, m))
  }

  lemma EndsOfKeys(keys: seq<Key>, k: Key)
    requires Rising(keys) && keys != []
    ensures IsSmallest(RingOf(keys).Keys, k) <==> k == keys[0]
    ensures IsLargest(RingOf(keys).Keys, keys[|keys| - 1])
  {
    var members := RingOf(keys).Keys;
    forall m | m in members ensures keys[0] <= m <= keys[|keys| - 1] {
      var i := Index(keys, m);
      assert 0 < i ==> keys[0] < keys[i];
      assert i < |keys| - 1 ==> keys[i] < keys[|keys| - 1];
    }
    assert keys[0] in members && keys[|keys| - 1] in members;
  }

  lemma FixedNetAnswers(keys: seq<Key>, m: Key, i: nat)
    requires Rising(keys) && keys != [] && m in keys && i < FINGERS
    ensures m in FixedNet(keys).fingers && |FixedNet(keys).fingers[m]| == FINGERS
    ensures AnswerIs(RingOf(keys).Keys, m, Start(m, i), FixedNet(keys).fingers[m][i])
    ensures FixedNet(keys).fingers[m][i] in RingOf(keys)
  {
    hide Rising, Start, IsOwner, IsSmallest, IsLargest;
    EndsOfKeys(keys, Start(m, i));
    assert keys[0] in keys && keys[|keys| - 1] in keys;
    var e := FixedNet(keys).fingers[m][i];
    assert e == FixedEntry(keys, m, i);
    if !(Start(m, i) == keys[0] && m != keys[0]) {
      OwnerIsMember(RingOf(keys).Keys, Start(m, i), e);
    }
  }

  lemma FixedNetIsFixed(keys: seq<Key>)
    requires Rising(keys) && |keys| >= 2 && !BothEnds(RingOf(keys))
    ensures Valid(FixedNet(keys)) && FingersFixed(FixedNet(keys)) && SortedPosts(RingOf(keys))
  {
    hide Rising, Start, IsOwner, AnswerIs, FixedNet, SortedPosts, RingOf, BothEnds, Closed;
    var net := FixedNet(keys);
    RingIsClosed(keys);
    RingIsSorted(keys);
    FixedNetFits(keys);
    forall m, i | m in net.post && 0 <= i < FINGERS
      ensures AnswerIs(net.post.Keys, m, Start(m, i), net.fingers[m][i])
    {
      FixedNetAnswers(keys, m, i);
    }
    forall m | m in net.post ensures net.fingers[m][0] == net.post[m] {
      FixedNetAnswers(keys, m, 0);
      PostIsMember(net.post, m);
      PostAnswers(net.post, m);
      FirstIsOwner(net.post, m, net.fingers[m][0]);
    }
  }

  lemma FirstIsOwner(post: map<Key, Key>, m: Key, e: Key)
    requires SortedPosts(post) && !BothEnds(post) && m in post && post[m] in post
    requires AnswerIs(post.Keys, m, Start(m, 0), e)
    ensures e == post[m]
  {
    hide SortedPosts, IsOwner, IsSmallest, IsLargest, Start;
    PostOwnsNextKey(post, m);
    WrapOfNextKey(post.Keys, m, post[m]);
    OwnerIsUnique(post.Keys, Start(m, 0), e, post[m]);
  }

  lemma FixedNetFits(keys: seq<Key>)
    requires Rising(keys) && |keys| >= 2
    ensures FixedNet(keys).post == RingOf(keys) && FixedNet(keys).fingers.Keys == RingOf(keys).Keys
    ensures FingersFit(RingOf(keys), FixedNet(keys).fingers)
  {
    hide Rising, Start, AnswerIs, FixedEntry;
    forall m | m in RingOf(keys) ensures RowFits(RingOf(keys), FixedNet(keys).fingers[m]) {
      forall i | 0 <= i < FINGERS ensures FixedNet(keys).fingers[m][i] in RingOf(keys) {
        FixedNetAnswers(keys, m, i);
      }
    }
  }

  // 0, 1, 4, 4 + 2^31, 4 + 2^31 + 2^30, ..., 2^32 - 4, 2^32 - 2
  function Detour(): (keys: seq<Key>)
    ensures |keys| == 33 && keys[0] == 0 && keys[1] == 1 && keys[32] == RING - 2
    ensures forall i | 2 <= i < 32 :: keys[i] == RING + 4 - Pow2(34 - i)
  {
    seq(33, i requires 0 <= i < 33 => DetourKey(i))
  }

  function DetourKey(i: nat): (m: Key)
    requires i < 33
    ensures m == if i < 2 then i else if i < 32 then RING + 4 - Pow2(34 - i) else RING - 2
  {
    if i < 2 then i
    else if i == 32 then RING - 2
    else
      Pow2At32();
      Pow2Grows(34 - i, 32);
      assert Pow2(3) == 8;
      Pow2Grows(3, 34 - i);
      RING + 4 - Pow2(34 - i)
  }

  lemma DetourRises()
    ensures Rising(Detour()) && !BothEnds(RingOf(Detour()))
  {
    Pow2At32();
    assert Pow2(3) == 8;
    forall i, j | 0 <= i < j < 33 ensures Detour()[i] < Detour()[j] {
      DetourStep(i, j);
    }
    assert Rising(Detour());
    forall i | 0 <= i < 33 ensures Detour()[i] != RING - 1 {
      if i < 32 { DetourStep(i, 32); }
    }
  }

  lemma DetourStep(i: nat, j: nat)
    requires i < j < 33
    ensures Detour()[i] < Detour()[j]
  {
    Pow2At32();
    assert Pow2(3) == 8;
    hide Pow2, Detour;
    if 2 <= i && j < 32 {
      PowersRise(34 - j, 34 - i);
    } else if 2 <= i {
      Pow2Grows(3, 34 - i);
    } else if 2 <= j < 32 {
      Pow2Grows(34 - j, 32);
    }
  }

  // Fingers whose starts lie between the hash and their member lead nowhere before the hash.
  lemma FingerBehind(net: Net, m: Key, j: nat, hash: Key)
    requires Valid(net) && m in net.post && j < FINGERS && hash != m
    requires AnswerIs(net.post.Keys, m, Start(m, j), net.fingers[m][j])
    requires !IsSmallest(net.post.Keys, Start(m, j))
    requires Dist(hash, Start(m, j)) + Dist(Start(m, j), m) == Dist(hash, m)
    ensures !Inside(m, net.fingers[m][j], hash)
  {
    hide Start, IsOwner, IsSmallest, IsLargest, Inside;
    StartBehind(net.post.Keys, m, Start(m, j), net.fingers[m][j], hash);
  }

  // Where the starts of m = 2^32 + 4 - 2^e fall.
  lemma DetourStart(e: nat, m: Key, j: nat)
    requires 2 < e <= 32 && m == RING + 4 - Pow2(e) && j < FINGERS
    ensures j == e - 1 ==> Start(m, j) == if e == 3 then 0 else RING + 4 - Pow2(e - 1)
    ensures j >= e ==> Start(m, j) != 0 && Dist(2, Start(m, j)) + Dist(Start(m, j), m) == Dist(2, m)
  {
    Pow2At32();
    Pow2Range(j);
    assert Pow2(3) == 8;
    Pow2Grows(3, e);
    Pow2Next(e - 1);
    if j >= e {
      Pow2Grows(e, j);
      hide Pow2;
      assert Start(m, j) == Pow2(j) + 4 - Pow2(e);
    } else if j == e - 1 {
      if e > 3 { Pow2Grows(3, e - 1); }
      hide Pow2;
    }
  }

  lemma DetourForwards(net: Net, m: Key, e: nat, next: Key)
    requires Valid(net) && FingersFixed(net) && 3 < e <= 32
    requires m == RING + 4 - Pow2(e) && next == RING + 4 - Pow2(e - 1)
    requires m in net.post && net.post[m] == next && IsSmallest(net.post.Keys, 0)
    ensures next in net.post && Find(net, m, 2).hops == Find(net, next, 2).hops + 1
  {
    DetourNumbers(e);
    hide Find, Start, Pow2, IsOwner, OwnedByPost, FirstFingerIsPost;
    DetourStart(e, m, e - 1);
    assert next in net.post;
    assert AnswerIs(net.post.Keys, m, Start(m, e - 1), net.fingers[m][e - 1]);
    MemberOwnsItself(net.post.Keys, next, net.fingers[m][e - 1]);
    forall j | e - 1 < j < FINGERS ensures !Inside(m, net.fingers[m][j], 2) {
      DetourStart(e, m, j);
      assert AnswerIs(net.post.Keys, m, Start(m, j), net.fingers[m][j]);
      FingerBehind(net, m, j, 2);
    }
    FarFromPost(m, next);
    Decides(net, m, 2, e - 1);
  }

  lemma DetourNumbers(e: nat)
    requires 3 < e <= 32
    ensures 8 <= Pow2(e - 1) && Pow2(e) == 2 * Pow2(e - 1) && Pow2(e) <= RING
  {
    Pow2At32();
    assert Pow2(3) == 8;
    Pow2Grows(3, e - 1);
    Pow2Grows(e, 32);
    Pow2Next(e - 1);
  }

  lemma FarFromPost(m: Key, next: Key)
    requires 2 < m < next
    ensures !OwnedByPost(m, next, 2) && Inside(m, next, 2)
  {
  }

  // 2^32 - 4: its finger for the start 0 leads to the largest member, still before zero.
  lemma DetourToLargest(net: Net)
    requires Valid(net) && FingersFixed(net) && RING - 4 in net.post && net.post[RING - 4] == RING - 2
    requires IsSmallest(net.post.Keys, 0) && IsLargest(net.post.Keys, RING - 2)
    ensures RING - 2 in net.post && Find(net, RING - 4, 2).hops == Find(net, RING - 2, 2).hops + 1
  {
    var m: Key := RING - 4;
    assert Pow2(3) == 8;
    hide Find, Start, Pow2, IsOwner, OwnedByPost, FirstFingerIsPost;
    DetourStart(3, m, 2);
    assert AnswerIs(net.post.Keys, m, Start(m, 2), net.fingers[m][2]);
    forall j | 2 < j < FINGERS ensures !Inside(m, net.fingers[m][j], 2) {
      DetourStart(3, m, j);
      assert AnswerIs(net.post.Keys, m, Start(m, j), net.fingers[m][j]);
      FingerBehind(net, m, j, 2);
    }
    FarFromPost(m, RING - 2);
    Decides(net, m, 2, 2);
  }

  lemma LargestStart(j: nat)
    requires 0 < j < FINGERS
    ensures var s := Start(RING - 2, j);
            if j == 1 then s == 0 else s != 0 && Dist(2, s) + Dist(s, RING - 2) == Dist(2, RING - 2)
  {
    Pow2Range(j);
    assert Pow2(1) == 2 && Pow2(2) == 4;
    if j > 1 {
      Pow2Grows(2, j);
      hide Pow2;
      assert Start(RING - 2, j) == Pow2(j) - 2;
    }
  }

  lemma LargestForwards(net: Net)
    requires Valid(net) && FingersFixed(net) && RING - 2 in net.post && net.post[RING - 2] == 0
    requires IsSmallest(net.post.Keys, 0) && IsLargest(net.post.Keys, RING - 2)
    ensures 0 in net.post && Find(net, RING - 2, 2).hops == Find(net, 0, 2).hops + 1
  {
    var m: Key := RING - 2;
    hide Find, Start, Pow2, IsOwner;
    assert net.fingers[m][0] == 0;
    forall j | 0 < j < FINGERS ensures !Inside(m, net.fingers[m][j], 2) {
      LargestStart(j);
      if j == 1 {
        assert AnswerIs(net.post.Keys, m, Start(m, 1), net.fingers[m][1]);
      } else {
        assert AnswerIs(net.post.Keys, m, Start(m, j), net.fingers[m][j]);
        FingerBehind(net, m, j, 2);
      }
    }
    Decides(net, m, 2, 0);
  }

  lemma ZeroStart(j: nat)
    requires 0 < j < FINGERS
    ensures Start(0, j) != 0 && Dist(2, Start(0, j)) + Dist(Start(0, j), 0) == Dist(2, 0)
  {
    Pow2Range(j);
    assert Pow2(1) == 2;
    Pow2Grows(1, j);
    hide Pow2;
  }

  lemma ZeroForwards(net: Net)
    requires Valid(net) && FingersFixed(net) && 0 in net.post && net.post[0] == 1 && 1 in net.post
    requires net.post[1] == 4 && IsSmallest(net.post.Keys, 0)
    ensures Find(net, 0, 2).hops == 1
  {
    hide Start, Pow2, IsOwner;
    assert net.fingers[0][0] == 1;
    forall j | 0 < j < FINGERS ensures !Inside(0, net.fingers[0][j], 2) {
      ZeroStart(j);
      assert AnswerIs(net.post.Keys, 0, Start(0, j), net.fingers[0][j]);
      FingerBehind(net, 0, j, 2);
    }
    Decides(net, 0, 2, 0);
  }

  lemma {:induction false} DetourHops(net: Net, i: nat)
    requires Valid(net) && FingersFixed(net) && net.post == RingOf(Detour()) && 2 <= i < 32
    ensures Detour()[i] in net.post && Find(net, Detour()[i], 2).hops == 34 - i
    decreases 32 - i
  {
    hide Find, FingersFixed, RingOf, Detour, Valid, IsSmallest, IsLargest, BothEnds;
    var keys := Detour();
    DetourRises();
    EndsOfKeys(keys, 0);
    RingNext(keys, i);
    if i == 31 {
      assert Pow2(3) == 8;
      assert keys[31] == RING - 4;
      RingNext(keys, 32);
      RingNext(keys, 0);
      RingNext(keys, 1);
      assert keys[2] == 4 by { Pow2At32(); }
      DetourToLargest(net);
      LargestForwards(net);
      ZeroForwards(net);
    } else {
      assert After(keys, i) == keys[i + 1];
      DetourForwards(net, keys[i], 34 - i, keys[i + 1]);
      DetourHops(net, i + 1);
    }
  }

  // The bound of 32 forwards with the fingers that fix_fingers leaves is reached.
  lemma FixedBoundReached() returns (net: Net, x: Key, hash: Key)
    ensures Valid(net) && SortedPosts(net.post) && FingersFixed(net) && x in net.post
    ensures Find(net, x, hash).hops == 32
  {
    hide Find, FingersFixed, RingOf, Detour, SortedPosts, Rising, Valid, BothEnds, FixedNet;
    DetourRises();
    FixedNetIsFixed(Detour());
    FixedNetFits(Detour());
    net, x, hash := FixedNet(Detour()), Detour()[2], 2;
    DetourHops(net, 2);
  }

  // ----- 32 forwards on a ring with both end keys

  const HALF: int := 0x8000_0000

  lemma Pow2At31()
    ensures Pow2(31) == HALF && Pow2(30) == HALF / 2
  {
    Pow2At32();
    Pow2Next(31);
    Pow2Next(30);
  }

  // 0, then 2^31 - 1 - 2^30, 2^31 - 1 - 2^29, ..., 2^31 - 2, then 2^31 and 2^32 - 1
  function Across(): (keys: seq<Key>)
    ensures |keys| == 34 && keys[0] == 0 && keys[32] == HALF && keys[33] == RING - 1
    ensures forall i | 1 <= i < 32 :: keys[i] == HALF - 1 - Pow2(31 - i)
  {
    seq(34, i requires 0 <= i < 34 => AcrossKey(i))
  }

  function AcrossKey(i: nat): (m: Key)
    requires i < 34
    ensures m == if i == 0 then 0 else if i < 32 then HALF - 1 - Pow2(31 - i) else if i == 32 then HALF else RING - 1
  {
    if i == 0 then 0
    else if i < 32 then
      Pow2At31();
      Pow2Grows(31 - i, 30);
      HALF - 1 - Pow2(31 - i)
    else if i == 32 then HALF
    else RING - 1
  }

  lemma AcrossRises()
    ensures Rising(Across())
  {
    forall i, j | 0 <= i < j < 34 ensures Across()[i] < Across()[j] {
      AcrossStep(i, j);
    }
  }

  lemma AcrossStep(i: nat, j: nat)
    requires i < j < 34
    ensures Across()[i] < Across()[j]
  {
    Pow2At31();
    hide Pow2, Across;
    if 1 <= i < 32 {
      Pow2Range(31 - i);
      if j < 32 { PowersRise(31 - j, 31 - i); }
    } else if 1 <= j < 32 {
      Pow2Grows(31 - j, 30);
    }
  }

  ghost predicate RowAnswers(net: Net, m: Key)
    requires Valid(net) && m in net.post
  {
    forall j {:trigger AnswerIs(net.post.Keys, m, Start(m, j), net.fingers[m][j])} | 0 <= j < FINGERS ::
      AnswerIs(net.post.Keys, m, Start(m, j), net.fingers[m][j])
  }

  lemma RowsAnswer(keys: seq<Key>, m: Key)
    requires Rising(keys) && keys != [] && Valid(FixedNet(keys)) && m in FixedNet(keys).post
    ensures RowAnswers(FixedNet(keys), m)
  {
    hide Rising, Start, AnswerIs, Valid;
    forall j | 0 <= j < FINGERS
      ensures AnswerIs(RingOf(keys).Keys, m, Start(m, j), FixedNet(keys).fingers[m][j])
    {
      FixedNetAnswers(keys, m, j);
    }
  }

  lemma LowerStart(m: Key, j: nat)
    requires m < HALF && j < FINGERS
    ensures Start(m, j) > 0
  {
    Pow2At31();
    Pow2Range(j);
    Pow2Grows(j, 31);
    hide Pow2;
  }

  // Fingers of the lower half do not reach across zero: they are exact.
  lemma LowerRowIsExact(net: Net, m: Key)
    requires Valid(net) && m in net.post && m < HALF && IsSmallest(net.post.Keys, 0) && RowAnswers(net, m)
    ensures ExactRow(net, m)
  {
    hide IsOwner, IsLargest, Start;
    forall j | 0 <= j < FINGERS ensures IsOwner(net.post.Keys, Start(m, j), net.fingers[m][j]) {
      LowerStart(m, j);
      assert AnswerIs(net.post.Keys, m, Start(m, j), net.fingers[m][j]);
    }
  }

  ghost predicate IsAcross(net: Net) {
    && Valid(net) && net.post == RingOf(Across())
    && forall m | m in net.post :: RowAnswers(net, m)
  }

  lemma LastAcross(net: Net)
    requires Valid(net) && HALF - 2 in net.post && net.post[HALF - 2] == HALF
    ensures Find(net, HALF - 2, HALF - 1).hops == 0
  {
  }

  // Member i of the lower half passes the question for 2^31 - 1 on to member i + 1.
  lemma {:induction false} AcrossHops(net: Net, i: nat)
    requires IsAcross(net) && 1 <= i < 32
    ensures Across()[i] in net.post && Find(net, Across()[i], HALF - 1).hops == 31 - i
    decreases 32 - i
  {
    hide Find, RingOf, Across, Valid, RowAnswers, IsSmallest;
    var keys := Across();
    AcrossRises();
    EndsOfKeys(keys, 0);
    RingNext(keys, i);
    if i == 31 {
      assert Pow2(0) == 1;
      assert keys[31] == HALF - 2 && After(keys, 31) == HALF;
      LastAcross(net);
    } else {
      Pow2Range(31 - i);
      Pow2Range(30 - i);
      assert After(keys, i) == keys[i + 1];
      LowerRowIsExact(net, keys[i]);
      HalvingForwards(net, HALF - 1, 31 - i, keys[i], keys[i + 1], HALF - 1);
      AcrossHops(net, i + 1);
    }
  }

  // 2^32 - 1: its finger 30 is the first member after zero.
  lemma LastForwards(net: Net, next: Key)
    requires Valid(net) && RING - 1 in net.post && net.post[RING - 1] == 0 && next == HALF / 2 - 1
    requires RowAnswers(net, RING - 1) && IsSmallest(net.post.Keys, 0) && next in net.post
    ensures Find(net, RING - 1, HALF - 1).hops == Find(net, next, HALF - 1).hops + 1
  {
    var m: Key := RING - 1;
    Pow2At31();
    hide Find, Pow2, IsOwner, IsLargest, Start;
    LastStart(30);
    LastStart(31);
    assert AnswerIs(net.post.Keys, m, Start(m, 30), net.fingers[m][30]);
    assert AnswerIs(net.post.Keys, m, Start(m, 31), net.fingers[m][31]);
    MemberOwnsItself(net.post.Keys, next, net.fingers[m][30]);
    StartBehind(net.post.Keys, m, Start(m, 31), net.fingers[m][31], HALF - 1);
    Decides(net, m, HALF - 1, 30);
  }

  lemma LastStart(j: nat)
    requires j < FINGERS
    ensures Start(RING - 1, j) == Pow2(j) - 1
  {
    Pow2Range(j);
    hide Pow2;
  }

  // 2^31: its finger for the start 0 is the largest member.
  lemma HalfForwards(net: Net)
    requires Valid(net) && HALF in net.post && RING - 1 in net.post && net.post[HALF] == RING - 1
    requires RowAnswers(net, HALF) && IsSmallest(net.post.Keys, 0) && IsLargest(net.post.Keys, RING - 1)
    ensures Find(net, HALF, HALF - 1).hops == Find(net, RING - 1, HALF - 1).hops + 1
  {
    Pow2At31();
    assert Start(HALF, 31) == 0;
    hide Find, Pow2, IsOwner, Start;
    assert AnswerIs(net.post.Keys, HALF, Start(HALF, 31), net.fingers[HALF][31]);
    Decides(net, HALF, HALF - 1, 31);
  }

  lemma AnswersAreEnds(net: Net, m: Key, j: nat)
    requires Valid(net) && BothEnds(net.post) && m in net.post && j < FINGERS && IsSmallest(net.post.Keys, 0)
    requires AnswerIs(net.post.Keys, m, Start(m, j), net.fingers[m][j])
    ensures EndsEntry(net, m, j)
  {
    hide Start, IsOwner;
    if Start(m, j) == 0 && m != 0 {
      assert IsLargest(net.post.Keys, net.fingers[m][j]);
    }
  }

  lemma AcrossIsFixed(net: Net)
    requires IsAcross(net)
    ensures BothEnds(net.post) && SortedPosts(net.post) && EndsFixed(net)
  {
    hide Rising, Across, RingOf, SortedPosts, Valid, Start, AnswerIs, EndsEntry, IsSmallest;
    var keys := Across();
    AcrossRises();
    RingIsSorted(keys);
    EndsOfKeys(keys, 0);
    assert keys[0] in net.post && keys[33] in net.post;
    forall m, j | m in net.post && 0 <= j < FINGERS ensures EndsEntry(net, m, j) {
      assert RowAnswers(net, m);
      AnswersAreEnds(net, m, j);
    }
  }

  // The bound of 32 forwards on a ring with both end keys is reached.
  lemma EndsBoundReached() returns (net: Net, x: Key, hash: Key)
    ensures Valid(net) && SortedPosts(net.post) && BothEnds(net.post) && EndsFixed(net) && x in net.post
    ensures Find(net, x, hash).hops == 32
  {
    hide Find, EndsFixed, RingOf, Across, SortedPosts, Rising, BothEnds, FixedNet, RowAnswers, Closed, IsSmallest;
    var keys := Across();
    AcrossRises();
    FixedNetFits(keys);
    RingIsClosed(keys);
    net, x, hash := FixedNet(keys), HALF, HALF - 1;
    forall m | m in net.post ensures RowAnswers(net, m) {
      RowsAnswer(keys, m);
    }
    AcrossIsFixed(net);
    EndsOfKeys(keys, 0);
    RingNext(keys, 32);
    RingNext(keys, 33);
    Pow2At31();
    AcrossHops(net, 1);
    LastForwards(net, keys[1]);
    HalfForwards(net);
  }
}

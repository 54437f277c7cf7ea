// fix_fingers over whole runs: what it leaves, and what lookups then answer.
module ChordFingers {
  import opened ChordKeys
  import opened ChordHops
  import opened ChordLookup

  // One call of fix_fingers: the lookup of the finger's start replaces one entry.
  datatype Fix = Fix(member: Key, finger: nat)

  ghost predicate CanFix(post: map<Key, Key>, f: Fix) {
    f.member in post && f.finger < FINGERS
  }

  ghost predicate CanFixAll(post: map<Key, Key>, fixes: seq<Fix>) {
    forall i | 0 <= i < |fixes| :: CanFix(post, fixes[i])
  }

  lemma {:induction false} FindIsMember(net: Net, x: Key, hash: Key)
    requires Valid(net) && x in net.post
    ensures Find(net, x, hash).owner in net.post
    decreases Dist(x, hash)
  {
    hide FindRoute;
    var route := FindRoute(x, net.post[x], net.fingers[x], hash);
    match route
    case Answer(owner) => AnswerIsKnown(net.post, x, net.fingers[x], hash);
    case Forward(f) =>
      ForwardIsCloser(net, x, hash);
      FindIsMember(net, f, hash);
  }

  lemma AnswerIsKnown(post: map<Key, Key>, x: Key, fingers: seq<Key>, hash: Key)
    requires x in post && post[x] in post && FindRoute(x, post[x], fingers, hash).Answer?
    ensures FindRoute(x, post[x], fingers, hash).owner in post
  {
    hide OwnedByPost, HighestFinger;
  }

  ghost function Entry(net: Net, f: Fix): (e: Key)
    requires Valid(net) && CanFix(net.post, f)
  {
    Find(net, f.member, Start(f.member, f.finger)).owner
  }

  lemma ReplacedRow(post: map<Key, Key>, row: seq<Key>, i: nat, e: Key)
    requires RowFits(post, row) && i < FINGERS && e in post
    ensures RowFits(post, row[i := e])
  {
  }

  ghost function Replaced(net: Net, f: Fix, e: Key): (r: Net)
    requires Valid(net) && CanFix(net.post, f) && e in net.post
    ensures Valid(r) && r.post == net.post
  {
    var row: seq<Key> := net.fingers[f.member];
    ReplacedRow(net.post, row, f.finger, e);
    net.(fingers := net.fingers[f.member := row[f.finger := e]])
  }

  ghost function Fixed(net: Net, f: Fix): (fixed: Net)
    requires Valid(net) && CanFix(net.post, f)
    ensures Valid(fixed) && fixed.post == net.post
  {
    FindIsMember(net, f.member, Start(f.member, f.finger));
    Replaced(net, f, Entry(net, f))
  }

  ghost function AfterFixes(net: Net, fixes: seq<Fix>): (fixed: Net)
    requires Valid(net) && CanFixAll(net.post, fixes)
    ensures Valid(fixed) && fixed.post == net.post
    decreases |fixes|
  {
    if fixes == [] then net
    else
      var n := |fixes| - 1;
      Fixed(AfterFixes(net, fixes[..n]), fixes[n])
  }

  // What one call does to the entries.
  lemma FixedEntries(net: Net, f: Fix, m: Key, i: nat)
    requires Valid(net) && CanFix(net.post, f) && m in net.post && i < FINGERS
    ensures Fixed(net, f).fingers[m][i] == if f == Fix(m, i) then Entry(net, f) else net.fingers[m][i]
  {
    hide Entry;
  }

  // ----- first fingers

  // After one call for the first finger it is the postnode, for good.
  lemma {:induction false} FirstStays(net: Net, fixes: seq<Fix>, m: Key)
    requires Valid(net) && CanFixAll(net.post, fixes) && m in net.post && Fix(m, 0) in fixes
    requires !(m == RING - 1 && net.post[m] == 0)
    ensures AfterFixes(net, fixes).fingers[m][0] == net.post[m]
    decreases |fixes|
  {
    hide Find, Start, Fixed, Valid;
    var n := |fixes| - 1;
    assert fixes == fixes[..n] + [fixes[n]];
    var before := AfterFixes(net, fixes[..n]);
    FixedEntries(before, fixes[n], m, 0);
    if fixes[n] == Fix(m, 0) {
      FirstFingerKeptIff(before, m);
    } else {
      FirstStays(net, fixes[..n], m);
    }
  }

  // Every member has fixed its first finger.
  ghost predicate FirstsFixed(post: map<Key, Key>, fixes: seq<Fix>) {
    forall m {:trigger Fix(m, 0) in fixes} | m in post :: Fix(m, 0) in fixes
  }

  ghost predicate BothEnds(post: map<Key, Key>) {
    RING - 1 in post && 0 in post
  }

  lemma FirstsArePosts(net: Net, fixes: seq<Fix>)
    requires Valid(net) && CanFixAll(net.post, fixes) && FirstsFixed(net.post, fixes) && !BothEnds(net.post)
    ensures FirstFingerIsPost(AfterFixes(net, fixes))
  {
    hide AfterFixes;
    forall m | m in net.post ensures AfterFixes(net, fixes).fingers[m][0] == net.post[m] {
      assert Fix(m, 0) in fixes;
      assert net.post[m] in net.post;
      FirstStays(net, fixes, m);
    }
  }

  // ----- the other fingers

  // A finger fixed after all first fingers is what a lookup of its start answers, for good.
  lemma {:induction false} EntryAnswers(net: Net, fixes: seq<Fix>, k: nat, j: nat)
    requires Valid(net) && SortedPosts(net.post) && !BothEnds(net.post)
    requires CanFixAll(net.post, fixes) && k <= j < |fixes| && FirstsFixed(net.post, fixes[..k])
    ensures var f := fixes[j];
            AnswerIs(net.post.Keys, f.member, Start(f.member, f.finger),
                     AfterFixes(net, fixes).fingers[f.member][f.finger])
    decreases |fixes|
  {
    hide Find, Start, Fixed, AnswerIs, SortedPosts, BothEnds, Valid, FirstsFixed;
    var n, f := |fixes| - 1, fixes[j];
    assert CanFix(net.post, f);
    var before := AfterFixes(net, fixes[..n]);
    FixedEntries(before, fixes[n], f.member, f.finger);
    FirstsFixedLater(net.post, fixes, k, n);
    if fixes[n] == f {
      FirstsArePosts(net, fixes[..n]);
      FixFingersAnswer(before, f.member, f.finger);
    } else {
      assert fixes[..n][..k] == fixes[..k];
      EntryAnswers(net, fixes[..n], k, j);
    }
  }

  lemma FirstsFixedLater(post: map<Key, Key>, fixes: seq<Fix>, k: nat, n: nat)
    requires k <= n <= |fixes| && FirstsFixed(post, fixes[..k])
    ensures FirstsFixed(post, fixes[..n])
  {
    assert fixes[..n] == fixes[..k] + fixes[k..n];
  }

  // The first finger, equal to the postnode, is such an answer too.
  lemma PostAnswers(post: map<Key, Key>, m: Key)
    requires SortedPosts(post) && !BothEnds(post) && m in post && post[m] in post
    ensures AnswerIs(post.Keys, m, Start(m, 0), post[m])
  {
    hide SortedPosts, IsOwner, IsSmallest, Start;
    PostOwnsNextKey(post, m);
    WrapOfNextKey(post.Keys, m, post[m]);
  }

  ghost predicate OthersFixed(post: map<Key, Key>, fixes: seq<Fix>) {
    forall m, i {:trigger Fix(m, i) in fixes} | m in post && 0 < i < FINGERS :: Fix(m, i) in fixes
  }

  lemma FixAfter(post: map<Key, Key>, fixes: seq<Fix>, k: nat, m: Key, i: nat) returns (j: nat)
    requires k <= |fixes| && OthersFixed(post, fixes[k..]) && m in post && 0 < i < FINGERS
    ensures k <= j < |fixes| && fixes[j] == Fix(m, i)
  {
    assert Fix(m, i) in fixes[k..];
    var h :| 0 <= h < |fixes[k..]| && fixes[k..][h] == Fix(m, i);
    j := k + h;
  }

  lemma FingerAnswers(net: Net, fixes: seq<Fix>, k: nat, m: Key, i: nat)
    requires Valid(net) && SortedPosts(net.post) && !BothEnds(net.post)
    requires CanFixAll(net.post, fixes) && k <= |fixes|
    requires FirstsFixed(net.post, fixes[..k]) && OthersFixed(net.post, fixes[k..])
    requires m in net.post && i < FINGERS
    ensures AnswerIs(net.post.Keys, m, Start(m, i), AfterFixes(net, fixes).fingers[m][i])
  {
    hide Start, AfterFixes, AnswerIs, SortedPosts, BothEnds, FirstsFixed, CanFixAll;
    if i == 0 {
      FirstsFixedLater(net.post, fixes, k, |fixes|);
      assert fixes[..|fixes|] == fixes;
      FirstsArePosts(net, fixes);
      assert net.post[m] in net.post;
      PostAnswers(net.post, m);
    } else {
      var j := FixAfter(net.post, fixes, k, m, i);
      EntryAnswers(net, fixes, k, j);
    }
  }

  // On a sorted ring, from whatever fingers: once every member has fixed its first finger
  // and, after that, every other one, in any order, all fingers are as fix_fingers leaves them.
  lemma FixesReachFixed(net: Net, fixes: seq<Fix>, k: nat)
    requires Valid(net) && SortedPosts(net.post) && !BothEnds(net.post)
    requires CanFixAll(net.post, fixes) && k <= |fixes|
    requires FirstsFixed(net.post, fixes[..k]) && OthersFixed(net.post, fixes[k..])
    ensures FingersFixed(AfterFixes(net, fixes))
  {
    hide Start, AfterFixes, AnswerIs, SortedPosts, BothEnds, FirstsFixed, OthersFixed, CanFixAll;
    FirstsFixedLater(net.post, fixes, k, |fixes|);
    assert fixes[..|fixes|] == fixes;
    FirstsArePosts(net, fixes);
    forall m, i | m in net.post && 0 <= i < FINGERS
      ensures AnswerIs(net.post.Keys, m, Start(m, i), AfterFixes(net, fixes).fingers[m][i])
    {
      FingerAnswers(net, fixes, k, m, i);
    }
  }
}

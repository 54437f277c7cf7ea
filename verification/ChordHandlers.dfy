// The handlers of one member do what the steps of the protocol say.
module ChordHandlers {
  import opened ChordKeys
  import opened ChordFingers
  import opened ChordHops
  import opened ChordLookup
  import opened ChordNode
  import opened ChordProtocol
  import opened ChordInvariant

  // The fields of x are what the state of the ring says of its member.
  ghost predicate Shows(x: Member, s: Ring)
    reads x
  {
    && x.Valid() && x.key in s.post && x.key in s.pre
    && x.postnode == s.post[x.key] && x.prenode == s.pre[x.key]
  }

  method AdoptReply(x: Member, reply: Option<Key>, ghost s: Ring)
    requires Inv(s) && Shows(x, s) && Enabled(s, Adopt(x.key)) && s.phase[x.key] == Replied(reply)
    modifies x`postnode
    ensures Shows(x, Apply(s, Adopt(x.key)))
  {
    hide SelfLoopsAlone, PresFit, NotesFit, PhasesFit, OneCycle, Adopted;
    x.OnStableReply(reply);
  }

  method AnswerStable(x: Member, ghost asker: Key, ghost s: Ring) returns (reply: Option<Key>)
    requires Inv(s) && Shows(x, s) && Enabled(s, Reply(asker)) && s.phase[asker].successor == x.key
    ensures asker in Apply(s, Reply(asker)).phase && Apply(s, Reply(asker)).phase[asker] == Replied(reply)
    ensures Shows(x, Apply(s, Reply(asker)))
  {
    hide SelfLoopsAlone, PresFit, NotesFit, PhasesFit, OneCycle;
    reply := x.OnStable();
  }

  method TakeNotify(x: Member, from: Key, ghost s: Ring)
    requires Inv(s) && Shows(x, s) && Enabled(s, DeliverNotify(Note(from, x.key)))
    modifies x`prenode
    ensures Shows(x, Apply(s, DeliverNotify(Note(from, x.key))))
  {
    hide SelfLoopsAlone, PresFit, NotesFit, PhasesFit, OneCycle, Notified;
    x.OnNotify(from);
  }

  lemma JoinedLinks(s: Ring, n: Key, c: Key, found: Key)
    requires WellTyped(s) && Enabled(s, Join(n, c, found))
    ensures var t := Apply(s, Join(n, c, found));
            && n in t.post && n in t.pre && c in t.post && c in t.pre && t.pre[n] == None
            && (if s.post[c] == c then t.post[c] == n && t.post[n] == c && t.pre[c] == Some(n)
                else t.post[c] == s.post[c] && t.post[n] == found && t.pre[c] == s.pre[c])
  {
    hide Closed;
  }

  // A member's own answer names a member.
  lemma AnswerIsMember(s: Ring, c: Key, fingers: seq<Key>, hash: Key)
    requires WellTyped(s) && c in s.post
    ensures var route := FindRoute(c, s.post[c], fingers, hash); route.Answer? ==> route.owner in s.post
  {
    hide HighestFinger, OwnedByPost;
  }

  // The contact's handler and the newcomer's join: a question passed on is answered by
  // whatever member the lookup found.
  method JoinThrough(x: Member, newcomer: Key, found: Key, ghost s: Ring) returns (y: Member)
    requires Inv(s) && Shows(x, s) && Enabled(s, Join(newcomer, x.key, found))
    modifies x`postnode, x`prenode
    ensures fresh(y) && y.key == newcomer && Enabled(s, Join(newcomer, x.key, y.postnode))
    ensures Shows(x, Apply(s, Join(newcomer, x.key, y.postnode)))
    ensures Shows(y, Apply(s, Join(newcomer, x.key, y.postnode)))
  {
    hide SelfLoopsAlone, PresFit, NotesFit, PhasesFit, OneCycle, FindRoute, Apply, Closed;
    AnswerIsMember(s, x.key, x.fingers[..], newcomer);
    if x.postnode == x.key {
      AloneMeansFirst(s, x.key);
    }
    var reply := x.OnJoin(newcomer);
    var answer := match reply { case Answer(owner) => owner case Forward(_) => found };
    JoinedLinks(s, newcomer, x.key, answer);
    y := new Member.Joined(newcomer, answer);
  }

  // The links and fingers of x are those of the network.
  ghost predicate ShowsNet(x: Member, net: Net)
    requires Valid(net)
    reads x, x.fingers
  {
    x.Valid() && x.key in net.post && x.postnode == net.post[x.key] && x.fingers[..] == net.fingers[x.key]
  }

  // fix_fingers: a question passed on is answered by the chain of lookups behind it.
  method FixFingers(x: Member, i: nat, answer: Key, ghost net: Net)
    requires Valid(net) && ShowsNet(x, net) && i < FINGERS
    requires var route := FindRoute(x.key, net.post[x.key], net.fingers[x.key], Start(x.key, i));
             route.Forward? && route.next in net.post ==> answer == Find(net, route.next, Start(x.key, i)).owner
    modifies x.fingers
    ensures ShowsNet(x, Fixed(net, Fix(x.key, i)))
  {
    hide Valid, Find, Start, FindRoute;
    var start := Start(x.key, i);
    var route := x.FindClosest(start);
    var found := match route { case Answer(owner) => owner case Forward(_) => answer };
    x.FixFinger(i, found);
    FoundIsEntry(net, x.key, i, found);
    ReplacedEntry(net, x.key, i);
  }

  lemma FoundIsEntry(net: Net, m: Key, i: nat, found: Key)
    requires Valid(net) && m in net.post && i < FINGERS
    requires var route := FindRoute(m, net.post[m], net.fingers[m], Start(m, i));
             if route.Answer? then found == route.owner
             else route.next in net.post ==> found == Find(net, route.next, Start(m, i)).owner
    ensures found == Entry(net, Fix(m, i))
  {
    hide Start, FindRoute;
    if FindRoute(m, net.post[m], net.fingers[m], Start(m, i)).Forward? {
      ForwardIsCloser(net, m, Start(m, i));
    }
  }

  lemma ReplacedEntry(net: Net, m: Key, i: nat)
    requires Valid(net) && m in net.post && i < FINGERS
    ensures |net.fingers[m]| == FINGERS && Fixed(net, Fix(m, i)).post[m] == net.post[m]
    ensures Fixed(net, Fix(m, i)).fingers[m] == net.fingers[m][i := Entry(net, Fix(m, i))]
  {
    hide Entry;
  }
}

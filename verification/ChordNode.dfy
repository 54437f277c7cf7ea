// One member of the ring, with the fields and handlers of chord.c.
module ChordNode {
  import opened ChordKeys

  class Member {
    const key: Key
    var postnode: Key
    var prenode: Option<Key>
    var fingers: array<Key>

    ghost predicate Valid()
      reads this
    {
      fingers.Length == FINGERS
    }

    // creatFirstNode: alone on the ring, its own successor and predecessor.
    constructor First(key: Key)
      ensures Valid() && this.key == key
      ensures postnode == key && prenode == Some(key)
      ensures fresh(fingers) && forall i | 0 <= i < FINGERS :: fingers[i] == key
    {
      this.key := key;
      postnode := key;
      prenode := Some(key);
      fingers := new Key[FINGERS](_ => key);
    }

    // join: the contact's answer becomes the successor; nothing is known behind.
    constructor Joined(key: Key, answer: Key)
      ensures Valid() && this.key == key
      ensures postnode == answer && prenode == None
      ensures fresh(fingers) && forall i | 0 <= i < FINGERS :: fingers[i] == key
    {
      this.key := key;
      postnode := answer;
      prenode := None;
      fingers := new Key[FINGERS](_ => key);
    }

    // findClosestPort, up to the point where the question is passed on.
    method FindClosest(hash: Key) returns (route: Route)
      requires Valid()
      ensures route == FindRoute(key, postnode, fingers[..], hash)
      ensures (key < hash <= postnode) || (postnode < key && (key < hash || hash < postnode)) ==>
                route == Answer(postnode)
      ensures !(key < hash <= postnode) && !(postnode < key && (key < hash || hash < postnode)) ==>
                match route
                case Answer(owner) => owner == key && forall i | 0 <= i < FINGERS :: !Inside(key, fingers[i], hash)
                case Forward(next) => exists i | 0 <= i < FINGERS ::
                  && next == fingers[i] && Inside(key, next, hash)
                  && forall j | i < j < FINGERS :: !Inside(key, fingers[j], hash)
    {
      if hash > key && hash <= postnode {
        return Answer(postnode);
      } else if (hash > key || hash < postnode) && key > postnode {
        return Answer(postnode);
      }
      var i := FINGERS - 1;
      while i >= 0
        invariant -1 <= i < FINGERS
        invariant forall j | i < j < FINGERS :: !Inside(key, fingers[j], hash)
        invariant HighestFinger(fingers[..], FINGERS, key, hash) ==
                  HighestFinger(fingers[..], i + 1, key, hash)
      {
        var f := fingers[i];
        if (key < f && f < hash) || (hash < key && f > key) || (hash < key && f < hash) {
          return Forward(f);
        }
        i := i - 1;
      }
      return Answer(key);
    }

    // The part of stabilize after the reply; no predecessor is sent as port 0.
    method OnStableReply(reply: Option<Key>)
      requires Valid()
      modifies this`postnode
      ensures postnode == Adopted(key, old(postnode), reply)
    {
      if reply.Some? {
        var recv := reply.value;
        if postnode > key && key < recv && recv < postnode {
          postnode := recv;
        } else if postnode < key && recv != key && (recv > key || recv < postnode) {
          postnode := recv;
        }
      }
    }

    method OnStable() returns (reply: Option<Key>)
      ensures reply == prenode
    {
      reply := prenode;
    }

    method OnNotify(from: Key)
      requires Valid()
      modifies this`prenode
      ensures prenode == Notified(key, old(prenode), from)
    {
      if prenode == None {
        prenode := Some(from);
      } else if prenode.value > key && (from > prenode.value || from < key) {
        prenode := Some(from);
      } else if prenode.value < key && prenode.value < from && from < key {
        prenode := Some(from);
      }
    }

    // The join handler: a member alone closes a ring of two, any other looks the key up.
    method OnJoin(newcomer: Key) returns (reply: Route)
      requires Valid()
      requires postnode == key ==> prenode.Some?
      modifies this`postnode, this`prenode
      ensures old(postnode) == key ==>
                postnode == newcomer && prenode == Some(newcomer) && reply == Answer(key)
      ensures old(postnode) != key ==>
                postnode == old(postnode) && prenode == old(prenode) &&
                reply == FindRoute(key, postnode, fingers[..], newcomer)
    {
      if postnode == key {
        postnode := newcomer;
        prenode := Some(newcomer);
        reply := Answer(key);
      } else {
        reply := FindClosest(newcomer);
      }
    }

    // fix_fingers: the member found for the start of finger i replaces the entry.
    method FixFinger(i: nat, found: Key)
      requires Valid() && i < FINGERS
      modifies fingers
      ensures fingers[..] == old(fingers[..])[i := found]
    {
      fingers[i] := found;
    }
  }
}

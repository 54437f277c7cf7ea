// The circle of 32-bit keys and the decisions a Chord member takes on it.  A member is
// named by its key: translate is taken to give different ports different keys.
module ChordKeys {

  const RING: int := 0x1_0000_0000

  type Key = x: int | 0 <= x < 0x1_0000_0000

  datatype Option<+T> = None | Some(value: T)

  // How far b lies clockwise from a.
  function Dist(a: Key, b: Key): nat {
    if a <= b then b - a else b - a + 0x1_0000_0000
  }

  // x lies strictly between a and b, going clockwise.
  predicate Inside(a: Key, x: Key, b: Key) {
    0 < Dist(a, x) < Dist(a, b)
  }

  // On the circle, differences are taken modulo 2^32.
  lemma InsideIff(a: Key, x: Key, b: Key)
    ensures Dist(a, b) == (b - a) % 0x1_0000_0000
    ensures Inside(a, x, b) <==> 0 < (x - a) % 0x1_0000_0000 < (b - a) % 0x1_0000_0000
    ensures Inside(a, x, b) <==> (a < x && x < b) || (b < a && (a < x || x < b))
  {
  }

  // The postnode after a stabilize reply: the successor's prenode, if it is closer.
  function Adopted(self: Key, post: Key, reply: Option<Key>): Key {
    if reply.Some? && Inside(self, reply.value, post) then reply.value else post
  }

  // The prenode after a notify from another member: that member, if it is closer.
  function Notified(self: Key, pre: Option<Key>, from: Key): Option<Key> {
    if pre.None? || Inside(pre.value, from, self) then Some(from) else pre
  }

  // Exactly a key between the member and its postnode is adopted.
  lemma AdoptedIff(self: Key, post: Key, y: Key)
    ensures Adopted(self, post, None) == post
    ensures Adopted(self, post, Some(y)) == if 0 < (y - self) % RING < (post - self) % RING then y else post
  {
  }

  // Exactly a key between the predecessor and the member is taken.
  lemma NotifiedIff(self: Key, pre: Key, from: Key)
    ensures Notified(self, None, from) == Some(from)
    ensures Notified(self, Some(pre), from) ==
            Some(if 0 < (from - pre) % RING < (self - pre) % RING then from else pre)
  {
  }

  // Every member's postnode is a member.
  ghost predicate Closed(post: map<Key, Key>) {
    forall m {:trigger post[m]} | m in post :: post[m] in post
  }

  datatype Route = Answer(owner: Key) | Forward(next: Key)

  const FINGERS: nat := 32

  // The finger of highest index below n that lies strictly between self and the hash.
  function HighestFinger(fingers: seq<Key>, n: nat, self: Key, hash: Key): Option<Key>
    requires n <= |fingers|
  {
    if n == 0 then None
    else if Inside(self, fingers[n - 1], hash) then Some(fingers[n - 1])
    else HighestFinger(fingers, n - 1, self, hash)
  }

  // Whether a member takes its postnode for the owner of the hash.  The successor's own
  // key is left out when the arc wraps around zero: there the code compares with <.
  predicate OwnedByPost(self: Key, post: Key, hash: Key) {
    0 < Dist(self, hash) <= Dist(self, post) && !(hash == post && post < self)
  }

  function FindRoute(self: Key, post: Key, fingers: seq<Key>, hash: Key): Route {
    if OwnedByPost(self, post, hash) then Answer(post)
    else
      match HighestFinger(fingers, |fingers|, self, hash)
      case Some(f) => Forward(f)
      case None => Answer(self)
  }
}

// What several modules share: bytes and numbers, sequences of one repeated value.
module Sequences {
  type Bytes = seq<bv8>
  type Positive = n: nat | n > 0 witness 1

  function Repeat<T>(x: T, n: nat): (s: seq<T>)
    ensures |s| == n && forall i | 0 <= i < n :: s[i] == x
  {
    seq(n, _ => x)
  }

  // Conversion of a number to a byte and back.
  lemma {:induction false} ByteOf(t: nat) returns (b: bv8)
    requires t < 256
    ensures b as nat == t
  {
    if t == 0 {
      b := 0;
    } else {
      var c := ByteOf(t - 1);
      b := c + 1;
      assert c == b - 1 && b != 0;
    }
  }

  lemma IndexRoundTrip(t: nat)
    requires t < 256
    ensures (t as bv8) as nat == t
  {
    var b := ByteOf(t);
    assert (b as nat) as bv8 == b;
  }

  lemma SameByte(x: bv8, y: bv8)
    requires x as nat == y as nat
    ensures x == y
  {
    assert (x as nat) as bv8 == x && (y as nat) as bv8 == y;
  }
}

// The streaming hash of sha1.c: chunks go in, blocks are compressed as they fill.
module Sha1 {
  import opened Sequences
  import opened Sha1Spec

  // The words W of a block, in place of the array the code fills.
  method FillSchedule(block: array<bv8>, w: array<Word>)
    requires block.Length == 64 && w.Length == 80
    modifies w
    ensures forall t | 0 <= t < 80 :: w[t] == Schedule(block[..], t)
  {
    hide Mix, WordOf;
    ghost var b := block[..];
    for t := 0 to 16
      invariant forall h | 0 <= h < t :: w[h] == Schedule(b, h)
    {
      w[t] := WordOf(block[t * 4], block[t * 4 + 1], block[t * 4 + 2], block[t * 4 + 3]);
    }
    for t := 16 to 80
      invariant forall h | 0 <= h < t :: w[h] == Schedule(b, h)
    {
      w[t] := Mix(w[t - 3], w[t - 8], w[t - 14], w[t - 16]);
    }
  }

  // The four loops of twenty rounds.
  method RunRounds(w: array<Word>, ghost block: Bytes, h: State) returns (s: State)
    requires |block| == 64 && w.Length == 80
    requires forall t | 0 <= t < 80 :: w[t] == Schedule(block, t)
    ensures s == Rounds(block, h, 80)
  {
    hide Rotate, Schedule, Choose, Parity, Majority, Temp;
    var A, B, C, D, E := h.a, h.b, h.c, h.d, h.e;
    for t := 0 to 20
      invariant State(A, B, C, D, E) == Rounds(block, h, t)
    {
      var temp := Temp(A, Choose(B, C, D), E, w[t], 0x5A827999);
      E, D, C, B, A := D, C, Rotate(30, B), A, temp;
    }
    for t := 20 to 40
      invariant State(A, B, C, D, E) == Rounds(block, h, t)
    {
      var temp := Temp(A, Parity(B, C, D), E, w[t], 0x6ED9EBA1);
      E, D, C, B, A := D, C, Rotate(30, B), A, temp;
    }
    for t := 40 to 60
      invariant State(A, B, C, D, E) == Rounds(block, h, t)
    {
      var temp := Temp(A, Majority(B, C, D), E, w[t], 0x8F1BBCDC);
      E, D, C, B, A := D, C, Rotate(30, B), A, temp;
    }
    for t := 60 to 80
      invariant State(A, B, C, D, E) == Rounds(block, h, t)
    {
      var temp := Temp(A, Parity(B, C, D), E, w[t], 0xCA62C1D6);
      E, D, C, B, A := D, C, Rotate(30, B), A, temp;
    }
    s := State(A, B, C, D, E);
  }

  // Messages of 2^61 bytes or more have too many bits for the two length words.
  const LIMIT: nat := 0x2000_0000_0000_0000

  // What a caller can know of a context.
  datatype Status = Open(message: Bytes) | Done(message: Bytes) | Poisoned

  // SHA1Input on a status.
  function AfterInput(s: Status, bytes: Bytes): Status {
    if bytes == [] then s
    else if s.Open? && |s.message| + |bytes| < LIMIT then Open(s.message + bytes)
    else Poisoned
  }

  // SHA1Result on a status.
  function AfterResult(s: Status): Status {
    if s.Open? then Done(s.message) else s
  }

  class SHA1Context {
    var digest: array<Word>
    var lengthLow: nat
    var lengthHigh: nat
    var block: array<bv8>
    var index: nat
    var computed: bool
    var corrupted: bool
    ghost var message: Bytes

    ghost predicate Shape()
      reads this
    {
      digest.Length == 5 && block.Length == 64
    }

    ghost function DigestState(): State
      requires Shape()
      reads this, digest
    {
      State(digest[0], digest[1], digest[2], digest[3], digest[4])
    }

    // The two length words count the bits of m.
    ghost predicate Counts(m: Bytes)
      reads this
    {
      |m| < LIMIT && lengthLow < W && lengthHigh * W + lengthLow == 8 * |m|
    }

    // The blocks of m are compressed, what is left over waits in the buffer.
    ghost predicate Buffers(m: Bytes)
      requires Shape()
      reads this, digest, block
    {
      && index == |m| % 64
      && block[..index] == m[|m| - index..]
      && DigestState() == Process(m[..|m| - index])
    }

    ghost predicate Holds(m: Bytes)
      requires Shape()
      reads this, digest, block
    {
      Counts(m) && Buffers(m)
    }

    ghost predicate Valid()
      reads this, digest, block
    {
      && Shape()
      && (!corrupted ==> if computed then DigestState() == Digest(message) else Holds(message))
    }

    ghost function Status(): Status
      reads this
    {
      if corrupted then Poisoned else if computed then Done(message) else Open(message)
    }

    constructor ()
      ensures Shape() && fresh(digest) && fresh(block)
    {
      digest := new Word[5](_ => 0);
      block := new bv8[64](_ => 0);
      corrupted := true;
    }

    method InitialDigest()
      requires Shape()
      modifies digest
      ensures DigestState() == INITIAL
    {
      digest[0] := 0x67452301;
      digest[1] := 0xEFCDAB89;
      digest[2] := 0x98BADCFE;
      digest[3] := 0x10325476;
      digest[4] := 0xC3D2E1F0;
    }

    method Reset()
      requires Shape()
      modifies this, digest
      ensures Valid() && Status() == Open([])
      ensures digest == old(digest) && block == old(block)
    {
      hide Process, Digest;
      ProcessEmpty();
      lengthLow, lengthHigh, index := 0, 0, 0;
      InitialDigest();
      computed, corrupted := false, false;
      message := [];
      assert Buffers(message) by {
        assert message[..0] == message && block[..0] == message[0..];
      }
    }

    method ProcessMessageBlock()
      requires Shape()
      modifies this`index, digest
      ensures DigestState() == Compress(old(DigestState()), block[..]) && index == 0
    {
      hide Rotate, Schedule, Rounds, Plus;
      var w := new Word[80](_ => 0);
      FillSchedule(block, w);
      var h := State(digest[0], digest[1], digest[2], digest[3], digest[4]);
      var s := RunRounds(w, block[..], h);
      digest[0] := Plus(digest[0], s.a);
      digest[1] := Plus(digest[1], s.b);
      digest[2] := Plus(digest[2], s.c);
      digest[3] := Plus(digest[3], s.d);
      digest[4] := Plus(digest[4], s.e);
      index := 0;
    }

    // The bit count goes up by 8, with a carry from the low to the high word; when the
    // high word overflows, the message is too long.
    method CountByte()
      requires lengthLow < W && lengthHigh < W && lengthLow % 8 == 0
      modifies this`lengthLow, this`lengthHigh, this`corrupted
      ensures lengthLow < W && lengthHigh < W
      ensures var bits := old(lengthHigh) * W + old(lengthLow) + 8;
              if bits == W * W then corrupted
              else corrupted == old(corrupted) && lengthHigh * W + lengthLow == bits
    {
      lengthLow := (lengthLow + 8) % W;
      if lengthLow == 0 {
        lengthHigh := (lengthHigh + 1) % W;
        if lengthHigh == 0 {
          corrupted := true;
        }
      }
    }

    method CompressIfFull(ghost m: Bytes, ghost b: bv8)
      requires Shape() && index == |m| % 64 + 1
      requires block[..index] == m[|m| - |m| % 64..] + [b] && DigestState() == Process(m[..|m| - |m| % 64])
      modifies this`index, digest
      ensures Buffers(m + [b])
    {
      hide Process, Compress;
      ghost var rest := |m| % 64;
      RestGrows(m, b, rest);
      if index == 64 {
        assert block[..64] == block[..];
        ProcessMessageBlock();
        ProcessAppend(m[..|m| - rest], m[|m| - rest..] + [b]);
        assert (m + [b])[..|m| + 1] == m + [b];
      }
    }

    // One turn of the loop of SHA1Input.
    method TakeByte(b: bv8)
      requires Shape() && !corrupted && !computed && Holds(message)
      modifies this, digest, block
      ensures Shape() && digest == old(digest) && block == old(block) && !computed
      ensures message == old(message) + [b]
      ensures corrupted <==> |message| == LIMIT
      ensures !corrupted ==> Holds(message)
    {
      hide Process, Compress;
      ghost var m := message;
      block[index] := b;
      index := index + 1;
      assert block[..index] == m[|m| - |m| % 64..] + [b];
      BitsOf(lengthHigh, lengthLow, |m|);
      CountByte();
      message := m + [b];
      CompressIfFull(m, b);
    }

    // The loops that fill the buffer with zeros.
    method ZeroFill(end: nat)
      requires Shape() && index <= end <= 64
      modifies this`index, block
      ensures index == end
      ensures block[..end] == old(block[..index]) + Repeat<bv8>(0, end - old(index))
    {
      ghost var start := index;
      ghost var kept := block[..index];
      while index < end
        invariant start <= index <= end
        invariant block[..index] == kept + Repeat<bv8>(0, index - start)
      {
        block[index] := 0;
        index := index + 1;
        assert block[..index] == block[..index - 1] + [0];
        assert Repeat<bv8>(0, index - start) == Repeat<bv8>(0, index - 1 - start) + [0];
      }
    }

    // The last eight bytes of the last block.
    method StoreLength()
      requires Shape() && lengthLow < W
      modifies block
      ensures block[..] == old(block[..56]) + LengthBytes(lengthHigh * W + lengthLow)
    {
      hide LengthByte;
      LengthFromWords(lengthHigh * W + lengthLow, lengthHigh, lengthLow);
      block[56] := LengthByte(lengthHigh, 0x100_0000);
      block[57] := LengthByte(lengthHigh, 0x1_0000);
      block[58] := LengthByte(lengthHigh, 0x100);
      block[59] := LengthByte(lengthHigh, 1);
      block[60] := LengthByte(lengthLow, 0x100_0000);
      block[61] := LengthByte(lengthLow, 0x1_0000);
      block[62] := LengthByte(lengthLow, 0x100);
      block[63] := LengthByte(lengthLow, 1);
    }

    // What the first branch leaves: one block of padding is compressed, a second is begun.
    method PadOverflow(ghost m: Bytes)
      requires Shape() && Buffers(m) && index > 55
      modifies this`index, digest, block
      ensures index == 56
      ensures ghost var rest := |m| % 64;
              block[..56] == Repeat<bv8>(0, 56) &&
              DigestState() == Process(m[..|m| - rest] + (m[|m| - rest..] + [0x80] + Repeat<bv8>(0, 63 - rest)))
    {
      hide Process, Compress;
      ghost var rest := index;
      ghost var tail := m[|m| - rest..];
      block[index] := 0x80;
      index := index + 1;
      assert block[..index] == tail + [0x80];
      ZeroFill(64);
      assert block[..] == block[..64] == tail + [0x80] + Repeat<bv8>(0, 63 - rest);
      ProcessMessageBlock();
      ProcessAppend(m[..|m| - rest], tail + [0x80] + Repeat<bv8>(0, 63 - rest));
      assert block[..0] == [];
      ZeroFill(56);
      assert block[..56] == Repeat<bv8>(0, 56);
    }

    // What the second branch leaves: the block that waits is filled up to the length.
    method PadInPlace(ghost m: Bytes)
      requires Shape() && Buffers(m) && index <= 55
      modifies this`index, block
      ensures index == 56
      ensures block[..56] == m[|m| - |m| % 64..] + [0x80] + Repeat<bv8>(0, 55 - |m| % 64)
    {
      hide Process;
      block[index] := 0x80;
      index := index + 1;
      assert block[..index] == m[|m| - |m| % 64..] + [0x80];
      ZeroFill(56);
    }

    method FinishPadding(ghost done: Bytes)
      requires Shape() && lengthLow < W && |done| % 64 == 0 && DigestState() == Process(done)
      modifies this`index, digest, block
      ensures DigestState() == Process(done + (old(block[..56]) + LengthBytes(old(lengthHigh) * W + old(lengthLow))))
    {
      hide Process, Compress, LengthBytes;
      StoreLength();
      ProcessAppend(done, block[..]);
      ProcessMessageBlock();
    }

    method PadTwoBlocks(ghost m: Bytes)
      requires Shape() && Holds(m) && index > 55
      modifies this`index, digest, block
      ensures DigestState() == Digest(m)
    {
      hide Process, Compress, Padded, LengthBytes, Repeat;
      ghost var rest := |m| % 64;
      PaddedInTwo(m, rest);
      PadOverflow(m);
      FinishPadding(m[..|m| - rest] + (m[|m| - rest..] + [0x80] + Repeat<bv8>(0, 63 - rest)));
    }

    method PadOneBlock(ghost m: Bytes)
      requires Shape() && Holds(m) && index <= 55
      modifies this`index, digest, block
      ensures DigestState() == Digest(m)
    {
      hide Process, Compress, Padded, LengthBytes, Repeat;
      ghost var rest := |m| % 64;
      PaddedInOne(m, rest);
      PadInPlace(m);
      FinishPadding(m[..|m| - rest]);
    }

    method PadMessage()
      requires Shape() && Holds(message)
      modifies this`index, digest, block
      ensures DigestState() == Digest(message)
    {
      hide Digest, SHA1Context.Counts, SHA1Context.Buffers;
      if index > 55 {
        PadTwoBlocks(message);
      } else {
        PadOneBlock(message);
      }
    }

    method Input(bytes: Bytes)
      requires Valid()
      modifies this, digest, block
      ensures Valid() && digest == old(digest) && block == old(block)
      ensures Status() == AfterInput(old(Status()), bytes)
    {
      hide Process, Digest;
      if |bytes| == 0 {
        return;
      }
      if computed || corrupted {
        corrupted := true;
        return;
      }
      ghost var before := message;
      var i := 0;
      while i < |bytes| && !corrupted
        invariant i <= |bytes| && Shape() && digest == old(digest) && block == old(block) && !computed
        invariant message == before + bytes[..i]
        invariant if corrupted then |message| == LIMIT else Holds(message)
      {
        TakeByte(bytes[i]);
        i := i + 1;
      }
      assert !corrupted ==> bytes[..i] == bytes;
    }

    method Result() returns (ok: bool)
      requires Valid()
      modifies this, digest, block
      ensures Valid() && digest == old(digest) && block == old(block)
      ensures Status() == AfterResult(old(Status())) && ok == !Status().Poisoned?
      ensures Status().Done? ==> DigestState() == Digest(Status().message)
    {
      hide Process, Digest;
      if corrupted {
        return false;
      }
      if !computed {
        PadMessage();
        computed := true;
      }
      return true;
    }
  }

  lemma RestGrows(m: Bytes, b: bv8, rest: nat)
    requires rest == |m| % 64
    ensures (m + [b])[..|m| - rest] == m[..|m| - rest]
    ensures (m + [b])[|m| - rest..] == m[|m| - rest..] + [b]
    ensures if rest == 63 then (|m| + 1) % 64 == 0 else (|m| + 1) % 64 == rest + 1
    ensures rest == 63 ==> m[..|m| - rest] + (m[|m| - rest..] + [b]) == m + [b]
  {
    assert m == m[..|m| - rest] + m[|m| - rest..];
  }

  lemma BitsOf(high: nat, low: nat, n: nat)
    requires high * W + low == 8 * n && low < W && n < LIMIT
    ensures low % 8 == 0 && high < W
    ensures high * W + low + 8 == 8 * (n + 1)
    ensures high * W + low + 8 == W * W <==> n + 1 == LIMIT
  {
    assert low == 8 * (n - high * 0x2000_0000);
  }

  // ----- sequences of calls

  datatype Call = Input(bytes: Bytes) | Result | Reset

  // The status after the calls, one by one.
  function Run(s: Status, calls: seq<Call>): Status
    decreases |calls|
  {
    if calls == [] then s
    else
      var next :=
        match calls[0]
        case Input(bytes) => AfterInput(s, bytes)
        case Result => AfterResult(s)
        case Reset => Open([]);
      Run(next, calls[1..])
  }

  // The bytes handed in before the first result.
  function BeforeResult(calls: seq<Call>): Bytes {
    if calls == [] || calls[0].Result? then []
    else (if calls[0].Input? then calls[0].bytes else []) + BeforeResult(calls[1..])
  }

  predicate AnyInput(calls: seq<Call>) {
    exists call | call in calls :: call.Input? && call.bytes != []
  }

  // Some bytes are handed in after the first result.
  predicate LateInput(calls: seq<Call>) {
    calls != [] && if calls[0].Result? then AnyInput(calls[1..]) else LateInput(calls[1..])
  }

  lemma {:induction false} PoisonedStays(calls: seq<Call>)
    requires Reset !in calls
    ensures Run(Poisoned, calls) == Poisoned
  {
    if calls != [] {
      PoisonedStays(calls[1..]);
    }
  }

  lemma {:induction false} DoneStays(m: Bytes, calls: seq<Call>)
    requires Reset !in calls
    ensures Run(Done(m), calls) == if AnyInput(calls) then Poisoned else Done(m)
  {
    if calls != [] {
      assert calls == [calls[0]] + calls[1..];
      if calls[0].Input? && calls[0].bytes != [] {
        PoisonedStays(calls[1..]);
      } else {
        DoneStays(m, calls[1..]);
      }
    }
  }

  // A context that is not reset again: only the bytes before the first result matter, not
  // how they were split; it is poisoned exactly by 2^61 of them or by input after a result.
  lemma {:induction false} LifeCycle(m: Bytes, calls: seq<Call>)
    requires Reset !in calls && |m| < LIMIT
    ensures var all := m + BeforeResult(calls);
            Run(Open(m), calls) ==
            if |all| >= LIMIT || LateInput(calls) then Poisoned
            else if Result in calls then Done(all) else Open(all)
    decreases |calls|
  {
    if calls == [] {
      assert m + [] == m;
    } else {
      assert calls == [calls[0]] + calls[1..];
      match calls[0]
      case Result =>
        DoneStays(m, calls[1..]);
        assert m + [] == m;
      case Input(bytes) =>
        assert m + (bytes + BeforeResult(calls[1..])) == (m + bytes) + BeforeResult(calls[1..]);
        if |m + bytes| >= LIMIT {
          PoisonedStays(calls[1..]);
        } else {
          assert bytes == [] ==> m + bytes == m;
          LifeCycle(m + bytes, calls[1..]);
        }
    }
  }

  // The context goes through the calls as its status does.
  method RunCalls(context: SHA1Context, calls: seq<Call>)
    requires context.Valid()
    modifies context, context.digest, context.block
    ensures context.Valid() && context.digest == old(context.digest) && context.block == old(context.block)
    ensures context.Status() == Run(old(context.Status()), calls)
    ensures context.Status().Done? ==> context.DigestState() == Digest(context.Status().message)
  {
    hide Process, Digest, SHA1Context.Counts, SHA1Context.Buffers, AfterInput, AfterResult;
    for i := 0 to |calls|
      invariant context.Valid() && context.digest == old(context.digest) && context.block == old(context.block)
      invariant Run(context.Status(), calls[i..]) == Run(old(context.Status()), calls)
    {
      assert calls[i..][0] == calls[i] && calls[i..][1..] == calls[i + 1..];
      match calls[i] {
        case Input(bytes) => context.Input(bytes);
        case Result => var ok := context.Result();
        case Reset => context.Reset();
      }
    }
  }

  // A context reset once: the digest is that of the bytes before the first result, unless
  // there are 2^61 of them or bytes come after it.
  method RunFresh(calls: seq<Call>) returns (context: SHA1Context)
    requires Reset !in calls
    ensures context.Valid()
    ensures var all := BeforeResult(calls);
            context.Status() ==
            if |all| >= LIMIT || LateInput(calls) then Poisoned
            else if Result in calls then Done(all) else Open(all)
    ensures context.Status().Done? ==> context.DigestState() == Digest(BeforeResult(calls))
  {
    hide Process, Digest, SHA1Context.Counts, SHA1Context.Buffers, Run, LateInput, BeforeResult;
    context := new SHA1Context();
    context.Reset();
    RunCalls(context, calls);
    LifeCycle([], calls);
    assert [] + BeforeResult(calls) == BeforeResult(calls);
  }

  function Concat(chunks: seq<Bytes>): Bytes {
    if chunks == [] then [] else Concat(chunks[..|chunks| - 1]) + chunks[|chunks| - 1]
  }

  lemma {:induction false} ConcatGrows(chunks: seq<Bytes>, i: nat)
    requires i <= |chunks|
    ensures |Concat(chunks[..i])| <= |Concat(chunks)|
  {
    if i < |chunks| {
      ConcatGrows(chunks[..|chunks| - 1], i);
      assert chunks[..|chunks| - 1][..i] == chunks[..i];
    } else {
      assert chunks[..i] == chunks;
    }
  }

  // However the message is cut into chunks, the digest is the standard's.
  method HashChunks(chunks: seq<Bytes>) returns (ok: bool, d: State)
    ensures ok <==> 8 * |Concat(chunks)| < 0x1_0000_0000_0000_0000
    ensures ok ==> d == Digest(Concat(chunks))
  {
    hide Process, Digest, SHA1Context.Counts, SHA1Context.Buffers;
    var context := new SHA1Context();
    context.Reset();
    for i := 0 to |chunks|
      invariant context.Valid() && fresh(context.digest) && fresh(context.block)
      invariant context.Status() ==
                if |Concat(chunks[..i])| < LIMIT then Open(Concat(chunks[..i])) else Poisoned
    {
      assert chunks[..i + 1][..i] == chunks[..i];
      context.Input(chunks[i]);
    }
    assert chunks[..|chunks|] == chunks;
    ok := context.Result();
    d := State(context.digest[0], context.digest[1], context.digest[2], context.digest[3], context.digest[4]);
  }

  function Xor(x: Word, y: Word): Word {
    x ^ y
  }

  function Fold(d: State): Word {
    Xor(Xor(Xor(Xor(d.a, d.b), d.c), d.d), d.e)
  }

  method FoldDigest(context: SHA1Context) returns (result: Word)
    requires context.Shape()
    ensures result == Fold(context.DigestState())
  {
    hide Xor;
    var words := context.digest;
    result := Xor(words[0], words[1]);
    for i := 2 to 5
      invariant i == 2 ==> result == Xor(words[0], words[1])
      invariant i == 3 ==> result == Xor(Xor(words[0], words[1]), words[2])
      invariant i == 4 ==> result == Xor(Xor(Xor(words[0], words[1]), words[2]), words[3])
      invariant i == 5 ==> result == Fold(context.DigestState())
    {
      result := Xor(result, words[i]);
    }
  }

  // hashFunction of chord.c: the five words of the digest, folded into one.
  method HashFunction(key: Bytes) returns (result: Word)
    ensures result == if 8 * |key| < 0x1_0000_0000_0000_0000 then Fold(Digest(key)) else 0
  {
    hide Process, Digest, Fold, SHA1Context.Valid;
    var context := new SHA1Context();
    context.Reset();
    context.Input(key);
    assert [] + key == key;
    var ok := context.Result();
    result := 0;
    if ok {
      result := FoldDigest(context);
    }
  }
}

// Recency lists: what a least-recently-used cache holds, least recent first.
module Recency {

  datatype Entry = Entry(key: string, size: nat)

  function Total(c: seq<Entry>): nat {
    if c == [] then 0 else c[0].size + Total(c[1..])
  }

  ghost predicate Distinct(c: seq<Entry>) {
    forall i, j | 0 <= i < j < |c| :: c[i].key != c[j].key
  }

  predicate Has(c: seq<Entry>, key: string) {
    exists i | 0 <= i < |c| :: c[i].key == key
  }

  function Remove(c: seq<Entry>, key: string): seq<Entry> {
    if c == [] then []
    else if c[0].key == key then c[1..]
    else [c[0]] + Remove(c[1..], key)
  }

  // The longest suffix of c whose total is at most max.
  function Fit(c: seq<Entry>, max: nat): seq<Entry> {
    if Total(c) <= max then c else Fit(c[1..], max)
  }

  lemma {:induction false} FitIsLongest(c: seq<Entry>, max: nat)
    ensures Total(Fit(c, max)) <= max
    ensures exists n | 0 <= n <= |c| :: Fit(c, max) == c[n..] && forall i | 0 <= i < n :: Total(c[i..]) > max
  {
    if Total(c) > max {
      FitIsLongest(c[1..], max);
      var n :| 0 <= n <= |c[1..]| && Fit(c[1..], max) == c[1..][n..] &&
               forall i | 0 <= i < n :: Total(c[1..][i..]) > max;
      assert c[1..][n..] == c[n + 1..];
      forall i | 0 <= i < n + 1 ensures Total(c[i..]) > max {
        if i == 0 {
          assert c[0..] == c;
        } else {
          assert c[i..] == c[1..][i - 1..];
        }
      }
    } else {
      assert Fit(c, max) == c[0..];
    }
  }

  lemma FitsAlready(c: seq<Entry>, max: nat)
    ensures Total(c) <= max ==> Fit(c, max) == c
  {
  }

  lemma {:induction false} TotalAppend(c: seq<Entry>, e: Entry)
    ensures Total(c + [e]) == Total(c) + e.size
  {
    if c == [] {
      assert c + [e] == [e];
    } else {
      TotalAppend(c[1..], e);
      assert (c + [e])[1..] == c[1..] + [e];
    }
  }

  lemma {:induction false} RemoveFacts(c: seq<Entry>, key: string)
    ensures !Has(c, key) ==> Remove(c, key) == c
    ensures |Remove(c, key)| == |c| - if Has(c, key) then 1 else 0
    ensures forall i | 0 <= i < |Remove(c, key)| :: Remove(c, key)[i] in c
  {
    if c != [] {
      assert c == [c[0]] + c[1..];
      if c[0].key != key {
        RemoveFacts(c[1..], key);
        HasInTail(c, key);
      }
    }
  }

  lemma HasInTail(c: seq<Entry>, key: string)
    requires c != []
    ensures Has(c, key) <==> c[0].key == key || Has(c[1..], key)
  {
    forall i | 0 <= i < |c[1..]| ensures c[1..][i] == c[i + 1] {}
    forall i | 1 <= i < |c| ensures c[i] == c[1..][i - 1] {}
  }

  // ----- sequences of gets and puts

  function SizeOf(c: seq<Entry>, key: string): nat {
    if c == [] then 0 else if c[0].key == key then c[0].size else SizeOf(c[1..], key)
  }

  datatype Op = Get(key: string) | Put(key: string, size: nat)

  // A hit moves the entry to the recent end; a put replaces the entry and evicts.
  function AfterOp(max: nat, c: seq<Entry>, op: Op): seq<Entry> {
    match op
    case Get(key) => if Has(c, key) then Remove(c, key) + [Entry(key, SizeOf(c, key))] else c
    case Put(key, size) => Fit(Remove(c, key) + [Entry(key, size)], max)
  }

  function AfterOps(max: nat, ops: seq<Op>): seq<Entry> {
    if ops == [] then [] else AfterOp(max, AfterOps(max, ops[..|ops| - 1]), ops[|ops| - 1])
  }

  lemma {:induction false} MoveKeepsTotal(c: seq<Entry>, key: string)
    requires Has(c, key)
    ensures Total(Remove(c, key)) + SizeOf(c, key) == Total(c)
  {
    HasInTail(c, key);
    if c[0].key != key {
      MoveKeepsTotal(c[1..], key);
      assert ([c[0]] + Remove(c[1..], key))[1..] == Remove(c[1..], key);
    }
  }

  lemma GetFits(max: nat, c: seq<Entry>, key: string)
    requires Total(c) <= max && Distinct(c)
    ensures Total(AfterOp(max, c, Get(key))) <= max && Distinct(AfterOp(max, c, Get(key)))
  {
    hide Total, Remove;
    if Has(c, key) {
      RemoveDistinct(c, key);
      MoveKeepsTotal(c, key);
      TotalAppend(Remove(c, key), Entry(key, SizeOf(c, key)));
    }
  }

  lemma PutFits(max: nat, c: seq<Entry>, key: string, size: nat)
    requires Distinct(c)
    ensures Total(AfterOp(max, c, Put(key, size))) <= max && Distinct(AfterOp(max, c, Put(key, size)))
  {
    hide Total, Remove, Fit;
    RemoveDistinct(c, key);
    FitIsLongest(Remove(c, key) + [Entry(key, size)], max);
  }

  // Whatever the gets and puts, the cache never exceeds its capacity and holds no key twice.
  lemma {:induction false} OpsFit(max: nat, ops: seq<Op>)
    ensures Total(AfterOps(max, ops)) <= max && Distinct(AfterOps(max, ops))
  {
    hide AfterOp;
    if ops != [] {
      var n := |ops| - 1;
      OpsFit(max, ops[..n]);
      match ops[n]
      case Get(key) => GetFits(max, AfterOps(max, ops[..n]), key);
      case Put(key, size) => PutFits(max, AfterOps(max, ops[..n]), key, size);
    }
  }

  // ----- traces of the proxy

  // The entry of a key, every key having one size.
  function EntryOf(size: string -> nat, key: string): Entry {
    Entry(key, size(key))
  }

  ghost predicate Sized(size: string -> nat, c: seq<Entry>) {
    forall i | 0 <= i < |c| :: c[i] == EntryOf(size, c[i].key)
  }

  // A request: get, and on a miss put.
  function Request(size: string -> nat, max: nat, c: seq<Entry>, key: string): seq<Entry> {
    if Has(c, key) then Remove(c, key) + [EntryOf(size, key)]
    else Fit(Remove(c, key) + [EntryOf(size, key)], max)
  }

  function CacheAfter(size: string -> nat, max: nat, trace: seq<string>): seq<Entry> {
    if trace == [] then []
    else Request(size, max, CacheAfter(size, max, trace[..|trace| - 1]), trace[|trace| - 1])
  }

  // All keys ever requested, in order of their last request.
  function RecencyOrder(size: string -> nat, trace: seq<string>): seq<Entry> {
    if trace == [] then []
    else
      var key := trace[|trace| - 1];
      Remove(RecencyOrder(size, trace[..|trace| - 1]), key) + [EntryOf(size, key)]
  }

  lemma {:induction false} TotalRemove(size: string -> nat, c: seq<Entry>, key: string)
    requires Sized(size, c)
    ensures Total(Remove(c, key)) + size(key) >= Total(c)
    ensures Has(c, key) ==> Total(Remove(c, key)) + size(key) == Total(c)
  {
    if c != [] && c[0].key != key {
      var r := Remove(c[1..], key);
      TotalRemove(size, c[1..], key);
      assert ([c[0]] + r)[1..] == r;
      HasInTail(c, key);
    }
  }

  lemma {:induction false} FitKeeps(c: seq<Entry>, max: nat, key: string)
    ensures Has(Fit(c, max), key) ==> Has(c, key)
  {
    if Total(c) > max {
      FitKeeps(c[1..], max, key);
      HasInTail(c, key);
    }
  }

  // A request to the cache of what fits does what refitting the new recency order does.
  lemma {:induction false} RequestFits(size: string -> nat, max: nat, order: seq<Entry>, key: string)
    requires Sized(size, order) && Distinct(order)
    ensures Request(size, max, Fit(order, max), key) == Fit(Remove(order, key) + [EntryOf(size, key)], max)
    decreases |order|
  {
    var e := EntryOf(size, key);
    if Total(order) <= max {
      TotalRemove(size, order, key);
      TotalAppend(Remove(order, key), e);
    } else {
      var rest := order[1..];
      RequestFits(size, max, rest, key);
      if order[0].key == key {
        RemoveFacts(rest, key);
      } else {
        var r := Remove(rest, key) + [e];
        assert Remove(order, key) + [e] == [order[0]] + r;
        TotalRemove(size, order, key);
        TotalAppend(Remove(order, key), e);
        assert ([order[0]] + r)[1..] == r;
      }
    }
  }

  lemma {:induction false} OrderIsRegular(size: string -> nat, trace: seq<string>)
    ensures Sized(size, RecencyOrder(size, trace)) && Distinct(RecencyOrder(size, trace))
  {
    if trace != [] {
      var before := RecencyOrder(size, trace[..|trace| - 1]);
      OrderIsRegular(size, trace[..|trace| - 1]);
      RemoveDistinct(before, trace[|trace| - 1]);
      RemoveFacts(before, trace[|trace| - 1]);
    }
  }

  lemma {:induction false} RemoveDistinct(c: seq<Entry>, key: string)
    requires Distinct(c)
    ensures Distinct(Remove(c, key)) && !Has(Remove(c, key), key)
  {
    if c != [] {
      if c[0].key == key {
      } else {
        RemoveDistinct(c[1..], key);
        RemoveFacts(c[1..], key);
      }
    }
  }

  // The later key was requested after the last request of the earlier one.
  ghost predicate UsedAfter(trace: seq<string>, earlier: string, later: string) {
    exists p | 0 <= p < |trace| :: trace[p] == later && forall q | p <= q < |trace| :: trace[q] != earlier
  }

  lemma {:induction false} RemoveIsCut(c: seq<Entry>, key: string) returns (n: nat)
    requires Has(c, key)
    ensures n < |c| && c[n].key == key && Remove(c, key) == c[..n] + c[n + 1..]
  {
    if c[0].key == key {
      n := 0;
    } else {
      HasInTail(c, key);
      var m := RemoveIsCut(c[1..], key);
      n := m + 1;
      assert c[..n] == [c[0]] + c[1..][..m] && c[n + 1..] == c[1..][m + 1..];
    }
  }

  ghost predicate ByUse(trace: seq<string>, c: seq<Entry>) {
    forall g, h | 0 <= g < h < |c| :: UsedAfter(trace, c[g].key, c[h].key)
  }

  // What is left keeps its order.
  lemma RemoveKeepsOrder(c: seq<Entry>, key: string, i: nat, j: nat) returns (i': nat, j': nat)
    requires i < j < |Remove(c, key)|
    ensures i' < j' < |c| && c[i'] == Remove(c, key)[i] && c[j'] == Remove(c, key)[j]
  {
    hide Remove;
    if Has(c, key) {
      var n := RemoveIsCut(c, key);
      i', j' := if i < n then i else i + 1, if j < n then j else j + 1;
    } else {
      RemoveFacts(c, key);
      i', j' := i, j;
    }
  }

  lemma UsedAfterMore(trace: seq<string>, earlier: string, later: string, key: string)
    requires UsedAfter(trace, earlier, later) && key != earlier
    ensures UsedAfter(trace + [key], earlier, later)
  {
    var p :| 0 <= p < |trace| && trace[p] == later && forall q | p <= q < |trace| :: trace[q] != earlier;
    assert (trace + [key])[p] == later;
  }

  lemma UsedLast(trace: seq<string>, earlier: string, key: string)
    requires earlier != key
    ensures UsedAfter(trace + [key], earlier, key)
  {
    assert (trace + [key])[|trace|] == key;
  }

  lemma {:induction false} HasAfterRemove(c: seq<Entry>, key: string, other: string)
    ensures other != key ==> (Has(Remove(c, key), other) <==> Has(c, other))
  {
    if c != [] {
      HasInTail(c, other);
      if c[0].key != key {
        HasAfterRemove(c[1..], key, other);
        HasInTail([c[0]] + Remove(c[1..], key), other);
      }
    }
  }

  lemma HasAppend(c: seq<Entry>, e: Entry, key: string)
    ensures Has(c + [e], key) <==> Has(c, key) || e.key == key
  {
    if Has(c, key) {
      var i :| 0 <= i < |c| && c[i].key == key;
      assert (c + [e])[i].key == key;
    }
    assert (c + [e])[|c|] == e;
  }

  lemma {:induction false} OrderHas(size: string -> nat, trace: seq<string>, key: string)
    ensures Has(RecencyOrder(size, trace), key) <==> key in trace
  {
    hide Remove, Has;
    if trace != [] {
      var n := |trace| - 1;
      var before := RecencyOrder(size, trace[..n]);
      OrderHas(size, trace[..n], key);
      HasAfterRemove(before, trace[n], key);
      HasAppend(Remove(before, trace[n]), EntryOf(size, trace[n]), key);
      assert trace == trace[..n] + [trace[n]];
    } else {
      assert RecencyOrder(size, trace) == [];
      NothingHas(key);
    }
  }

  lemma NothingHas(key: string)
    ensures !Has([], key)
  {
  }

  // The recency order: all keys ever requested, each once with its size, and of two keys
  // the one requested last comes later.
  lemma {:induction false} OrderIsByLastUse(size: string -> nat, trace: seq<string>)
    ensures forall key :: key in trace <==> Has(RecencyOrder(size, trace), key)
    ensures forall i | 0 <= i < |RecencyOrder(size, trace)| ::
              RecencyOrder(size, trace)[i].size == size(RecencyOrder(size, trace)[i].key)
    ensures forall i, j | 0 <= i < j < |RecencyOrder(size, trace)| ::
              UsedAfter(trace, RecencyOrder(size, trace)[i].key, RecencyOrder(size, trace)[j].key)
  {
    forall key ensures key in trace <==> Has(RecencyOrder(size, trace), key) {
      OrderHas(size, trace, key);
    }
    OrderIsRegular(size, trace);
    if trace != [] {
      var n, c := |trace| - 1, RecencyOrder(size, trace);
      OrderIsByLastUse(size, trace[..n]);
      forall i, j | 0 <= i < j < |c| ensures UsedAfter(trace, c[i].key, c[j].key) {
        ByLastUse(size, trace, i, j);
      }
    }
  }

  lemma ByLastUse(size: string -> nat, trace: seq<string>, i: nat, j: nat)
    requires trace != [] && i < j < |RecencyOrder(size, trace)|
    requires ByUse(trace[..|trace| - 1], RecencyOrder(size, trace[..|trace| - 1]))
    ensures UsedAfter(trace, RecencyOrder(size, trace)[i].key, RecencyOrder(size, trace)[j].key)
  {
    hide Remove, UsedAfter;
    var n, c := |trace| - 1, RecencyOrder(size, trace);
    var before, key := RecencyOrder(size, trace[..n]), trace[n];
    OrderIsRegular(size, trace[..n]);
    RemoveDistinct(before, key);
    assert trace == trace[..n] + [key];
    assert c[i] == Remove(before, key)[i] && c[i].key != key;
    if j == |c| - 1 {
      UsedLast(trace[..n], c[i].key, key);
    } else {
      var g, h := RemoveKeepsOrder(before, key, i, j);
      assert UsedAfter(trace[..n], before[g].key, before[h].key);
      assert c[j] == before[h];
      UsedAfterMore(trace[..n], c[i].key, c[j].key, key);
    }
  }

  // The cache of capacity max always holds exactly the longest suffix of the recency
  // order of the whole past that fits.
  lemma {:induction false} CacheIsSuffix(size: string -> nat, max: nat, trace: seq<string>)
    ensures CacheAfter(size, max, trace) == Fit(RecencyOrder(size, trace), max)
  {
    if trace != [] {
      CacheIsSuffix(size, max, trace[..|trace| - 1]);
      OrderIsRegular(size, trace[..|trace| - 1]);
      RequestFits(size, max, RecencyOrder(size, trace[..|trace| - 1]), trace[|trace| - 1]);
    }
  }

  lemma {:induction false} FitIsSized(size: string -> nat, c: seq<Entry>, max: nat)
    requires Sized(size, c)
    ensures Sized(size, Fit(c, max))
  {
    if Total(c) > max {
      FitIsSized(size, c[1..], max);
    }
  }

  lemma CacheIsSized(size: string -> nat, max: nat, trace: seq<string>)
    ensures Sized(size, CacheAfter(size, max, trace))
  {
    CacheIsSuffix(size, max, trace);
    OrderIsRegular(size, trace);
    FitIsSized(size, RecencyOrder(size, trace), max);
  }

  lemma {:induction false} FitNested(c: seq<Entry>, small: nat, large: nat)
    requires small <= large
    ensures exists n | 0 <= n <= |Fit(c, large)| :: Fit(c, small) == Fit(c, large)[n..]
  {
    if Total(c) <= large {
      FitIsLongest(c, small);
      var n :| 0 <= n <= |c| && Fit(c, small) == c[n..];
      assert Fit(c, small) == Fit(c, large)[n..];
    } else {
      FitNested(c[1..], small, large);
      assert Fit(c, small) == Fit(c[1..], small) && Fit(c, large) == Fit(c[1..], large);
    }
  }

  // Stack inclusion: on the same trace, a larger cache holds all that a smaller one holds.
  lemma StackInclusion(size: string -> nat, small: nat, large: nat, trace: seq<string>)
    requires small <= large
    ensures exists n | 0 <= n <= |CacheAfter(size, large, trace)| ::
              CacheAfter(size, small, trace) == CacheAfter(size, large, trace)[n..]
  {
    CacheIsSuffix(size, small, trace);
    CacheIsSuffix(size, large, trace);
    FitNested(RecencyOrder(size, trace), small, large);
  }
}

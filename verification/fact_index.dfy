/**
 * The fact index: one pass over the fact records that appends each record's
 * raw interval under the key `employee__store`. Nothing is merged, clipped or
 * filtered by a window.
 */
module FactIndex {
  import opened ShiftModel

  type Index = map<string, seq<Interval>>

  /** A fact's interval exactly as parsed. */
  function FactInterval(f: ShiftFact, msOf: string -> int): Interval {
    Interval(msOf(f.startActual), msOf(f.endActual))
  }

  /** The intervals of the facts with key `k`, in input order. */
  function IntervalsFor(facts: seq<ShiftFact>, k: string, msOf: string -> int): seq<Interval>
    decreases |facts|
  {
    if facts == [] then []
    else
      var last := facts[|facts| - 1];
      IntervalsFor(facts[..|facts| - 1], k, msOf) + (if FactKey(last) == k then [FactInterval(last, msOf)] else [])
  }

  function KeysOf(facts: seq<ShiftFact>): set<string> {
    set f | f in facts :: FactKey(f)
  }

  /** `buildFactIndex(facts)`. */
  function BuildFactIndex(facts: seq<ShiftFact>, msOf: string -> int): (idx: Index)
    ensures idx.Keys == KeysOf(facts)
    ensures forall k :: k in idx ==> idx[k] == IntervalsFor(facts, k, msOf) && idx[k] != []
    decreases |facts|
  {
    if facts == [] then map[]
    else
      var prefix := facts[..|facts| - 1];
      var f := facts[|facts| - 1];
      var before := BuildFactIndex(prefix, msOf);
      assert facts == prefix + [f];
      AppendFact(prefix, f, msOf, before);
      Append(before, FactKey(f), FactInterval(f, msOf))
  }

  /** Create an empty list for the key when it has none, then push the interval onto the key's list. */
  function Append(idx: Index, k: string, iv: Interval): Index {
    idx[k := (if k in idx then idx[k] else []) + [iv]]
  }

  /** Appending one more fact to an index of `prefix` gives the index of `prefix + [f]`. */
  lemma AppendFact(prefix: seq<ShiftFact>, f: ShiftFact, msOf: string -> int, before: Index)
    requires before.Keys == KeysOf(prefix)
    requires forall k :: k in before ==> before[k] == IntervalsFor(prefix, k, msOf) && before[k] != []
    ensures var idx := Append(before, FactKey(f), FactInterval(f, msOf));
      && idx.Keys == KeysOf(prefix + [f])
      && forall k :: k in idx ==> idx[k] == IntervalsFor(prefix + [f], k, msOf) && idx[k] != []
  {
    KeysOfSnoc(prefix, f);
    if FactKey(f) !in before {
      IntervalsForAbsent(prefix, FactKey(f), msOf);
    }
    forall k
      ensures IntervalsFor(prefix + [f], k, msOf) ==
                IntervalsFor(prefix, k, msOf) + (if FactKey(f) == k then [FactInterval(f, msOf)] else [])
    {
      IntervalsForSnoc(prefix, f, k, msOf);
    }
  }

  lemma KeysOfSnoc(prefix: seq<ShiftFact>, f: ShiftFact)
    ensures KeysOf(prefix + [f]) == KeysOf(prefix) + {FactKey(f)}
  {
    forall k | k in KeysOf(prefix + [f])
      ensures k in KeysOf(prefix) + {FactKey(f)}
    {
      var g :| g in prefix + [f] && FactKey(g) == k;
      if g != f {
        assert g in prefix;
      }
    }
  }

  lemma IntervalsForSnoc(prefix: seq<ShiftFact>, f: ShiftFact, k: string, msOf: string -> int)
    ensures IntervalsFor(prefix + [f], k, msOf) ==
              IntervalsFor(prefix, k, msOf) + (if FactKey(f) == k then [FactInterval(f, msOf)] else [])
  {
    assert (prefix + [f])[..|prefix|] == prefix;
  }

  /** A key no fact carries has no intervals. */
  lemma {:induction false} IntervalsForAbsent(facts: seq<ShiftFact>, k: string, msOf: string -> int)
    requires k !in KeysOf(facts)
    ensures IntervalsFor(facts, k, msOf) == []
    decreases |facts|
  {
    if facts != [] {
      var prefix := facts[..|facts| - 1];
      assert KeysOf(prefix) <= KeysOf(facts) by {
        forall k' | k' in KeysOf(prefix) ensures k' in KeysOf(facts) {
          var f :| f in prefix && FactKey(f) == k';
          assert f in facts;
        }
      }
      IntervalsForAbsent(prefix, k, msOf);
      assert facts[|facts| - 1] in facts;
    }
  }

  /** Looking a key up, with the `?? []` fallback of the callers. */
  function Lookup(idx: Index, k: string): seq<Interval> {
    if k in idx then idx[k] else []
  }

  /** A lookup yields exactly the key's intervals in input order, and the empty list for a key no fact has. */
  lemma LookupIsIntervalsFor(facts: seq<ShiftFact>, k: string, msOf: string -> int)
    ensures Lookup(BuildFactIndex(facts, msOf), k) == IntervalsFor(facts, k, msOf)
  {
    if k !in BuildFactIndex(facts, msOf) {
      IntervalsForAbsent(facts, k, msOf);
    }
  }

  /** Every interval under key `k` is the verbatim interval of some fact whose key is `k`. */
  lemma {:induction false} IntervalsForOrigin(facts: seq<ShiftFact>, k: string, msOf: string -> int, iv: Interval)
    requires iv in IntervalsFor(facts, k, msOf)
    ensures exists f :: f in facts && FactKey(f) == k && iv == FactInterval(f, msOf)
    decreases |facts|
  {
    var prefix := facts[..|facts| - 1];
    var last := facts[|facts| - 1];
    if iv in IntervalsFor(prefix, k, msOf) {
      IntervalsForOrigin(prefix, k, msOf, iv);
      var f :| f in prefix && FactKey(f) == k && iv == FactInterval(f, msOf);
      assert f in facts;
    } else {
      assert last in facts;
    }
  }

  /** Every fact of key `k` has its interval in the key's list. */
  lemma {:induction false} IntervalsForComplete(facts: seq<ShiftFact>, i: nat, msOf: string -> int)
    requires i < |facts|
    ensures FactInterval(facts[i], msOf) in IntervalsFor(facts, FactKey(facts[i]), msOf)
    decreases |facts|
  {
    if i < |facts| - 1 {
      IntervalsForComplete(facts[..|facts| - 1], i, msOf);
    }
  }

  // ---------------------------------------------------------------------------
  // Total interval count
  // ---------------------------------------------------------------------------

  /** The summed lengths of the lists stored under `keys`. */
  ghost function SumLengths(idx: Index, keys: set<string>): nat
    requires keys <= idx.Keys
    decreases keys
  {
    if keys == {} then 0
    else
      var k :| k in keys;
      |idx[k]| + SumLengths(idx, keys - {k})
  }

  /** The sum does not depend on which key is taken first. */
  lemma {:induction false} SumLengthsRemove(idx: Index, keys: set<string>, k: string)
    requires keys <= idx.Keys
    requires k in keys
    ensures SumLengths(idx, keys) == |idx[k]| + SumLengths(idx, keys - {k})
    decreases keys
  {
    var k' :| k' in keys && SumLengths(idx, keys) == |idx[k']| + SumLengths(idx, keys - {k'});
    if k' != k {
      SumLengthsRemove(idx, keys - {k'}, k);
      SumLengthsRemove(idx, keys - {k}, k');
      assert keys - {k'} - {k} == keys - {k} - {k'};
    }
  }

  /** Lists that agree on `keys` have the same sum there. */
  lemma {:induction false} SumLengthsFrame(a: Index, b: Index, keys: set<string>)
    requires keys <= a.Keys && keys <= b.Keys
    requires forall k :: k in keys ==> a[k] == b[k]
    ensures SumLengths(a, keys) == SumLengths(b, keys)
    decreases keys
  {
    if keys != {} {
      var k :| k in keys && SumLengths(a, keys) == |a[k]| + SumLengths(a, keys - {k});
      SumLengthsRemove(b, keys, k);
      SumLengthsFrame(a, b, keys - {k});
    }
  }

  /** Appending one interval under a key adds one to the summed lengths. */
  lemma SumLengthsAppend(before: Index, k: string, iv: Interval)
    ensures var idx := Append(before, k, iv);
      SumLengths(idx, idx.Keys) == SumLengths(before, before.Keys) + 1
  {
    var idx := Append(before, k, iv);
    SumLengthsRemove(idx, idx.Keys, k);
    if k in before {
      SumLengthsRemove(before, before.Keys, k);
      assert idx.Keys - {k} == before.Keys - {k};
      SumLengthsFrame(idx, before, before.Keys - {k});
    } else {
      assert idx.Keys - {k} == before.Keys;
      SumLengthsFrame(idx, before, before.Keys);
    }
  }

  /** Each fact is stored exactly once: the lists together hold as many intervals as there are facts. */
  lemma {:induction false} FactIndexTotal(facts: seq<ShiftFact>, msOf: string -> int)
    ensures SumLengths(BuildFactIndex(facts, msOf), BuildFactIndex(facts, msOf).Keys) == |facts|
    decreases |facts|
  {
    if facts != [] {
      var prefix := facts[..|facts| - 1];
      var f := facts[|facts| - 1];
      FactIndexTotal(prefix, msOf);
      SumLengthsAppend(BuildFactIndex(prefix, msOf), FactKey(f), FactInterval(f, msOf));
    }
  }
}

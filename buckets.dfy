/** Totals per key, kept the way a JavaScript `Map` (or a plain object with
    non-numeric keys) keeps them: each key once, in the order of its first
    insertion, with `map.set(k, (map.get(k) || 0) + amount)` for every entry. */
module Buckets {

  /** The keys of `entries`, each once, in order of first occurrence. */
  function Distinct(entries: seq<(string, nat)>): seq<string> {
    if |entries| == 0 then []
    else
      var d := Distinct(entries[..|entries| - 1]);
      var k := entries[|entries| - 1].0;
      if k in d then d else d + [k]
  }

  predicate NoDuplicates(s: seq<string>) {
    forall i, j :: 0 <= i < j < |s| ==> s[i] != s[j]
  }

  predicate HasKey(entries: seq<(string, nat)>, k: string) {
    exists i :: 0 <= i < |entries| && entries[i].0 == k
  }

  /** The sum of the amounts filed under `k`. */
  function SumFor(entries: seq<(string, nat)>, k: string): nat {
    if |entries| == 0 then 0
    else
      var e := entries[|entries| - 1];
      SumFor(entries[..|entries| - 1], k) + (if e.0 == k then e.1 else 0)
  }

  /** The sum of all amounts. */
  function Total(entries: seq<(string, nat)>): nat {
    if |entries| == 0 then 0 else Total(entries[..|entries| - 1]) + entries[|entries| - 1].1
  }

  /** The sum, over the keys `ks`, of the amounts filed under each. */
  function SumOver(ks: seq<string>, entries: seq<(string, nat)>): nat {
    if |ks| == 0 then 0 else SumOver(ks[..|ks| - 1], entries) + SumFor(entries, ks[|ks| - 1])
  }

  /** `Distinct` lists every key of the entries, and nothing else, once. */
  lemma {:induction false} DistinctSpec(entries: seq<(string, nat)>)
    ensures NoDuplicates(Distinct(entries))
    ensures forall k :: k in Distinct(entries) <==> HasKey(entries, k)
    decreases |entries|
  {
    if |entries| > 0 {
      var init := entries[..|entries| - 1];
      DistinctSpec(init);
      forall k ensures HasKey(entries, k) <==> HasKey(init, k) || entries[|entries| - 1].0 == k {
        if HasKey(init, k) {
          var i :| 0 <= i < |init| && init[i].0 == k;
          assert entries[i] == init[i];
        }
        if HasKey(entries, k) && entries[|entries| - 1].0 != k {
          var i :| 0 <= i < |entries| && entries[i].0 == k;
          assert init[i] == entries[i];
        }
      }
    }
  }

  /** A key that never occurs has nothing filed under it. */
  lemma {:induction false} SumForAbsent(entries: seq<(string, nat)>, k: string)
    requires !HasKey(entries, k)
    ensures SumFor(entries, k) == 0
    decreases |entries|
  {
    if |entries| > 0 {
      var init := entries[..|entries| - 1];
      assert !HasKey(init, k) by {
        forall i | 0 <= i < |init| ensures init[i].0 != k {
          assert init[i] == entries[i];
        }
      }
      SumForAbsent(init, k);
    }
  }

  /** Adding one entry adds its amount to the sum over keys exactly when its
      key is among them. */
  lemma {:induction false} SumOverStep(ks: seq<string>, entries: seq<(string, nat)>, e: (string, nat))
    requires NoDuplicates(ks)
    ensures SumOver(ks, entries + [e]) == SumOver(ks, entries) + (if e.0 in ks then e.1 else 0)
    decreases |ks|
  {
    if |ks| > 0 {
      var init := ks[..|ks| - 1];
      assert (entries + [e])[..|entries + [e]| - 1] == entries;
      SumOverStep(init, entries, e);
      assert e.0 in ks <==> e.0 in init || e.0 == ks[|ks| - 1];
      if e.0 == ks[|ks| - 1] {
        assert e.0 !in init;
      }
    }
  }

  /** The per-key totals, summed over the distinct keys, give the total of
      all amounts: no amount is lost or counted twice. */
  lemma {:induction false} SumOverDistinct(entries: seq<(string, nat)>)
    ensures SumOver(Distinct(entries), entries) == Total(entries)
    decreases |entries|
  {
    if |entries| > 0 {
      var init := entries[..|entries| - 1];
      var e := entries[|entries| - 1];
      var d := Distinct(init);
      assert entries == init + [e];
      SumOverDistinct(init);
      DistinctSpec(init);
      SumOverStep(d, init, e);
      if e.0 !in d {
        SumForAbsent(init, e.0);
        assert (d + [e.0])[..|d|] == d;
      }
    }
  }

  /** The sum over two runs of keys is the sum over each. */
  lemma {:induction false} SumOverAppend(a: seq<string>, b: seq<string>, entries: seq<(string, nat)>)
    ensures SumOver(a + b, entries) == SumOver(a, entries) + SumOver(b, entries)
    decreases |b|
  {
    if |b| == 0 {
      assert a + b == a;
    } else {
      assert (a + b)[..|a + b| - 1] == a + b[..|b| - 1];
      SumOverAppend(a, b[..|b| - 1], entries);
    }
  }

  /** The accumulation loop: one pass over the entries, updating the map and
      remembering each new key in insertion order. */
  method Accumulate(entries: seq<(string, nat)>) returns (order: seq<string>, totals: map<string, nat>)
    ensures order == Distinct(entries)
    ensures totals.Keys == set k | k in order
    ensures forall k :: k in totals ==> totals[k] == SumFor(entries, k)
  {
    order := [];
    totals := map[];
    var i := 0;
    while i < |entries|
      invariant 0 <= i <= |entries|
      invariant order == Distinct(entries[..i])
      invariant totals.Keys == set k | k in order
      invariant forall k :: k in totals ==> totals[k] == SumFor(entries[..i], k)
    {
      var (k, amount) := entries[i];
      var current := if k in totals then totals[k] else 0;
      if k !in totals {
        DistinctSpec(entries[..i]);
        SumForAbsent(entries[..i], k);
        order := order + [k];
      }
      totals := totals[k := current + amount];
      assert entries[..i + 1][..i] == entries[..i];
      i := i + 1;
    }
    assert entries[..i] == entries;
  }
}

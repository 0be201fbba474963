/** `Array.prototype.sort()` without a comparison function on strings:
    ascending string order, which is what orders the chart's dates. */
module StringSort {
  import opened Text

  /** Ascending in string order. */
  predicate Sorted(s: seq<string>) {
    forall i, j :: 0 <= i < j < |s| ==> LexLe(s[i], s[j])
  }

  /** No string occurs twice. */
  predicate Unique(s: seq<string>) {
    forall x | x in s :: multiset(s)[x] <= 1
  }

  lemma LexLeTransitive(a: string, b: string, c: string)
    requires LexLe(a, b) && LexLe(b, c)
    ensures LexLe(a, c)
  {
    if LexLt(a, b) && LexLt(b, c) {
      LexLtTransitive(a, b, c);
    }
  }

  /** `x` placed before the first element that does not precede it. */
  function Insert(x: string, s: seq<string>): (r: seq<string>)
    ensures multiset(r) == multiset(s) + multiset{x}
  {
    if |s| == 0 then [x]
    else if LexLt(s[0], x) then
      assert s == [s[0]] + s[1..];
      [s[0]] + Insert(x, s[1..])
    else [x] + s
  }

  /** Insertion sort. */
  function Sort(s: seq<string>): (r: seq<string>)
    ensures multiset(r) == multiset(s)
  {
    if |s| == 0 then []
    else
      assert s == s[..|s| - 1] + [s[|s| - 1]];
      Insert(s[|s| - 1], Sort(s[..|s| - 1]))
  }

  /** A sorted sequence stays sorted behind a string no greater than any
      of its elements. */
  lemma ConsSorted(h: string, r: seq<string>)
    requires Sorted(r)
    requires forall j :: 0 <= j < |r| ==> LexLe(h, r[j])
    ensures Sorted([h] + r)
  {
    var out := [h] + r;
    forall i, j | 0 <= i < j < |out| ensures LexLe(out[i], out[j]) {
      if i == 0 {
        assert out[j] == r[j - 1];
      } else {
        assert out[i] == r[i - 1] && out[j] == r[j - 1];
      }
    }
  }

  /** The tail of a sorted sequence is sorted. */
  lemma TailSorted(s: seq<string>)
    requires |s| > 0 && Sorted(s)
    ensures Sorted(s[1..])
  {
    var t := s[1..];
    forall i, j | 0 <= i < j < |t| ensures LexLe(t[i], t[j]) {
      assert t[i] == s[i + 1] && t[j] == s[j + 1];
    }
  }

  /** A lower bound of `x` and of every element of `t` bounds every element
      of `Insert(x, t)`. */
  lemma InsertBounded(y: string, x: string, t: seq<string>)
    requires LexLe(y, x)
    requires forall k :: 0 <= k < |t| ==> LexLe(y, t[k])
    ensures forall j :: 0 <= j < |Insert(x, t)| ==> LexLe(y, Insert(x, t)[j])
  {
    var r := Insert(x, t);
    forall j | 0 <= j < |r| ensures LexLe(y, r[j]) {
      assert r[j] in multiset(r);
      if r[j] != x {
        assert r[j] in multiset(t);
        var k :| 0 <= k < |t| && t[k] == r[j];
      }
    }
  }

  lemma {:induction false} InsertSorted(x: string, s: seq<string>)
    requires Sorted(s)
    ensures Sorted(Insert(x, s))
    decreases |s|
  {
    if |s| > 0 {
      if LexLt(s[0], x) {
        var t := s[1..];
        TailSorted(s);
        InsertSorted(x, t);
        forall k | 0 <= k < |t| ensures LexLe(s[0], t[k]) {
          assert t[k] == s[k + 1];
        }
        InsertBounded(s[0], x, t);
        ConsSorted(s[0], Insert(x, t));
      } else {
        NotLexLtIsLexLe(x, s[0]);
        forall j | 0 <= j < |s| ensures LexLe(x, s[j]) {
          if j > 0 {
            LexLeTransitive(x, s[0], s[j]);
          }
        }
        ConsSorted(x, s);
      }
    }
  }

  /** The sort orders its input ... */
  lemma {:induction false} SortSorted(s: seq<string>)
    ensures Sorted(Sort(s))
    decreases |s|
  {
    if |s| > 0 {
      SortSorted(s[..|s| - 1]);
      InsertSorted(s[|s| - 1], Sort(s[..|s| - 1]));
    }
  }

  /** Two positions holding the same string make it occur twice. */
  lemma Repeated(s: seq<string>, i: int, j: int)
    requires 0 <= i < j < |s|
    ensures s[i] == s[j] ==> multiset(s)[s[i]] >= 2
  {
    assert s == s[..j] + s[j..];
    assert s[i] in s[..j];
    assert s[j] in s[j..];
    assert multiset(s) == multiset(s[..j]) + multiset(s[j..]);
  }

  /** ... and, when no string occurs twice, into strictly ascending order. */
  lemma SortStrict(s: seq<string>)
    requires Unique(s)
    ensures forall i, j :: 0 <= i < j < |Sort(s)| ==> LexLt(Sort(s)[i], Sort(s)[j])
  {
    var r := Sort(s);
    SortSorted(s);
    forall i, j | 0 <= i < j < |r| ensures LexLt(r[i], r[j]) {
      Repeated(r, i, j);
      assert r[i] in multiset(s);
    }
  }
}

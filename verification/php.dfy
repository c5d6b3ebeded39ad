/**
 * The few PHP language semantics the profiler relies on: the `(string)` cast,
 * the `?:` falsiness test on strings, ordered associative arrays written with
 * `$a[$k] = $v`, and `array_intersect` on lists of strings.
 */
module Php {
  import opened Wrappers
  import Decimal

  /** The PHP values a parameter computation can produce. */
  datatype Value = Str(s: string) | Int(i: int) | False

  /**
   * PHP's `(string)` cast: a string is itself, `false` is "", and an integer
   * becomes non-empty decimal text that is "0" only for zero.
   */
  function ToString(v: Value): (r: string)
    ensures v.Str? ==> r == v.s
    ensures v.Int? ==> r != "" && (r == "0" <==> v.i == 0)
    ensures v.False? ==> r == ""
  {
    match v
    case Str(s) => s
    case Int(i) => Decimal.IntToDecimalZero(i); Decimal.IntToDecimal(i)
    case False => ""
  }

  /** The cast of an integer reads back as the same integer. */
  lemma ToStringReadsBack(i: int)
    ensures Decimal.ParseInt(ToString(Int(i))) == Some(i)
  {
    Decimal.IntRoundTrip(i);
  }

  /** A string is falsy in PHP exactly when it is "" or "0". */
  predicate Falsy(s: string) {
    s == "" || s == "0"
  }

  /** `(string) $v ?: ''`: the cast, with every falsy string replaced by "". */
  function CastOrEmpty(v: Value): (s: string)
    ensures !Falsy(s) || s == ""
    ensures s == "" <==> Falsy(ToString(v))
    ensures s != "" ==> s == ToString(v)
  {
    var t := ToString(v);
    if Falsy(t) then "" else t
  }

  /**
   * An ordered PHP array from string keys to string values: the keys in
   * insertion order, and the value stored under each.
   */
  datatype Array = Array(order: seq<string>, entries: map<string, string>)

  /** Every key is listed once, and exactly the stored keys are listed. */
  predicate Valid(a: Array) {
    && Distinct(a.order)
    && (forall k :: k in a.order ==> k in a.entries)
    && (forall k :: k in a.entries ==> k in a.order)
  }

  /** `[]`. */
  const Empty: Array := Array([], map[])

  /** `$a[$k] ?? null`: the value stored under `k`. */
  function Get(a: Array, k: string): Option<string> {
    if k in a.entries then Some(a.entries[k]) else None
  }

  /**
   * `$a[$k] = $v`: an existing key keeps its position and takes the new
   * value; a new key is appended at the end; every other key is untouched.
   */
  function Put(a: Array, k: string, v: string): (r: Array)
    ensures r.order == if k in a.order then a.order else a.order + [k]
    ensures Get(r, k) == Some(v)
    ensures forall k' :: k' != k ==> Get(r, k') == Get(a, k')
  {
    Array(if k in a.order then a.order else a.order + [k], a.entries[k := v])
  }

  /** Writing one entry keeps an array well-formed. */
  lemma PutValid(a: Array, k: string, v: string)
    requires Valid(a)
    ensures Valid(Put(a, k, v))
  {
  }

  /** The position of the first occurrence of `x` in `s`. */
  function FirstIndex(s: seq<string>, x: string): (i: nat)
    requires x in s
    ensures i < |s| && s[i] == x
    ensures forall j :: 0 <= j < i ==> s[j] != x
    decreases |s|
  {
    if s[0] == x then 0 else FirstIndex(s[1..], x) + 1
  }

  /**
   * `array_intersect($xs, $ys)` iterated by value: the entries of `xs` that
   * occur in `ys`, in the order (and with the repetitions) of `xs`.
   */
  function ArrayIntersect(xs: seq<string>, ys: seq<string>): (r: seq<string>)
    ensures forall x :: x in r <==> x in xs && x in ys
    ensures |r| <= |xs|
    decreases |xs|
  {
    if |xs| == 0 then []
    else (if xs[0] in ys then [xs[0]] else []) + ArrayIntersect(xs[1..], ys)
  }

  /**
   * Each entry of `ys` is kept exactly as often as it occurs in `xs`; every
   * other entry is dropped.
   */
  lemma {:induction false} ArrayIntersectCount(xs: seq<string>, ys: seq<string>, x: string)
    ensures multiset(ArrayIntersect(xs, ys))[x] == if x in ys then multiset(xs)[x] else 0
    decreases |xs|
  {
    if |xs| > 0 {
      assert xs == [xs[0]] + xs[1..];
      ArrayIntersectCount(xs[1..], ys, x);
    }
  }

  /**
   * Filtering a concatenation filters each part and keeps them in order;
   * with the single-entry case this fixes the result's order completely.
   */
  lemma {:induction false} ArrayIntersectConcat(a: seq<string>, b: seq<string>, ys: seq<string>)
    ensures ArrayIntersect(a + b, ys) == ArrayIntersect(a, ys) + ArrayIntersect(b, ys)
    decreases |a|
  {
    if |a| == 0 {
      assert a + b == b;
    } else {
      var h := if a[0] in ys then [a[0]] else [];
      var x, y := ArrayIntersect(a[1..], ys), ArrayIntersect(b, ys);
      assert ArrayIntersect(a + b, ys) == h + (x + y) by {
        assert (a + b)[0] == a[0] && (a + b)[1..] == a[1..] + b;
        ArrayIntersectConcat(a[1..], b, ys);
      }
      assert h + (x + y) == (h + x) + y;
    }
  }

  /**
   * Among the entries that survive the filter, an entry that first occurs
   * earlier in the result also first occurs earlier in `xs`.
   */
  lemma {:induction false} ArrayIntersectFirstOrder(xs: seq<string>, ys: seq<string>, a: string, b: string)
    requires a in ArrayIntersect(xs, ys) && b in ArrayIntersect(xs, ys)
    requires FirstIndex(ArrayIntersect(xs, ys), a) < FirstIndex(ArrayIntersect(xs, ys), b)
    ensures FirstIndex(xs, a) < FirstIndex(xs, b)
    decreases |xs|
  {
    var r := ArrayIntersect(xs, ys);
    var rest := ArrayIntersect(xs[1..], ys);
    if xs[0] in ys {
      assert r == [xs[0]] + rest && r[1..] == rest;
      if a != xs[0] {
        FirstIndexTail(r, a);
        FirstIndexTail(r, b);
        ArrayIntersectFirstOrder(xs[1..], ys, a, b);
        FirstIndexTail(xs, a);
        FirstIndexTail(xs, b);
      }
    } else {
      assert r == rest;
      ArrayIntersectFirstOrder(xs[1..], ys, a, b);
      FirstIndexTail(xs, a);
      FirstIndexTail(xs, b);
    }
  }

  /** Past a different head, the first occurrence lies one further on than in the tail. */
  lemma FirstIndexTail(s: seq<string>, x: string)
    requires x in s && s[0] != x
    ensures x in s[1..] && FirstIndex(s, x) == FirstIndex(s[1..], x) + 1
  {
  }

  /** Intersecting with a list that holds every entry changes nothing. */
  lemma {:induction false} ArrayIntersectAll(xs: seq<string>, ys: seq<string>)
    requires forall x :: x in xs ==> x in ys
    ensures ArrayIntersect(xs, ys) == xs
    decreases |xs|
  {
    if |xs| > 0 {
      ArrayIntersectAll(xs[1..], ys);
    }
  }

  predicate Distinct(s: seq<string>) {
    forall i, j :: 0 <= i < j < |s| ==> s[i] != s[j]
  }

  /** The entries of `s` in order of first occurrence, each once. */
  function Dedup(s: seq<string>): (r: seq<string>)
    ensures Distinct(r)
    ensures forall x :: x in r <==> x in s
    ensures forall i, j :: 0 <= i < j < |r| ==> FirstIndex(s, r[i]) < FirstIndex(s, r[j])
    decreases |s|
  {
    if |s| == 0 then []
    else
      var init := s[..|s| - 1];
      var d := Dedup(init);
      assert forall x :: x in s <==> x in init || x == s[|s| - 1];
      assert forall i :: 0 <= i < |d| ==> d[i] in init && d[i] in s;
      DedupOrderStep(s, d);
      if s[|s| - 1] in d then d else d + [s[|s| - 1]]
  }

  /** A first occurrence in a prefix is the first occurrence in the whole list. */
  lemma FirstIndexPrefix(s: seq<string>, n: nat, x: string)
    requires n <= |s| && x in s[..n]
    ensures FirstIndex(s, x) == FirstIndex(s[..n], x)
  {
    var k := FirstIndex(s[..n], x);
    assert s[k] == s[..n][k];
  }

  /** The step of `Dedup`: the last entry, when new, comes after every earlier one. */
  lemma DedupOrderStep(s: seq<string>, d: seq<string>)
    requires |s| > 0
    requires forall x :: x in d <==> x in s[..|s| - 1]
    requires forall i :: 0 <= i < |d| ==> d[i] in s[..|s| - 1] && d[i] in s
    requires forall i, j :: 0 <= i < j < |d| ==> FirstIndex(s[..|s| - 1], d[i]) < FirstIndex(s[..|s| - 1], d[j])
    ensures forall i, j :: 0 <= i < j < |d| ==> FirstIndex(s, d[i]) < FirstIndex(s, d[j])
    ensures s[|s| - 1] !in d ==>
      var e := d + [s[|s| - 1]];
      forall i, j :: 0 <= i < j < |e| ==> FirstIndex(s, e[i]) < FirstIndex(s, e[j])
  {
    var n := |s| - 1;
    forall i | 0 <= i < |d|
      ensures FirstIndex(s, d[i]) == FirstIndex(s[..n], d[i]) < n
    {
      FirstIndexPrefix(s, n, d[i]);
    }
    if s[n] !in d {
      assert FirstIndex(s, s[n]) == n;
    }
  }

  /** A list without repetitions is its own deduplication. */
  lemma {:induction false} DedupDistinct(s: seq<string>)
    requires Distinct(s)
    ensures Dedup(s) == s
    decreases |s|
  {
    if |s| > 0 {
      var n := |s| - 1;
      var init := s[..n];
      assert Distinct(init) by {
        forall i, j | 0 <= i < j < n ensures init[i] != init[j] {
          assert init[i] == s[i] && init[j] == s[j];
        }
      }
      DedupDistinct(init);
      assert s[n] !in init by {
        forall k | 0 <= k < n ensures init[k] != s[n] {
          assert init[k] == s[k];
        }
      }
      assert init + [s[n]] == s;
    }
  }

  /** Intersecting a list without repetitions leaves one without repetitions. */
  lemma {:induction false} ArrayIntersectDistinct(xs: seq<string>, ys: seq<string>)
    requires Distinct(xs)
    ensures Distinct(ArrayIntersect(xs, ys))
    decreases |xs|
  {
    if |xs| > 0 {
      ArrayIntersectDistinct(xs[1..], ys);
      assert xs[0] !in xs[1..];
    }
  }
}

/**
 Sums and arithmetic means of real sequences, the idealisation of the `f64`
 sums the library takes over a column.
 */
module Means {

  /** The sum of `s`, taken from the front. */
  function Sum(s: seq<real>): real {
    if |s| == 0 then 0.0 else s[0] + Sum(s[1..])
  }

  /** `iter().map(|&x| x as f64)`. */
  function AsReals(s: seq<int>): (r: seq<real>)
    ensures |r| == |s| && forall i :: 0 <= i < |s| ==> r[i] == s[i] as real
  {
    seq(|s|, i requires 0 <= i < |s| => s[i] as real)
  }

  /** `m` lies between the least and the greatest element of `s`. */
  ghost predicate WithinRange(s: seq<real>, m: real) {
    && (exists i :: 0 <= i < |s| && s[i] <= m)
    && (exists j :: 0 <= j < |s| && m <= s[j])
  }

  lemma {:induction false} SumAboveAll(s: seq<real>, m: real)
    requires forall i :: 0 <= i < |s| ==> m < s[i]
    ensures |s| > 0 ==> |s| as real * m < Sum(s)
  {
    if |s| > 0 {
      SumAboveAll(s[1..], m);
    }
  }

  lemma {:induction false} SumBelowAll(s: seq<real>, m: real)
    requires forall i :: 0 <= i < |s| ==> s[i] < m
    ensures |s| > 0 ==> Sum(s) < |s| as real * m
  {
    if |s| > 0 {
      SumBelowAll(s[1..], m);
    }
  }

  /** The arithmetic mean of a non-empty list lies between its least and greatest element. */
  lemma MeanWithinRange(s: seq<real>)
    requires |s| > 0
    ensures WithinRange(s, Sum(s) / |s| as real)
  {
    var m := Sum(s) / |s| as real;
    assert |s| as real * m == Sum(s);
    if forall i :: 0 <= i < |s| ==> m < s[i] {
      SumAboveAll(s, m);
    }
    if forall i :: 0 <= i < |s| ==> s[i] < m {
      SumBelowAll(s, m);
    }
  }

  /** A value between two elements of `s` lies within the range of `s`. */
  lemma BetweenElementsWithinRange(s: seq<real>, a: real, b: real, v: real)
    requires a in s && b in s
    requires a <= v <= b
    ensures WithinRange(s, v)
  {
    var i :| 0 <= i < |s| && s[i] == a;
    var j :| 0 <= j < |s| && s[j] == b;
  }
}

/** Shared value types and the lexicographic order behind Go's string and byte comparisons. */
module Prelude {

  datatype Option<+T> = None | Some(value: T)

  /** Lexicographic "comes before", as Go compares strings and bytes.Compare compares slices. */
  predicate LexLess(a: seq<int>, b: seq<int>)
    decreases |a|
  {
    b != [] && (a == [] || a[0] < b[0] || (a[0] == b[0] && LexLess(a[1..], b[1..])))
  }

  lemma {:induction false} LexTotal(a: seq<int>, b: seq<int>)
    ensures LexLess(a, b) || LexLess(b, a) || a == b
    decreases |a|
  {
    if a != [] && b != [] && a[0] == b[0] {
      LexTotal(a[1..], b[1..]);
      assert a == [a[0]] + a[1..] && b == [b[0]] + b[1..];
    }
  }

  lemma {:induction false} LexAsymmetric(a: seq<int>, b: seq<int>)
    requires LexLess(a, b)
    ensures !LexLess(b, a)
    decreases |a|
  {
    if a != [] && b != [] && a[0] == b[0] {
      LexAsymmetric(a[1..], b[1..]);
    }
  }

  lemma {:induction false} LexTransitive(a: seq<int>, b: seq<int>, c: seq<int>)
    requires LexLess(a, b) && LexLess(b, c)
    ensures LexLess(a, c)
    decreases |a|
  {
    if a != [] && a[0] == b[0] == c[0] {
      LexTransitive(a[1..], b[1..], c[1..]);
    }
  }

  /** The lists agree before k, and there a ends while b goes on, or has the smaller element. */
  ghost predicate FirstDiffer(a: seq<int>, b: seq<int>, k: int) {
    0 <= k <= |a| && k < |b| && a[..k] == b[..k] && (k == |a| || a[k] < b[k])
  }

  lemma {:induction false} LexLessIff(a: seq<int>, b: seq<int>)
    ensures LexLess(a, b) <==> exists k :: FirstDiffer(a, b, k)
    decreases |a|
  {
    if b == [] {
    } else if a == [] || a[0] != b[0] {
      if LexLess(a, b) {
        assert FirstDiffer(a, b, 0);
      }
      if k :| FirstDiffer(a, b, k) {
        if k > 0 {
          assert a[..k][0] == b[..k][0];
        }
      }
    } else {
      LexLessIff(a[1..], b[1..]);
      if k :| FirstDiffer(a[1..], b[1..], k) {
        assert a[..k + 1] == [a[0]] + a[1..][..k] && b[..k + 1] == [b[0]] + b[1..][..k];
        assert FirstDiffer(a, b, k + 1);
      }
      if k :| FirstDiffer(a, b, k) {
        assert a[1..][..k - 1] == a[..k][1..] && b[1..][..k - 1] == b[..k][1..];
        assert FirstDiffer(a[1..], b[1..], k - 1);
      }
    }
  }

  /** The code points of a string. */
  function Codes(s: string): (c: seq<int>)
    ensures |c| == |s|
    ensures forall i :: 0 <= i < |s| ==> c[i] == s[i] as int
  {
    seq(|s|, i requires 0 <= i < |s| => s[i] as int)
  }

  /** Does one name come before the other: equal before k, where it ends first or has the smaller character? */
  ghost predicate ComesFirst(a: string, b: string) {
    exists k :: 0 <= k <= |a| && k < |b| && a[..k] == b[..k] && (k == |a| || a[k] < b[k])
  }

  lemma NamesCompare(a: string, b: string)
    ensures LexLess(Codes(a), Codes(b)) <==> ComesFirst(a, b)
  {
    var x, y := Codes(a), Codes(b);
    LexLessIff(x, y);
    if k :| FirstDiffer(x, y, k) {
      forall i | 0 <= i < k
        ensures a[i] == b[i]
      {
        assert x[..k][i] == y[..k][i];
      }
      assert a[..k] == b[..k];
    }
    if k :| 0 <= k <= |a| && k < |b| && a[..k] == b[..k] && (k == |a| || a[k] < b[k]) {
      forall i | 0 <= i < k
        ensures x[i] == y[i]
      {
        assert a[..k][i] == b[..k][i];
      }
      assert x[..k] == y[..k];
      assert FirstDiffer(x, y, k);
    }
  }

  lemma CodesInjective(a: string, b: string)
    requires Codes(a) == Codes(b)
    ensures a == b
  {
    forall i | 0 <= i < |a|
      ensures a[i] == b[i]
    {
      assert Codes(a)[i] == Codes(b)[i];
    }
  }
}

/** The parts of JavaScript's `Array` that the linked list relies on, over Dafny sequences. */
module ArrayOps {

  /** No element occurs twice. */
  ghost predicate Distinct<X>(s: seq<X>)
  {
    forall i, j :: 0 <= i < j < |s| ==> s[i] != s[j]
  }

  /** `Array.prototype.indexOf` with strict equality: the first position that holds `x`,
      or -1 when `x` does not occur. For objects strict equality is identity. */
  function IndexOf<X(==)>(s: seq<X>, x: X): (r: int)
    ensures -1 <= r < |s|
    ensures r == -1 <==> x !in s
    ensures 0 <= r ==> s[r] == x && forall j :: 0 <= j < r ==> s[j] != x
  {
    if |s| == 0 then -1
    else if s[0] == x then 0
    else
      var k := IndexOf(s[1..], x);
      if k == -1 then -1 else k + 1
  }

  /** Being the first occurrence determines the position `indexOf` reports. */
  lemma IndexOfFirstOccurrence<X>(s: seq<X>, x: X, k: int)
    requires 0 <= k < |s| && s[k] == x && forall j :: 0 <= j < k ==> s[j] != x
    ensures IndexOf(s, x) == k
  {
  }

  /** In a sequence without repetitions, `indexOf` of an element is its position. */
  lemma IndexOfDistinct<X>(s: seq<X>, k: int)
    requires Distinct(s) && 0 <= k < |s|
    ensures IndexOf(s, s[k]) == k
  {
    IndexOfFirstOccurrence(s, s[k], k);
  }

  /** A sequence without repetitions has as many distinct elements as positions. */
  lemma {:induction false} DistinctCardinality<X>(s: seq<X>)
    ensures Distinct(s) ==> |set x | x in s| == |s|
  {
    if |s| > 0 && Distinct(s) {
      assert Distinct(s[1..]) by {
        forall i, j | 0 <= i < j < |s| - 1 ensures s[1..][i] != s[1..][j] {
          assert s[1..][i] == s[i + 1] && s[1..][j] == s[j + 1];
        }
      }
      DistinctCardinality(s[1..]);
      assert (set x | x in s) == (set x | x in s[1..]) + {s[0]};
      assert s[0] !in s[1..];
    }
  }

  /** `push`: appending an element leaves the position of every earlier element where it was. */
  lemma IndexOfAppend<X>(s: seq<X>, y: X, x: X)
    ensures IndexOf(s + [y], x) == if x in s then IndexOf(s, x) else if x == y then |s| else -1
  {
    var t := s + [y];
    if x in s {
      IndexOfFirstOccurrence(t, x, IndexOf(s, x));
    } else if x == y {
      IndexOfFirstOccurrence(t, x, |s|);
    } else {
      assert x !in t;
    }
  }

  /** `unshift`: prepending an element moves every other element one position up. */
  lemma IndexOfPrepend<X>(y: X, s: seq<X>, x: X)
    ensures IndexOf([y] + s, x) == if x == y then 0 else if x in s then IndexOf(s, x) + 1 else -1
  {
    var t := [y] + s;
    if x == y {
      IndexOfFirstOccurrence(t, x, 0);
    } else if x in s {
      IndexOfFirstOccurrence(t, x, IndexOf(s, x) + 1);
    } else {
      assert x !in t;
    }
  }
}

/** Small shared vocabulary: optional values, handler responses, and the
    array operations (`Math.min`, `Array.prototype.reverse`) the controllers use. */
module Basics {

  /** A value that may be absent (`undefined` or `null` in the service). */
  datatype Option<+T> = None | Some(value: T) {
    /** The value, or `default` when absent (a destructuring default). */
    function GetOr(default: T): T {
      match this
      case Some(v) => v
      case None => default
    }
  }

  /** What a request handler answers: a JSON body, a 404, or a 500. */
  datatype Response<+T> = Ok(body: T) | NotFound | ServerError

  function Min(a: int, b: int): (m: int)
    ensures m <= a && m <= b && (m == a || m == b)
  {
    if a <= b then a else b
  }

  /** `Array.prototype.reverse` on a fresh copy. */
  function Reverse<T>(s: seq<T>): (r: seq<T>)
    ensures |r| == |s|
  {
    if s == [] then [] else Reverse(s[1..]) + [s[0]]
  }

  lemma {:induction false} ReverseAt<T>(s: seq<T>, k: int)
    requires 0 <= k < |s|
    ensures Reverse(s)[k] == s[|s| - 1 - k]
  {
    if k < |s| - 1 {
      ReverseAt(s[1..], k);
    }
  }

  lemma {:induction false} ReverseMultiset<T>(s: seq<T>)
    ensures multiset(Reverse(s)) == multiset(s)
  {
    if s != [] {
      ReverseMultiset(s[1..]);
      assert s == [s[0]] + s[1..];
    }
  }

  /** A sequence is its prefix, the element at `i` and its suffix. */
  lemma SplitAt<T>(s: seq<T>, i: int)
    requires 0 <= i < |s|
    ensures s[..i] + [s[i]] + s[i + 1..] == s
    ensures s[..i] + [s[i]] == s[..i + 1]
    ensures i == |s| - 1 ==> s[..i] + [s[i]] == s
  {
  }

  /** A sequence is the part before `i`, the part from `i` to `j` and the part after `j`. */
  lemma Around<T>(s: seq<T>, i: int, j: int)
    requires 0 <= i <= j <= |s|
    ensures s == s[..i] + s[i..j] + s[j..]
  {
  }

  /** Dropping the last element of `rs` and a matching element of `qs` keeps two permutations permutations. */
  lemma MultisetRemove<T>(rs: seq<T>, qs: seq<T>, i: int)
    requires rs != [] && multiset(rs) == multiset(qs)
    requires 0 <= i < |qs| && qs[i] == rs[|rs| - 1]
    ensures multiset(rs[..|rs| - 1]) == multiset(qs[..i] + qs[i + 1..])
  {
    var n := |rs| - 1;
    SplitAt(rs, n);
    SplitAt(qs, i);
    assert multiset(rs) == multiset(rs[..n]) + multiset{rs[n]};
    assert multiset(qs) == multiset(qs[..i]) + multiset{qs[i]} + multiset(qs[i + 1..]);
    assert multiset(qs[..i] + qs[i + 1..]) == multiset(qs[..i]) + multiset(qs[i + 1..]);
    assert multiset(rs[..n]) == multiset(rs) - multiset{rs[n]};
  }

  /** The set of the elements of a sequence. */
  ghost function Elements<T>(s: seq<T>): set<T>
  {
    set x | x in s
  }

  /** A sequence without repeated elements has as many elements as its set. */
  lemma {:induction false} DistinctCard<T>(s: seq<T>)
    requires forall i, j :: 0 <= i < j < |s| ==> s[i] != s[j]
    ensures |Elements(s)| == |s|
  {
    if s != [] {
      var n := |s| - 1;
      DistinctCard(s[..n]);
      assert s[n] !in Elements(s[..n]);
      assert Elements(s) == Elements(s[..n]) + {s[n]} by {
        SplitAt(s, n);
      }
    }
  }
}

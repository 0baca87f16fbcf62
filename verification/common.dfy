/** Small helpers shared by every handler model: an optional value (JavaScript's
    `null`/`undefined` stand-in), order-preserving filtering (as JavaScript's array filter)
    and summation of prices (a left fold starting at 0). */
module Common {

  /** A value that may be absent: `null`, `undefined` or a missing field. */
  datatype Option<+T> = None | Some(value: T) {

    /** The value, or `default` when absent (a nullish default). */
    function GetOr(default: T): T {
      match this
      case Some(v) => v
      case None => default
    }
  }

  /** How a write request to the database ended: answered without an error,
      answered with an error, or thrown (a network failure). */
  datatype WriteResult = WriteOk | WriteRefused | WriteThrew

  /** `a` can be obtained from `b` by deleting elements: the order of `a` is the
      order of `b`. */
  ghost predicate Subsequence<T>(a: seq<T>, b: seq<T>)
    decreases |b|
  {
    if |a| == 0 then true
    else if |b| == 0 then false
    else if a[0] == b[0] then Subsequence(a[1..], b[1..])
    else Subsequence(a, b[1..])
  }

  /** The elements of `s` that satisfy `keep`, in their original order. */
  function Filter<T(==,!new)>(s: seq<T>, keep: T -> bool): (r: seq<T>)
    ensures |r| <= |s|
    ensures forall x :: x in r <==> x in s && keep(x)
    ensures Subsequence(r, s)
  {
    if |s| == 0 then []
    else
      var rest := Filter(s[1..], keep);
      assert forall x :: x in s <==> x == s[0] || x in s[1..];
      if keep(s[0]) then
        assert ([s[0]] + rest)[1..] == rest;
        [s[0]] + rest
      else rest
  }

  /** The sum of `f` over `s`, folded from the left starting at 0. */
  function SumBy<T>(s: seq<T>, f: T -> real): real
  {
    if |s| == 0 then 0.0 else f(s[0]) + SumBy(s[1..], f)
  }

  /** Summation distributes over concatenation. */
  lemma {:induction false} SumByAppend<T>(a: seq<T>, b: seq<T>, f: T -> real)
    ensures SumBy(a + b, f) == SumBy(a, f) + SumBy(b, f)
    decreases |a|
  {
    if |a| == 0 {
      assert a + b == b;
    } else {
      assert (a + b)[1..] == a[1..] + b;
      SumByAppend(a[1..], b, f);
    }
  }

  /** The index of the first element of `s` satisfying `hit`, if any
      (`Array.prototype.findIndex`, with -1 written as None). */
  function FindFirst<T>(s: seq<T>, hit: T -> bool): (r: Option<nat>)
    ensures r.None? <==> forall i :: 0 <= i < |s| ==> !hit(s[i])
    ensures r.Some? ==> r.value < |s| && hit(s[r.value])
    ensures r.Some? ==> forall i :: 0 <= i < r.value ==> !hit(s[i])
  {
    if |s| == 0 then None
    else if hit(s[0]) then Some(0)
    else
      match FindFirst(s[1..], hit)
      case None => None
      case Some(k) => Some(k + 1)
  }
}

/**
 * The few pieces of Python's built-in behaviour the model relies on: the kinds of
 * exception the modelled code raises, and list indexing and slicing with Python's
 * treatment of negative and out-of-range positions.
 */
module Builtins {
  import opened Wrappers

  /** The built-in exception classes raised by the modelled code. */
  datatype Error =
    | ValueError
    | RuntimeError
    | TypeError
    | KeyError
    | IndexError
    | UnboundLocalError

  /** `xs[i]`: a negative index counts from the end; anything else out of range raises. */
  function Index<T>(xs: seq<T>, i: int): (r: Result<T, Error>)
    ensures r.Success? <==> -|xs| <= i < |xs|
    ensures 0 <= i < |xs| ==> r == Success(xs[i])
    ensures -|xs| <= i < 0 ==> r == Success(xs[|xs| + i])
    ensures r.Failure? ==> r.error == IndexError
  {
    if 0 <= i < |xs| then Success(xs[i])
    else if -|xs| <= i < 0 then Success(xs[|xs| + i])
    else Failure(IndexError)
  }

  /** How Python normalises one bound of a slice of a sequence of length `n`. */
  function SliceBound(i: int, n: nat): (b: nat)
    ensures b <= n
    ensures 0 <= i <= n ==> b == i
    ensures i > n ==> b == n
    ensures i < 0 ==> b == if n + i < 0 then 0 else n + i
  {
    if i < 0 then (if n + i < 0 then 0 else n + i)
    else if i > n then n
    else i
  }

  /** `xs[i:]` */
  function SliceFrom<T>(xs: seq<T>, i: int): (r: seq<T>)
    ensures |r| <= |xs|
    ensures 0 <= i <= |xs| ==> r == xs[i..]
  {
    xs[SliceBound(i, |xs|)..]
  }

  /** `xs[:j]` */
  function SliceTo<T>(xs: seq<T>, j: int): (r: seq<T>)
    ensures |r| <= |xs|
    ensures 0 <= j <= |xs| ==> r == xs[..j]
    ensures j >= |xs| ==> r == xs
  {
    xs[..SliceBound(j, |xs|)]
  }
}

/** Optional values and results with an error channel. */
module Optional {

  /** A value that may be absent: a markup element that was not found, a
      number that did not parse. */
  datatype Option<+T> = None | Some(value: T) {

    /** The value, or `default` when absent (`x || default` on a missing element). */
    function GetOr(default: T): (r: T)
      ensures Some? ==> r == value
      ensures None? ==> r == default
    {
      if Some? then value else default
    }
  }

  /** The values of the present elements of `xs`, in order. */
  function Present<T>(xs: seq<Option<T>>): (r: seq<T>)
    ensures |r| <= |xs|
    ensures (forall i :: 0 <= i < |xs| ==> xs[i].Some?) ==> |r| == |xs| && forall i :: 0 <= i < |xs| ==> r[i] == xs[i].value
    ensures (forall i :: 0 <= i < |xs| ==> xs[i].None?) ==> r == []
  {
    if xs == [] then []
    else (if xs[0].Some? then [xs[0].value] else []) + Present(xs[1..])
  }

  /** Keeping the present elements distributes over concatenation. */
  lemma {:induction false} PresentAppend<T>(a: seq<Option<T>>, b: seq<Option<T>>)
    ensures Present(a + b) == Present(a) + Present(b)
  {
    if a == [] {
      assert a + b == b;
    } else {
      assert (a + b)[0] == a[0];
      assert (a + b)[1..] == a[1..] + b;
      PresentAppend(a[1..], b);
    }
  }

  /** The outcome of a computation that may raise an exception. */
  datatype Result<+T, +E> = Ok(value: T) | Err(error: E)
}

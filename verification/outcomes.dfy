/** Success/failure values shared by every part of the model, and the HTTP
    error an endpoint answers with when it raises. */
module Outcomes {

  datatype Option<+T> = None | Some(value: T)

  datatype Result<+R, +E> = Success(value: R) | Failure(error: E)

  /** An HTTP error response: the status code and the fixed part of the
      detail message (text that Python interpolates from an exception is
      not modelled). */
  datatype HttpError = HttpError(status: nat, detail: string)

  /** What the web framework answers when an exception escapes an endpoint
      unhandled. */
  const Unhandled := HttpError(500, "Internal Server Error")

  /** Calls `f` on the first `n` items in order and stops at the first item
      whose call fails, reporting that item; otherwise one result per item,
      in order. This is the shape of a Python loop that appends one result
      per item and re-raises the first exception. */
  function MapPrefix<A, B>(xs: seq<A>, f: A -> Option<B>, n: nat): (r: Result<seq<B>, A>)
    requires n <= |xs|
    ensures r.Success? ==> |r.value| == n
    ensures r.Success? ==> forall i :: 0 <= i < n ==> f(xs[i]) == Some(r.value[i])
    ensures r.Failure? ==> r.error in xs[..n] && f(r.error).None?
  {
    if n == 0 then Success([])
    else match MapPrefix(xs, f, n - 1)
      case Failure(x) => Failure(x)
      case Success(ys) =>
        match f(xs[n - 1])
        case None => Failure(xs[n - 1])
        case Some(y) => Success(ys + [y])
  }

  /** The whole loop over `xs`. */
  function MapUntilFailure<A, B>(xs: seq<A>, f: A -> Option<B>): (r: Result<seq<B>, A>)
    ensures r.Success? ==> |r.value| == |xs|
    ensures r.Success? ==> forall i :: 0 <= i < |xs| ==> f(xs[i]) == Some(r.value[i])
    ensures r.Failure? ==> r.error in xs && f(r.error).None?
  {
    assert xs[..|xs|] == xs;
    MapPrefix(xs, f, |xs|)
  }

  /** The failure reported is the FIRST failing item: every item before it
      succeeds. And when every item succeeds, so does the loop. */
  lemma {:induction false} MapPrefixFirst<A, B>(xs: seq<A>, f: A -> Option<B>, n: nat)
    requires n <= |xs|
    ensures MapPrefix(xs, f, n).Failure? <==> exists i :: 0 <= i < n && f(xs[i]).None?
    ensures MapPrefix(xs, f, n).Failure? ==>
      exists i :: 0 <= i < n && xs[i] == MapPrefix(xs, f, n).error &&
                  f(xs[i]).None? && forall j :: 0 <= j < i ==> f(xs[j]).Some?
  {
    if n > 0 {
      MapPrefixFirst(xs, f, n - 1);
      if MapPrefix(xs, f, n - 1).Success? && f(xs[n - 1]).None? {
        assert forall j :: 0 <= j < n - 1 ==> f(xs[j]).Some?;
      }
    }
  }

  /** `MapPrefixFirst` for the whole loop. */
  lemma MapUntilFailureFirst<A, B>(xs: seq<A>, f: A -> Option<B>)
    ensures MapUntilFailure(xs, f).Failure? <==> exists i :: 0 <= i < |xs| && f(xs[i]).None?
    ensures MapUntilFailure(xs, f).Failure? ==>
      exists i :: 0 <= i < |xs| && xs[i] == MapUntilFailure(xs, f).error &&
                  f(xs[i]).None? && forall j :: 0 <= j < i ==> f(xs[j]).Some?
  {
    MapPrefixFirst(xs, f, |xs|);
  }

  /** Once the loop has failed it stops: later items change nothing. */
  lemma {:induction false} MapPrefixStops<A, B>(xs: seq<A>, f: A -> Option<B>, i: nat, n: nat)
    requires i <= n <= |xs| && MapPrefix(xs, f, i).Failure?
    ensures MapPrefix(xs, f, n) == MapPrefix(xs, f, i)
  {
    if i < n {
      MapPrefixStops(xs, f, i, n - 1);
    }
  }
}

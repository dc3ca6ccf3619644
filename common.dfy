/** Values shared by every component: bytes, the failure-carrying wrappers the
    three languages use for "a value or an error", and JavaScript property reads. */
module Common {

  /** One octet of a file, as Rust's `u8`, Python's `bytes` element and a
      JavaScript `Uint8Array` element all are. */
  newtype byte = x: int | 0 <= x < 256

  type Bytes = seq<byte>

  datatype Option<+T> = None | Some(value: T)

  /** Rust's `Result`, a Python exception, or a rejected JavaScript call. */
  datatype Result<+T, +E> = Success(value: T) | Failure(error: E)

  /** What reading a property of a JavaScript object yields: a string, or
      `undefined` when the object has no such property. */
  datatype JsValue = Undefined | JsString(text: string)

  /** A sequential loop that maps `f` over `xs` in order and stops at the first
      element whose step fails, as a `for ... of` loop whose body may throw.
      Defined from the back so that each prefix is a loop state. */
  function MapOrAbort<A, B, E>(xs: seq<A>, f: A -> Result<B, E>): Result<seq<B>, E>
    decreases |xs|
  {
    if xs == [] then Success([])
    else
      match MapOrAbort(xs[..|xs| - 1], f)
      case Failure(e) => Failure(e)
      case Success(ys) =>
        match f(xs[|xs| - 1])
        case Failure(e) => Failure(e)
        case Success(y) => Success(ys + [y])
  }

  /** The loop succeeds exactly when every step does, and then yields one result
      per element, in order; otherwise it reports the error of the first failing
      step, every earlier step having succeeded. */
  lemma {:induction false} MapOrAbortSpec<A, B, E>(xs: seq<A>, f: A -> Result<B, E>)
    ensures MapOrAbort(xs, f).Success? <==> forall i :: 0 <= i < |xs| ==> f(xs[i]).Success?
    ensures MapOrAbort(xs, f).Success? ==>
              |MapOrAbort(xs, f).value| == |xs| &&
              forall i :: 0 <= i < |xs| ==> MapOrAbort(xs, f).value[i] == f(xs[i]).value
    ensures MapOrAbort(xs, f).Failure? ==>
              exists k :: 0 <= k < |xs| && f(xs[k]).Failure? &&
                MapOrAbort(xs, f).error == f(xs[k]).error &&
                forall j :: 0 <= j < k ==> f(xs[j]).Success?
    decreases |xs|
  {
    if xs != [] {
      var init := xs[..|xs| - 1];
      MapOrAbortSpec(init, f);
      assert forall i :: 0 <= i < |init| ==> init[i] == xs[i];
      match MapOrAbort(init, f)
      case Failure(e) =>
        var k :| 0 <= k < |init| && f(init[k]).Failure? && e == f(init[k]).error &&
                 forall j :: 0 <= j < k ==> f(init[j]).Success?;
        assert f(xs[k]).Failure?;
      case Success(ys) =>
        if f(xs[|xs| - 1]).Failure? {
          assert forall j :: 0 <= j < |xs| - 1 ==> f(xs[j]).Success?;
        }
    }
  }

  /** Once a prefix of the loop has failed, the whole loop fails with that error:
      the later elements are never looked at. */
  lemma {:induction false} MapOrAbortStops<A, B, E>(xs: seq<A>, n: nat, f: A -> Result<B, E>)
    requires n <= |xs|
    requires MapOrAbort(xs[..n], f).Failure?
    ensures MapOrAbort(xs, f) == MapOrAbort(xs[..n], f)
    decreases |xs| - n
  {
    if n < |xs| {
      assert xs[..n + 1][..n] == xs[..n];
      MapOrAbortStops(xs, n + 1, f);
    } else {
      assert xs[..n] == xs;
    }
  }
}

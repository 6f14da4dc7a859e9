/** Python loops that `extend` a result list: a step turns each element
    into a run of values, the runs are concatenated in element order, and
    the first step that raises ends the loop. */
module Runs {
  import opened Wrappers

  /** Run `f` over every element and concatenate the runs in order; the
      first failure is the answer. */
  function ConcatAll<T, U, E>(xs: seq<T>, f: T -> Result<seq<U>, E>): (r: Result<seq<U>, E>)
    ensures r.Ok? <==> forall k :: 0 <= k < |xs| ==> f(xs[k]).Ok?
    ensures r.Ok? ==> forall n :: n in r.value ==> exists k :: 0 <= k < |xs| && f(xs[k]).Ok? && n in f(xs[k]).value
    ensures r.Err? ==> exists k :: 0 <= k < |xs| && f(xs[k]).Err? && r.error == f(xs[k]).error
                                   && forall j :: 0 <= j < k ==> f(xs[j]).Ok?
    decreases |xs|
  {
    if xs == [] then Ok([])
    else
      assert forall k :: 1 <= k < |xs| ==> xs[k] == xs[1..][k - 1];
      match f(xs[0])
      case Err(e) => Err(e)
      case Ok(head) =>
        match ConcatAll(xs[1..], f)
        case Err(e) => Err(e)
        case Ok(tail) => Ok(head + tail)
  }

  /** A single element contributes exactly its own run, or its own
      failure. */
  lemma ConcatAllOne<T, U, E>(x: T, f: T -> Result<seq<U>, E>)
    ensures ConcatAll([x], f) == f(x)
  {
    assert [x][1..] == [];
    if f(x).Ok? {
      assert f(x).value + [] == f(x).value;
    }
  }

  /** Running the loop over two lists one after the other is running it
      over their concatenation: every element contributes its run in
      place, so the result is the runs in element order. */
  lemma {:induction false} ConcatAllAppend<T, U, E>(xs: seq<T>, ys: seq<T>, f: T -> Result<seq<U>, E>)
    requires ConcatAll(xs, f).Ok? && ConcatAll(ys, f).Ok?
    ensures ConcatAll(xs + ys, f) == Ok(ConcatAll(xs, f).value + ConcatAll(ys, f).value)
    decreases |xs|
  {
    var ty := ConcatAll(ys, f).value;
    if xs == [] {
      assert xs + ys == ys;
      assert [] + ty == ty;
    } else {
      var h := f(xs[0]).value;
      var tx := ConcatAll(xs[1..], f).value;
      assert ConcatAll(xs, f) == Ok(h + tx) by {
        ConcatAllCons(xs, f);
      }
      assert ConcatAll(xs[1..] + ys, f) == Ok(tx + ty) by {
        ConcatAllAppend(xs[1..], ys, f);
      }
      assert ConcatAll(xs + ys, f) == Ok(h + (tx + ty)) by {
        assert (xs + ys)[0] == xs[0];
        assert (xs + ys)[1..] == xs[1..] + ys;
        ConcatAllCons(xs + ys, f);
      }
      assert h + (tx + ty) == (h + tx) + ty;
    }
  }

  /** One unrolling of the loop. */
  lemma ConcatAllCons<T, U, E>(xs: seq<T>, f: T -> Result<seq<U>, E>)
    requires xs != [] && f(xs[0]).Ok? && ConcatAll(xs[1..], f).Ok?
    ensures ConcatAll(xs, f) == Ok(f(xs[0]).value + ConcatAll(xs[1..], f).value)
  {
  }
}

/** Values of the Go runtime that the model needs: bytes and run-time panics. */
module Go {

  newtype byte = b: int | 0 <= b < 256

  type Bytes = seq<byte>

  /** A run-time panic; the only one the code can raise is indexing a slice past its end. */
  datatype Panic = IndexOutOfRange(index: nat, length: nat)

  /** What a Go call does: returns a value, or panics. */
  datatype Outcome<+T> = Returned(value: T) | Panicked(panic: Panic)

  /** Running `f` on each element in order, collecting the results; the first panic
      stops the run and is the outcome. */
  function Each<A, B>(xs: seq<A>, f: A -> Outcome<B>): Outcome<seq<B>>
  {
    if xs == [] then Returned([])
    else
      match Each(xs[..|xs| - 1], f)
      case Panicked(p) => Panicked(p)
      case Returned(ys) =>
        match f(xs[|xs| - 1])
        case Panicked(p) => Panicked(p)
        case Returned(y) => Returned(ys + [y])
  }

  /** The run completes exactly when no element panics, and then it holds one result per
      element, in order. */
  lemma {:induction false} EachReturns<A, B>(xs: seq<A>, f: A -> Outcome<B>)
    ensures Each(xs, f).Returned? <==> forall i | 0 <= i < |xs| :: f(xs[i]).Returned?
    ensures Each(xs, f).Returned? ==>
      |Each(xs, f).value| == |xs| && forall i | 0 <= i < |xs| :: f(xs[i]) == Returned(Each(xs, f).value[i])
  {
    if xs != [] {
      var n := |xs| - 1;
      var init := xs[..n];
      EachReturns(init, f);
      assert forall i | 0 <= i < n :: init[i] == xs[i];
      match Each(init, f)
      case Panicked(_) =>
        var i :| 0 <= i < n && !f(init[i]).Returned?;
        assert !f(xs[i]).Returned?;
      case Returned(ys) =>
        match f(xs[n])
        case Panicked(_) =>
        case Returned(y) =>
          var all := ys + [y];
          forall i | 0 <= i < |xs| ensures f(xs[i]) == Returned(all[i]) {
            if i < n {
              assert all[i] == ys[i];
            }
          }
    }
  }

  /** A panic is the panic of some element, the first one that panics. */
  lemma {:induction false} EachPanics<A, B>(xs: seq<A>, f: A -> Outcome<B>)
    requires Each(xs, f).Panicked?
    ensures exists i | 0 <= i < |xs| ::
      (f(xs[i]) == Panicked(Each(xs, f).panic) && forall j | 0 <= j < i :: f(xs[j]).Returned?)
  {
    var n := |xs| - 1;
    var init := xs[..n];
    assert forall j | 0 <= j < n :: init[j] == xs[j];
    if Each(init, f).Panicked? {
      EachPanics(init, f);
      var i :| 0 <= i < n && f(init[i]) == Panicked(Each(init, f).panic) && forall j | 0 <= j < i :: f(init[j]).Returned?;
      assert f(xs[i]) == Panicked(Each(xs, f).panic);
    } else {
      EachReturns(init, f);
      assert f(xs[n]) == Panicked(Each(xs, f).panic);
    }
  }

  /** Once a prefix panics, the whole run does, with the same panic. */
  lemma {:induction false} EachPanicPersists<A, B>(xs: seq<A>, f: A -> Outcome<B>, n: nat)
    requires n <= |xs| && Each(xs[..n], f).Panicked?
    ensures Each(xs, f) == Each(xs[..n], f)
    decreases |xs| - n
  {
    if n < |xs| {
      assert xs[..n + 1][..n] == xs[..n];
      EachPanicPersists(xs, f, n + 1);
    } else {
      assert xs[..n] == xs;
    }
  }
}

/**
 * The two ways the modelled code combines the results of a sequence of
 * steps that may raise: extending one list by every step's list, where the
 * first exception ends the loop (`packages.extend(...)` in a `for` loop), and
 * trying steps in turn until one does not raise KeyError (the `try ... except
 * KeyError: pass` loops of `APTSources`).
 */
module Results {

  import opened Wrappers
  import opened PyExceptions

  /** The concatenation of a sequence of lists. */
  function Flatten<T>(xss: seq<seq<T>>): seq<T>
    decreases |xss|
  {
    if xss == [] then [] else Flatten(xss[..|xss| - 1]) + xss[|xss| - 1]
  }

  lemma {:induction false} FlattenMember<T>(xss: seq<seq<T>>, x: T)
    ensures x in Flatten(xss) <==> exists j :: 0 <= j < |xss| && x in xss[j]
    decreases |xss|
  {
    if xss != [] {
      var n := |xss| - 1;
      FlattenMember(xss[..n], x);
      assert forall j :: 0 <= j < n ==> xss[..n][j] == xss[j];
    }
  }

  /** The concatenation starts with the first list. */
  lemma {:induction false} FlattenFront<T>(xss: seq<seq<T>>)
    requires xss != []
    ensures Flatten(xss) == xss[0] + Flatten(xss[1..])
    decreases |xss|
  {
    var n := |xss| - 1;
    if n == 0 {
      assert xss[1..] == [] && xss[..0] == [];
    } else {
      var init, tail := xss[..n], xss[1..];
      FlattenFront(init);
      assert init[0] == xss[0];
      assert init[1..] == tail[..n - 1];
      assert tail[n - 1] == xss[n];
      assert Flatten(tail) == Flatten(tail[..n - 1]) + xss[n];
      assert Flatten(xss) == Flatten(init) + xss[n];
    }
  }

  /** A step per element of `xs`, in order. */
  function Map<A, B>(xs: seq<A>, f: A -> B): (ys: seq<B>)
    ensures |ys| == |xs| && forall k :: 0 <= k < |xs| ==> ys[k] == f(xs[k])
  {
    seq(|xs|, k requires 0 <= k < |xs| => f(xs[k]))
  }

  /** The steps for a non-empty list are those for all but its last element, then the last one's. */
  lemma MapSnoc<A, B>(xs: seq<A>, f: A -> B)
    requires xs != []
    ensures Map(xs, f) == Map(xs[..|xs| - 1], f) + [f(xs[|xs| - 1])]
  {
    var n := |xs| - 1;
    assert forall k :: 0 <= k < n ==> xs[..n][k] == xs[k];
  }

  /** The steps for two lists one after the other are the steps for each, in order. */
  lemma MapAppend<A, B>(xs: seq<A>, ys: seq<A>, f: A -> B)
    ensures Map(xs + ys, f) == Map(xs, f) + Map(ys, f)
  {
    assert forall k :: 0 <= k < |xs| ==> (xs + ys)[k] == xs[k];
    assert forall k :: |xs| <= k < |xs| + |ys| ==> (xs + ys)[k] == ys[k - |xs|];
  }

  /** The list each step produced, once every step has succeeded. */
  function Values<T>(rs: seq<Result<seq<T>, Exception>>): (vs: seq<seq<T>>)
    requires forall j :: 0 <= j < |rs| ==> rs[j].Success?
    ensures |vs| == |rs| && forall j :: 0 <= j < |rs| ==> vs[j] == rs[j].value
  {
    seq(|rs|, j requires 0 <= j < |rs| => rs[j].value)
  }

  /**
   * The list after running the steps in order and extending it by each
   * result; the first failure propagates and the later steps do not run.
   */
  function ConcatAll<T>(rs: seq<Result<seq<T>, Exception>>): Result<seq<T>, Exception>
    decreases |rs|
  {
    if rs == [] then Success([])
    else
      var init :- ConcatAll(rs[..|rs| - 1]);
      var last :- rs[|rs| - 1];
      Success(init + last)
  }

  /** One more step of the loop. */
  lemma ConcatAllStep<T>(rs: seq<Result<seq<T>, Exception>>, i: nat, acc: seq<T>)
    requires i < |rs| && ConcatAll(rs[..i]) == Success(acc)
    ensures rs[i].Success? ==> ConcatAll(rs[..i + 1]) == Success(acc + rs[i].value)
    ensures rs[i].Failure? ==> ConcatAll(rs[..i + 1]) == Failure(rs[i].error)
  {
    assert rs[..i + 1][..i] == rs[..i];
  }

  /** Once a prefix of the steps has failed, the whole run fails the same way. */
  lemma {:induction false} ConcatAllPrefix<T>(rs: seq<Result<seq<T>, Exception>>, k: nat)
    requires k <= |rs| && ConcatAll(rs[..k]).Failure?
    ensures ConcatAll(rs) == ConcatAll(rs[..k])
    decreases |rs| - k
  {
    if k < |rs| {
      var n := |rs| - 1;
      assert rs[..n][..k] == rs[..k];
      ConcatAllPrefix(rs[..n], k);
      assert rs[..|rs|] == rs;
    } else {
      assert rs[..k] == rs;
    }
  }

  /** The run succeeds exactly when every step does, and then gives their lists concatenated in order. */
  lemma {:induction false} ConcatAllSuccess<T>(rs: seq<Result<seq<T>, Exception>>)
    ensures ConcatAll(rs).Success? <==> forall j :: 0 <= j < |rs| ==> rs[j].Success?
    ensures ConcatAll(rs).Success? ==> ConcatAll(rs).value == Flatten(Values(rs))
    decreases |rs|
  {
    if rs != [] {
      var n := |rs| - 1;
      var init := rs[..n];
      ConcatAllSuccess(init);
      assert forall j :: 0 <= j < n ==> init[j] == rs[j];
      if ConcatAll(rs).Success? {
        assert Values(rs)[..n] == Values(init);
      }
    }
  }

  /** A failing run fails with the exception of its first failing step. */
  lemma {:induction false} ConcatAllFirstFailure<T>(rs: seq<Result<seq<T>, Exception>>, k: nat)
    requires k < |rs| && rs[k].Failure?
    requires forall j :: 0 <= j < k ==> rs[j].Success?
    ensures ConcatAll(rs) == Failure(rs[k].error)
  {
    var pre := rs[..k];
    assert forall j :: 0 <= j < k ==> pre[j] == rs[j];
    ConcatAllSuccess(pre);
    ConcatAllStep(rs, k, ConcatAll(pre).value);
    ConcatAllPrefix(rs, k + 1);
  }

  /**
   * The run over two blocks of steps: the first block's failure, else the
   * second block's failure, else the first block's list followed by the
   * second's.
   */
  lemma {:induction false} ConcatAllAppend<T>(rs: seq<Result<seq<T>, Exception>>, qs: seq<Result<seq<T>, Exception>>)
    ensures ConcatAll(rs).Failure? ==> ConcatAll(rs + qs) == ConcatAll(rs)
    ensures ConcatAll(rs).Success? && ConcatAll(qs).Failure? ==> ConcatAll(rs + qs) == Failure(ConcatAll(qs).error)
    ensures ConcatAll(rs).Success? && ConcatAll(qs).Success? ==> ConcatAll(rs + qs) == Success(ConcatAll(rs).value + ConcatAll(qs).value)
    decreases |qs|
  {
    if qs == [] {
      assert rs + qs == rs;
      if ConcatAll(rs).Success? {
        assert ConcatAll(rs).value + [] == ConcatAll(rs).value;
      }
    } else {
      var n := |qs| - 1;
      assert (rs + qs)[..|rs + qs| - 1] == rs + qs[..n];
      assert (rs + qs)[|rs + qs| - 1] == qs[n];
      ConcatAllAppend(rs, qs[..n]);
      if ConcatAll(rs).Success? && ConcatAll(qs[..n]).Success? && qs[n].Success? {
        var a, b, c := ConcatAll(rs).value, ConcatAll(qs[..n]).value, qs[n].value;
        assert (a + b) + c == a + (b + c);
      }
    }
  }

  /** A single step's run is that step. */
  lemma ConcatAllOne<T>(r: Result<seq<T>, Exception>)
    ensures ConcatAll([r]) == r
  {
    var rs := [r];
    var none: seq<Result<seq<T>, Exception>> := [];
    assert rs[..0] == none;
    if r.Success? {
      var empty: seq<T> := [];
      assert empty + r.value == r.value;
    }
  }

  /**
   * The loop that returns the first step's result that is not a KeyError;
   * when every step raises KeyError it raises KeyError(name, version).
   * Any other exception propagates at once.
   */
  function FirstNonKeyError<T>(rs: seq<Result<T, Exception>>, name: string, version: string): Result<T, Exception>
    decreases |rs|
  {
    if rs == [] then Failure(KeyError(name, version))
    else if IsKeyError(rs[0]) then FirstNonKeyError(rs[1..], name, version)
    else rs[0]
  }

  /** The first step that does not raise KeyError decides the result, whatever the later ones do. */
  lemma {:induction false} FirstNonKeyErrorWins<T>(rs: seq<Result<T, Exception>>, name: string, version: string, k: nat)
    requires k < |rs| && !IsKeyError(rs[k])
    requires forall j :: 0 <= j < k ==> IsKeyError(rs[j])
    ensures FirstNonKeyError(rs, name, version) == rs[k]
    decreases k
  {
    if k > 0 {
      FirstNonKeyErrorWins(rs[1..], name, version, k - 1);
    }
  }

  /** The loop raises KeyError exactly when every step does, and then it is KeyError(name, version). */
  lemma {:induction false} FirstNonKeyErrorMiss<T>(rs: seq<Result<T, Exception>>, name: string, version: string)
    ensures IsKeyError(FirstNonKeyError(rs, name, version)) <==> forall j :: 0 <= j < |rs| ==> IsKeyError(rs[j])
    ensures IsKeyError(FirstNonKeyError(rs, name, version)) ==> FirstNonKeyError(rs, name, version) == Failure(KeyError(name, version))
    decreases |rs|
  {
    if rs != [] {
      FirstNonKeyErrorMiss(rs[1..], name, version);
      assert forall j :: 1 <= j < |rs| ==> rs[j] == rs[1..][j - 1];
    }
  }
}

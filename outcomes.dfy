/** Failure-carrying values shared by the build modules. */
module Outcomes {

  datatype Option<+T> = None | Some(value: T)

  /** The ways a build step throws, named after the statement that throws. */
  datatype Error =
    | MissingFile(path: string)      // copySync/readFileSync of a file that is not there
    | ReadDirectory(path: string)    // readFileSync on a path that exists but is a directory (EISDIR)
    | NoReferences                   // `match` found no src/href token, so `.map` is called on null
    | NoMainScript                   // `exec` found no `src="...?pr1_module=1"`, so `[1]` is read from null
    | NoMarkerLine                   // `exec` found no marker line, so `[0]` is read from null
    | NoRollupConfig                 // `config.rollupConfig.plugins` is read with no `rollupConfig`
    | RollupFailed(message: string)  // `rollup.rollup` or `generate` rejected
    | BabelFailed(message: string)   // `babel.transform` threw, on a syntax error say
    | MinifyFailed(message: string)  // uglify returned an error result, which is rethrown
    | NullAppRoot                    // path.resolve was handed null instead of a directory

  datatype Result<+T> = Ok(value: T) | Err(error: Error)

  /** `xs.map(f)` with a callback that may throw: the callback runs on each element in order,
      and the first failure ends the whole map. */
  function MapOrFail<A, B>(f: A -> Result<B>, xs: seq<A>): Result<seq<B>>
    decreases |xs|
  {
    if xs == [] then Ok([])
    else
      match MapOrFail(f, xs[..|xs| - 1])
      case Err(e) => Err(e)
      case Ok(ys) =>
        match f(xs[|xs| - 1])
        case Err(e) => Err(e)
        case Ok(y) => Ok(ys + [y])
  }

  /** A one-element map is the callback's result. */
  lemma MapOrFailSingle<A, B>(f: A -> Result<B>, x: A)
    requires f(x).Ok?
    ensures MapOrFail(f, [x]) == Ok([f(x).value])
  {
    assert [x][..0] == [];
    assert MapOrFail(f, []) == Ok([]);
    assert [] + [f(x).value] == [f(x).value];
  }

  /** Mapping the same element twice gives its value twice. */
  lemma MapOrFailTwice<A, B>(f: A -> Result<B>, x: A)
    requires f(x).Ok?
    ensures MapOrFail(f, [x, x]) == Ok([f(x).value, f(x).value])
  {
    MapOrFailSingle(f, x);
    assert [x, x][..1] == [x];
    assert [f(x).value] + [f(x).value] == [f(x).value, f(x).value];
  }

  /** Once the map fails on a prefix, it fails the same way on the whole list. */
  lemma {:induction false} MapOrFailFailureSticks<A, B>(f: A -> Result<B>, xs: seq<A>, n: nat)
    requires n <= |xs|
    requires MapOrFail(f, xs[..n]).Err?
    decreases |xs| - n
    ensures MapOrFail(f, xs) == MapOrFail(f, xs[..n])
  {
    if n < |xs| {
      assert xs[..n + 1][..n] == xs[..n];
      MapOrFailFailureSticks(f, xs, n + 1);
    } else {
      assert xs[..n] == xs;
    }
  }

  /** The map fails exactly when the callback fails on some element, and then with the error of
      the first such element. */
  lemma {:induction false} MapOrFailFailsIff<A, B>(f: A -> Result<B>, xs: seq<A>)
    decreases |xs|
    ensures MapOrFail(f, xs).Err? <==> exists k :: 0 <= k < |xs| && f(xs[k]).Err?
    ensures MapOrFail(f, xs).Err? ==>
              exists k :: 0 <= k < |xs| && f(xs[k]) == Err(MapOrFail(f, xs).error)
                          && forall j :: 0 <= j < k ==> f(xs[j]).Ok?
  {
    if xs != [] {
      var init := xs[..|xs| - 1];
      MapOrFailFailsIff(f, init);
      assert forall k :: 0 <= k < |init| ==> init[k] == xs[k];
    }
  }

  /** A map that does not fail gives the callback's result for every element, in order. */
  lemma {:induction false} MapOrFailEntries<A, B>(f: A -> Result<B>, xs: seq<A>)
    requires MapOrFail(f, xs).Ok?
    decreases |xs|
    ensures |MapOrFail(f, xs).value| == |xs|
    ensures forall k :: 0 <= k < |xs| ==> f(xs[k]) == Ok(MapOrFail(f, xs).value[k])
  {
    if xs != [] {
      var init := xs[..|xs| - 1];
      MapOrFailEntries(f, init);
      assert forall k :: 0 <= k < |init| ==> init[k] == xs[k];
    }
  }

  /** A sequence of steps that each take the state left by the one before and may throw: the
      first failure ends the run. */
  function Thread<S, A>(f: (S, A) -> Result<S>, s: S, xs: seq<A>): Result<S>
    decreases |xs|
  {
    if xs == [] then Ok(s)
    else
      match Thread(f, s, xs[..|xs| - 1])
      case Err(e) => Err(e)
      case Ok(t) => f(t, xs[|xs| - 1])
  }

  /** Once the run fails on a prefix, it fails the same way on the whole list. */
  lemma {:induction false} ThreadFailureSticks<S, A>(f: (S, A) -> Result<S>, s: S, xs: seq<A>, n: nat)
    requires n <= |xs|
    requires Thread(f, s, xs[..n]).Err?
    decreases |xs| - n
    ensures Thread(f, s, xs) == Thread(f, s, xs[..n])
  {
    if n < |xs| {
      assert xs[..n + 1][..n] == xs[..n];
      ThreadFailureSticks(f, s, xs, n + 1);
    } else {
      assert xs[..n] == xs;
    }
  }

  /** One more step of a run that has not failed yet: its failure is the run's failure, and
      otherwise the run goes on from the state it leaves. */
  lemma ThreadStep<S, A>(f: (S, A) -> Result<S>, s: S, xs: seq<A>, i: nat)
    requires i < |xs| && Thread(f, s, xs[..i]).Ok?
    ensures Thread(f, s, xs[..i + 1]) == f(Thread(f, s, xs[..i]).value, xs[i])
    ensures f(Thread(f, s, xs[..i]).value, xs[i]).Err? ==> Thread(f, s, xs) == f(Thread(f, s, xs[..i]).value, xs[i])
  {
    assert xs[..i + 1][..i] == xs[..i];
    if f(Thread(f, s, xs[..i]).value, xs[i]).Err? {
      ThreadFailureSticks(f, s, xs, i + 1);
    }
  }

  /** A run that fails does so at one step, taken from the state the steps before it left. */
  lemma {:induction false} ThreadFailsAt<S, A>(f: (S, A) -> Result<S>, s: S, xs: seq<A>)
    requires Thread(f, s, xs).Err?
    decreases |xs|
    ensures exists k :: 0 <= k < |xs| && Thread(f, s, xs[..k]).Ok? && f(Thread(f, s, xs[..k]).value, xs[k]) == Thread(f, s, xs)
  {
    var n := |xs| - 1;
    var init := xs[..n];
    if Thread(f, s, init).Err? {
      ThreadFailsAt(f, s, init);
      var k :| 0 <= k < |init| && Thread(f, s, init[..k]).Ok? && f(Thread(f, s, init[..k]).value, init[k]) == Thread(f, s, init);
      assert init[..k] == xs[..k];
    } else {
      assert xs[..n] == init;
    }
  }

  /** A run fails exactly when one of its steps fails on the state the steps before it left. */
  lemma ThreadFailsIff<S, A>(f: (S, A) -> Result<S>, s: S, xs: seq<A>)
    ensures Thread(f, s, xs).Err? <==>
              exists k :: 0 <= k < |xs| && Thread(f, s, xs[..k]).Ok? && f(Thread(f, s, xs[..k]).value, xs[k]).Err?
  {
    if Thread(f, s, xs).Err? {
      ThreadFailsAt(f, s, xs);
    }
    forall k | 0 <= k < |xs| && Thread(f, s, xs[..k]).Ok? && f(Thread(f, s, xs[..k]).value, xs[k]).Err?
      ensures Thread(f, s, xs).Err?
    {
      ThreadStep(f, s, xs, k);
    }
  }
}

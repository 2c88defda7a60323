/**
 * The overload ladders of `pipe` (immutable.d.ts:962-1016) and `compose`
 * (immutable.d.ts:253-316).  A call is a sequence of function types; the
 * model gives the type of the composed function, or `None` when no overload
 * accepts the call.
 */
module Composition {
  import opened Types

  /** The number of stages whose types every overload threads one into the next. */
  const MaxThreaded: nat := 7

  /**
   * `next` may stand where `(a: R) => R'` is expected, with `R` the result of
   * `prev` and `R'` inferred from `next`'s own result.
   */
  predicate Feeds(prev: Ty, next: Ty)
  {
    prev.Fun? && next.Fun? && Assignable(next, Fun([prev.res], next.res))
  }

  /** Left to right: every stage is a function and each one after the first accepts its predecessor's result. */
  predicate Threaded(fs: seq<Ty>)
  {
    (forall i :: 0 <= i < |fs| ==> fs[i].Fun?)
    && forall i :: 0 < i < |fs| ==> Feeds(fs[i - 1], fs[i])
  }

  /** Right to left: every stage is a function and each one before the last accepts its successor's result. */
  predicate ThreadedBackward(fs: seq<Ty>)
  {
    (forall i :: 0 <= i < |fs| ==> fs[i].Fun?)
    && forall i :: 0 <= i < |fs| - 1 ==> Feeds(fs[i + 1], fs[i])
  }

  /** `(a: any) => any`: a function of at most one parameter, whatever its types. */
  predicate Loose(f: Ty)
  {
    f.Fun? && |f.params| <= 1
  }

  /**
   * `pipe(f1, ..., fn)`.  The fallback overload, listed first, needs at least
   * eight stages: it threads the first seven, asks only `(a: any) => any` of
   * the rest, and takes its result from the last.  The exact overloads take
   * one to seven stages and thread them all.
   */
  function PipeType(fs: seq<Ty>): (r: Option<Ty>)
    ensures r.Some? ==> |fs| >= 1 && fs[0].Fun? && fs[|fs| - 1].Fun? && r.value == Fun(fs[0].params, fs[|fs| - 1].res)
    // every stage after the first fits `(a: any) => any`
    ensures r.Some? ==> forall i :: 0 < i < |fs| ==> Loose(fs[i])
  {
    if |fs| > MaxThreaded then
      if Threaded(fs[..MaxThreaded]) && (forall i :: MaxThreaded <= i < |fs| ==> Loose(fs[i])) then
        ThreadedStagesAreLoose(fs[..MaxThreaded]);
        Some(Fun(fs[0].params, fs[|fs| - 1].res))
      else None
    else if |fs| >= 1 && Threaded(fs) then
      ThreadedStagesAreLoose(fs);
      Some(Fun(fs[0].params, fs[|fs| - 1].res))
    else None
  }

  /**
   * `compose(fn, ..., f1)`: the arguments are listed last stage first.  The
   * fallback threads the seven stages at the end of the list and asks only
   * `(a: any) => any` of the ones before them.  The second declared overload
   * (immutable.d.ts:266-274) differs from the third only by an unused type
   * parameter, so both are the seven-stage case here.
   */
  function ComposeType(fs: seq<Ty>): (r: Option<Ty>)
    ensures r.Some? ==> |fs| >= 1 && fs[|fs| - 1].Fun? && fs[0].Fun? && r.value == Fun(fs[|fs| - 1].params, fs[0].res)
    // every stage before the last listed fits `(a: any) => any`
    ensures r.Some? ==> forall i :: 0 <= i < |fs| - 1 ==> Loose(fs[i])
  {
    var n := |fs|;
    if n > MaxThreaded then
      if (forall i :: 0 <= i < n - MaxThreaded ==> Loose(fs[i])) && ThreadedBackward(fs[n - MaxThreaded..]) then
        BackwardStagesAreLoose(fs[n - MaxThreaded..]);
        Some(Fun(fs[n - 1].params, fs[0].res))
      else None
    else if n >= 1 && ThreadedBackward(fs) then
      BackwardStagesAreLoose(fs);
      Some(Fun(fs[n - 1].params, fs[0].res))
    else None
  }

  /** The stages of a call listed in the opposite order. */
  function Reverse(s: seq<Ty>): (r: seq<Ty>)
  {
    seq(|s|, i requires 0 <= i < |s| => s[|s| - 1 - i])
  }

  /** In a threaded chain every stage after the first takes at most one parameter. */
  lemma ThreadedStagesAreLoose(fs: seq<Ty>)
    requires Threaded(fs)
    ensures forall i :: 0 < i < |fs| ==> Loose(fs[i])
  {
    forall i | 0 < i < |fs| ensures Loose(fs[i]) {
      FeedsIff(fs[i - 1], fs[i]);
    }
  }

  /** In a chain threaded right to left every stage before the last takes at most one parameter. */
  lemma BackwardStagesAreLoose(fs: seq<Ty>)
    requires ThreadedBackward(fs)
    ensures forall i :: 0 <= i < |fs| - 1 ==> Loose(fs[i])
  {
    forall i | 0 <= i < |fs| - 1 ensures Loose(fs[i]) {
      FeedsIff(fs[i + 1], fs[i]);
    }
  }

  // ---------------------------------------------------------------------
  // Stage-by-stage threading

  /** A stage accepts its predecessor exactly when it takes at most one parameter and that parameter accepts the predecessor's result. */
  lemma FeedsIff(prev: Ty, next: Ty)
    requires prev.Fun? && next.Fun?
    ensures Feeds(prev, next) <==>
              |next.params| <= 1 && (|next.params| == 1 ==> Assignable(prev.res, next.params[0]))
  {
    AssignableToUnary(next, prev.res, next.res);
    AssignableReflexive(next.res);
  }

  /**
   * A call of one to seven stages type-checks exactly when each stage after
   * the first takes one parameter (or none) that accepts the previous
   * stage's result; the composed function takes the first stage's
   * parameters and returns the last stage's result.
   */
  lemma PipeChecksEveryStage(fs: seq<Ty>)
    requires 1 <= |fs| <= MaxThreaded
    requires forall i :: 0 <= i < |fs| ==> fs[i].Fun?
    ensures PipeType(fs).Some? <==>
              forall i :: 0 < i < |fs| ==>
                |fs[i].params| <= 1 && (|fs[i].params| == 1 ==> Assignable(fs[i - 1].res, fs[i].params[0]))
    ensures PipeType(fs).Some? ==> PipeType(fs).value == Fun(fs[0].params, fs[|fs| - 1].res)
  {
    assert PipeType(fs).Some? <==> Threaded(fs);
    if Threaded(fs) {
      forall i | 0 < i < |fs|
        ensures |fs[i].params| <= 1 && (|fs[i].params| == 1 ==> Assignable(fs[i - 1].res, fs[i].params[0]))
      {
        FeedsIff(fs[i - 1], fs[i]);
      }
    } else {
      var i :| 0 < i < |fs| && !Feeds(fs[i - 1], fs[i]);
      FeedsIff(fs[i - 1], fs[i]);
    }
  }

  /** A chain in which each stage's single parameter is the previous stage's result type is accepted. */
  lemma ExactChainAccepted(fs: seq<Ty>)
    requires 1 <= |fs| <= MaxThreaded
    requires forall i :: 0 <= i < |fs| ==> fs[i].Fun?
    requires forall i :: 0 < i < |fs| ==> fs[i].params == [fs[i - 1].res]
    ensures PipeType(fs) == Some(Fun(fs[0].params, fs[|fs| - 1].res))
  {
    forall i | 0 < i < |fs| ensures Feeds(fs[i - 1], fs[i]) {
      FeedsIff(fs[i - 1], fs[i]);
      AssignableReflexive(fs[i - 1].res);
    }
  }

  /** A chain of two or more stages splits into its head part and the rest fed by the head part's last result. */
  lemma ThreadedSplit(fs: seq<Ty>, gs: seq<Ty>)
    requires |fs| >= 1 && |gs| >= 1 && Threaded(fs + gs)
    ensures Threaded(fs)
    ensures Threaded([Fun(fs[0].params, fs[|fs| - 1].res)] + gs)
  {
    var all := fs + gs;
    forall i | 0 < i < |fs| ensures Feeds(fs[i - 1], fs[i]) {
      assert all[i - 1] == fs[i - 1] && all[i] == fs[i];
    }
    forall i | 0 <= i < |fs| ensures fs[i].Fun? {
      assert all[i] == fs[i];
    }
    var hs := [Fun(fs[0].params, fs[|fs| - 1].res)] + gs;
    forall i | 0 <= i < |hs| ensures hs[i].Fun? {
      if i > 0 {
        assert hs[i] == all[|fs| + i - 1];
      }
    }
    forall i | 0 < i < |hs| ensures Feeds(hs[i - 1], hs[i]) {
      assert Feeds(all[|fs| + i - 2], all[|fs| + i - 1]);
      assert hs[i] == all[|fs| + i - 1];
      if i > 1 {
        assert hs[i - 1] == all[|fs| + i - 2];
      }
    }
  }

  /** Conversely, a threaded head part whose composite feeds the rest joins into one threaded chain. */
  lemma ThreadedJoin(fs: seq<Ty>, gs: seq<Ty>)
    requires |fs| >= 1 && |gs| >= 1 && Threaded(fs)
    requires Threaded([Fun(fs[0].params, fs[|fs| - 1].res)] + gs)
    ensures Threaded(fs + gs)
  {
    var all := fs + gs;
    var hs := [Fun(fs[0].params, fs[|fs| - 1].res)] + gs;
    forall i | 0 <= i < |all| ensures all[i].Fun? {
      if i >= |fs| {
        assert all[i] == hs[i - |fs| + 1];
      }
    }
    forall i | 0 < i < |all| ensures Feeds(all[i - 1], all[i]) {
      if i < |fs| {
        assert all[i - 1] == fs[i - 1] && all[i] == fs[i];
      } else {
        assert Feeds(hs[i - |fs|], hs[i - |fs| + 1]);
        assert all[i] == hs[i - |fs| + 1];
        if i > |fs| {
          assert all[i - 1] == hs[i - |fs|];
        }
      }
    }
  }

  /**
   * Piping two chains is piping the first chain's composite into the second:
   * `pipe(f1, ..., fk, g1, ..., gm)` has the type of
   * `pipe(pipe(f1, ..., fk), g1, ..., gm)` as long as no fallback is involved.
   */
  lemma PipeAssociates(fs: seq<Ty>, gs: seq<Ty>)
    requires |fs| >= 1 && |gs| >= 1 && |fs| + |gs| <= MaxThreaded
    ensures PipeType(fs + gs) ==
              match PipeType(fs)
              case Some(h) => PipeType([h] + gs)
              case None => None
  {
    var all := fs + gs;
    assert all[0] == fs[0] && all[|all| - 1] == gs[|gs| - 1];
    if Threaded(all) {
      ThreadedSplit(fs, gs);
    }
    if Threaded(fs) {
      var hs := [Fun(fs[0].params, fs[|fs| - 1].res)] + gs;
      assert hs[|hs| - 1] == gs[|gs| - 1];
      if Threaded(hs) {
        ThreadedJoin(fs, gs);
      }
    }
  }

  // ---------------------------------------------------------------------
  // Longer chains

  /**
   * From eight stages on, the call has the type of the seven-stage call on
   * its first seven stages, provided every later stage takes at most one
   * parameter, except that the result comes from the last stage.
   */
  lemma PipeFallback(fs: seq<Ty>)
    requires |fs| > MaxThreaded
    ensures PipeType(fs) ==
              if PipeType(fs[..MaxThreaded]).Some? && (forall i :: MaxThreaded <= i < |fs| ==> Loose(fs[i])) then
                Some(Fun(PipeType(fs[..MaxThreaded]).value.params, fs[|fs| - 1].res))
              else None
  {
    assert fs[..MaxThreaded][0] == fs[0];
  }

  /**
   * The fallback does not thread the eighth stage onto the seventh: a
   * `number`-to-`number` chain of seven stages followed by a stage that
   * expects a `string` is accepted.
   */
  lemma FallbackSkipsEighthStage()
    ensures var n := Fun([Prim("number")], Prim("number"));
            var s := Fun([Prim("string")], Prim("boolean"));
            PipeType([n, n, n, n, n, n, n, s]) == Some(Fun([Prim("number")], Prim("boolean")))
    ensures !Feeds(Fun([Prim("number")], Prim("number")), Fun([Prim("string")], Prim("boolean")))
  {
    var n := Fun([Prim("number")], Prim("number"));
    var s := Fun([Prim("string")], Prim("boolean"));
    var fs := [n, n, n, n, n, n, n, s];
    FeedsIff(n, n);
    AssignableReflexive(Prim("number"));
    assert Threaded(fs[..MaxThreaded]);
    FeedsIff(n, s);
  }

  /**
   * Three stages `string -> number`, `number -> boolean`, `boolean -> string`
   * type-check; putting a stage that expects a `string` after the stage
   * that returns a `number` does not.
   */
  lemma MismatchedStageRejected()
    ensures var a := Fun([Prim("string")], Prim("number"));
            var b := Fun([Prim("number")], Prim("boolean"));
            var c := Fun([Prim("boolean")], Prim("string"));
            PipeType([a, b, c]) == Some(Fun([Prim("string")], Prim("string")))
            && PipeType([a, a, b, c]) == None
  {
    var a := Fun([Prim("string")], Prim("number"));
    var b := Fun([Prim("number")], Prim("boolean"));
    var c := Fun([Prim("boolean")], Prim("string"));
    ExactChainAccepted([a, b, c]);
    FeedsIff(a, a);
    var bad := [a, a, b, c];
    assert !Feeds(bad[0], bad[1]);
    assert !Threaded(bad);
  }

  // ---------------------------------------------------------------------
  // compose mirrors pipe

  lemma ThreadedReverse(fs: seq<Ty>)
    ensures ThreadedBackward(fs) <==> Threaded(Reverse(fs))
  {
    var r := Reverse(fs);
    var n := |fs|;
    if ThreadedBackward(fs) {
      forall i | 0 < i < n ensures Feeds(r[i - 1], r[i]) {
        assert r[i - 1] == fs[n - i] && r[i] == fs[n - 1 - i];
      }
    }
    if Threaded(r) {
      forall i | 0 <= i < n - 1 ensures Feeds(fs[i + 1], fs[i]) {
        assert r[n - 1 - i - 1] == fs[i + 1] && r[n - 1 - i] == fs[i];
      }
      forall i | 0 <= i < n ensures fs[i].Fun? {
        assert r[n - 1 - i] == fs[i];
      }
    }
  }

  lemma ReverseSuffixAt(s: seq<Ty>, k: nat, j: nat)
    requires j < k <= |s|
    ensures Reverse(s[|s| - k..])[j] == Reverse(s)[j]
  {
    var t := s[|s| - k..];
    assert Reverse(t)[j] == t[k - 1 - j];
  }

  lemma ReverseSuffix(s: seq<Ty>, k: nat)
    requires k <= |s|
    ensures Reverse(s[|s| - k..]) == Reverse(s)[..k]
  {
    forall j | 0 <= j < k ensures Reverse(s[|s| - k..])[j] == Reverse(s)[..k][j] {
      ReverseSuffixAt(s, k, j);
    }
  }

  lemma LooseReverse(fs: seq<Ty>, k: nat)
    requires k <= |fs|
    ensures (forall i :: 0 <= i < |fs| - k ==> Loose(fs[i])) <==>
            (forall i :: k <= i < |fs| ==> Loose(Reverse(fs)[i]))
  {
    var r := Reverse(fs);
    var n := |fs|;
    if forall i :: 0 <= i < n - k ==> Loose(fs[i]) {
      forall i | k <= i < n ensures Loose(r[i]) {
        assert r[i] == fs[n - 1 - i];
      }
    } else {
      var i :| 0 <= i < n - k && !Loose(fs[i]);
      var j := n - 1 - i;
      assert r[j] == fs[i];
      assert k <= j < n && !Loose(Reverse(fs)[j]);
    }
  }

  /**
   * `compose` is `pipe` with its arguments listed in reverse, overload for
   * overload, fallback included: `compose(f, g, h)` has the type of
   * `pipe(h, g, f)`.
   */
  lemma ComposeIsReversedPipe(fs: seq<Ty>)
    ensures ComposeType(fs) == PipeType(Reverse(fs))
  {
    var n := |fs|;
    var r := Reverse(fs);
    if n > MaxThreaded {
      ReverseSuffix(fs, MaxThreaded);
      ThreadedReverse(fs[n - MaxThreaded..]);
      LooseReverse(fs, MaxThreaded);
      assert r[0] == fs[n - 1] && r[n - 1] == fs[0];
    } else {
      ThreadedReverse(fs);
      if n >= 1 {
        assert r[0] == fs[n - 1] && r[n - 1] == fs[0];
      }
    }
  }
}

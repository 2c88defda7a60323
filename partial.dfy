/**
 * The overloads of `partial(fn, args)` (immutable.d.ts:875-881): six typed
 * overloads for functions of two to four parameters, tried in the order they
 * are declared, and an untyped fallback.
 */
module PartialApplication {
  import opened Types

  /** The type of a `partial` call: a typed function, or the fallback `(...x: readonly any[]) => T`. */
  datatype Applied = Typed(fn: Ty) | Untyped(res: Ty)

  /** A typed overload: `fn` declares `arity` parameters and `args` is a tuple of the first `supplied` of them. */
  datatype Overload = Overload(arity: nat, supplied: nat)

  /** The typed overloads in declaration order. */
  const Ladder: seq<Overload> :=
    [Overload(2, 1), Overload(3, 2), Overload(3, 1), Overload(4, 3), Overload(4, 2), Overload(4, 1)]

  /** The return type of the function that a `partial` call yields. */
  function ReturnOf(a: Applied): (t: Ty)
  {
    match a
    case Typed(f) => if f.Fun? then f.res else Unknown
    case Untyped(r) => r
  }

  /**
   * `fn` fits `(x0: V0, ..., xn: Vn) => T` and `args` fits `[V0, ..., Vk]`:
   * the tuple has exactly `supplied` elements and each one is accepted by
   * the parameter it stands for.  A function with fewer parameters than the
   * overload's arity fits too, as in TypeScript.
   */
  predicate Matches(fn: Ty, args: seq<Ty>, o: Overload)
    requires fn.Fun?
  {
    |fn.params| <= o.arity && |args| == o.supplied
    && forall i :: 0 <= i < |args| && i < |fn.params| ==> Assignable(args[i], fn.params[i])
  }

  /**
   * The parameters left to the result of a matched overload: those of `fn`
   * after the supplied ones, and `unknown` for each the overload declares
   * beyond `fn`'s own (nothing to infer them from).
   */
  function Remaining(fn: Ty, o: Overload): (ps: seq<Ty>)
    requires fn.Fun? && o.supplied <= o.arity
  {
    seq(o.arity - o.supplied,
        j requires 0 <= j < o.arity - o.supplied =>
          if o.supplied + j < |fn.params| then fn.params[o.supplied + j] else Unknown)
  }

  /** Overload resolution from the `i`-th typed overload on. */
  function Resolve(fn: Ty, args: seq<Ty>, i: nat): (r: Applied)
    requires fn.Fun? && i <= |Ladder|
    decreases |Ladder| - i
    ensures r.Typed? ==> r.fn.Fun? && |r.fn.params| >= 1
    ensures ReturnOf(r) == fn.res
  {
    if i == |Ladder| then Untyped(fn.res)
    else if Matches(fn, args, Ladder[i]) then Typed(Fun(Remaining(fn, Ladder[i]), fn.res))
    else Resolve(fn, args, i + 1)
  }

  /**
   * `partial(fn, args)`: there is no overload for a value that is not a
   * function; otherwise the first typed overload that matches decides, and
   * the fallback accepts everything else.
   */
  function PartialType(fn: Ty, args: seq<Ty>): (r: Option<Applied>)
    ensures r.Some? <==> fn.Fun?
    ensures r.Some? ==> ReturnOf(r.value) == fn.res
  {
    if fn.Fun? then Some(Resolve(fn, args, 0)) else None
  }

  lemma {:induction false} ResolveFirstMatch(fn: Ty, args: seq<Ty>, i: nat, j: nat)
    requires fn.Fun? && i <= j < |Ladder|
    requires Matches(fn, args, Ladder[j])
    requires forall m :: i <= m < j ==> !Matches(fn, args, Ladder[m])
    ensures Resolve(fn, args, i) == Typed(Fun(Remaining(fn, Ladder[j]), fn.res))
    decreases j - i
  {
    if i < j {
      ResolveFirstMatch(fn, args, i + 1, j);
    }
  }

  lemma {:induction false} ResolveNoMatch(fn: Ty, args: seq<Ty>, i: nat)
    requires fn.Fun? && i <= |Ladder|
    requires forall m :: i <= m < |Ladder| ==> !Matches(fn, args, Ladder[m])
    ensures Resolve(fn, args, i) == Untyped(fn.res)
    decreases |Ladder| - i
  {
    if i < |Ladder| {
      ResolveNoMatch(fn, args, i + 1);
    }
  }

  /** The position in the ladder of the overload for `arity` parameters of which `supplied` are given. */
  function OverloadIndex(arity: nat, supplied: nat): (j: nat)
    requires 2 <= arity <= 4 && 1 <= supplied < arity
    ensures j < |Ladder| && Ladder[j] == Overload(arity, supplied)
  {
    if arity == 2 then 0
    else if arity == 3 then (if supplied == 2 then 1 else 2)
    else 6 - supplied
  }

  /**
   * For a function of two to four parameters, a tuple that supplies a proper
   * prefix of them, each accepted by its parameter, gives a function of
   * exactly the remaining parameters with the same return type.
   */
  lemma PrefixGivesRemainingParameters(fn: Ty, args: seq<Ty>)
    requires fn.Fun? && 2 <= |fn.params| <= 4 && 1 <= |args| < |fn.params|
    requires forall i :: 0 <= i < |args| ==> Assignable(args[i], fn.params[i])
    ensures PartialType(fn, args) == Some(Typed(Fun(fn.params[|args|..], fn.res)))
  {
    var j := OverloadIndex(|fn.params|, |args|);
    // every overload listed earlier needs fewer parameters or another tuple length
    assert forall m :: 0 <= m < j ==>
             Ladder[m].arity < |fn.params| || Ladder[m].supplied != |args|;
    ResolveFirstMatch(fn, args, 0, j);
    assert Remaining(fn, Ladder[j]) == fn.params[|args|..];
  }

  /**
   * A tuple element that its parameter does not accept defeats every typed
   * overload, and the call falls back to the untyped result.
   */
  lemma MismatchFallsBack(fn: Ty, args: seq<Ty>, i: nat)
    requires fn.Fun? && i < |args| && i < |fn.params| && !Assignable(args[i], fn.params[i])
    ensures PartialType(fn, args) == Some(Untyped(fn.res))
  {
    ResolveNoMatch(fn, args, 0);
  }

  /** No typed overload takes a function of more than four parameters. */
  lemma LongFunctionFallsBack(fn: Ty, args: seq<Ty>)
    requires fn.Fun? && |fn.params| > 4
    ensures PartialType(fn, args) == Some(Untyped(fn.res))
  {
    ResolveNoMatch(fn, args, 0);
  }

  /**
   * A one-parameter function with its one argument supplied still matches
   * the first overload, whose second parameter has nothing to be inferred
   * from: the result is `(x1: unknown) => T`.
   */
  lemma ShortFunctionGetsUnknownParameter(p: Ty, t: Ty)
    ensures PartialType(Fun([p], t), [p]) == Some(Typed(Fun([Unknown], t)))
  {
    AssignableReflexive(p);
    var fn := Fun([p], t);
    assert Matches(fn, [p], Ladder[0]);
    ResolveFirstMatch(fn, [p], 0, 0);
    assert Remaining(fn, Ladder[0]) == [Unknown];
  }
}

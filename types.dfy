/**
 * The small universe of TypeScript types over which the type-level
 * computations of the declaration file are modelled, and the assignability
 * relation (`S extends T`) that their conditional types test.
 */
module Types {

  datatype Option<+T> = None | Some(value: T)

  /**
   * `Never` is the empty type, `Unknown` the top type (it also stands for the
   * `any` in a result position such as `(value: V) => any`), `Prim` a
   * primitive such as `number` or `string`, `Obj` an object type whose keys
   * in `optional` are declared with `?`, and `Fun` a function type with a
   * fixed parameter list.
   */
  datatype Ty =
    | Never
    | Unknown
    | Prim(name: string)
    | Obj(fields: map<string, Ty>, optional: set<string>)
    | Fun(params: seq<Ty>, res: Ty)

  /**
   * `Rel(a, b, false)` holds when `a` is assignable to `b`, and
   * `Rel(a, b, true)` when `b` is assignable to `a`.  Carrying the direction
   * as a flag lets the contravariant parameter check recurse on the
   * components of `a` only, so that `a` alone decreases.
   */
  predicate Rel(a: Ty, b: Ty, flip: bool)
    decreases a
  {
    var src := if flip then b else a;
    var tgt := if flip then a else b;
    if tgt.Unknown? || src.Never? then true
    else if a.Prim? && b.Prim? then a.name == b.name
    else if a.Obj? && b.Obj? then
      // every required key of the target is a required key of the source
      (forall k :: k in tgt.fields && k !in tgt.optional ==> k in src.fields && k !in src.optional)
      // a weak target needs a key in common with a source that has keys
      && !(IsWeak(tgt) && src.fields != map[] && src.fields.Keys !! tgt.fields.Keys)
      // and shared keys are related in the same direction
      && (forall k :: k in a.fields && k in b.fields ==> Rel(a.fields[k], b.fields[k], flip))
    else if a.Fun? && b.Fun? then
      // the source may take fewer parameters than the target
      (if flip then |b.params| <= |a.params| else |a.params| <= |b.params|)
      // parameters are related in the opposite direction
      && (forall i :: 0 <= i < |a.params| && i < |b.params| ==> Rel(a.params[i], b.params[i], !flip))
      && Rel(a.res, b.res, flip)
    else
      // primitives and functions fit the empty object type `{}` and no other object type
      (src.Prim? || src.Fun?) && tgt.Obj? && tgt.fields == map[]
  }

  /**
   * A weak type: an object type with at least one key, all of them optional.
   * TypeScript rejects a source that has keys but shares none with it.
   */
  predicate IsWeak(t: Ty)
  {
    t.Obj? && t.fields != map[] && t.fields.Keys <= t.optional
  }

  /** `s extends t`: a value of type `s` may be used where `t` is expected. */
  predicate Assignable(s: Ty, t: Ty)
  {
    Rel(s, t, false)
  }

  /** The direction flag means what its documentation says: flipping it swaps the arguments. */
  lemma {:induction false} FlipIsConverse(a: Ty, b: Ty, flip: bool)
    ensures Rel(a, b, flip) == Rel(b, a, !flip)
    decreases a
  {
    if a.Obj? && b.Obj? {
      forall k | k in a.fields && k in b.fields
        ensures Rel(a.fields[k], b.fields[k], flip) == Rel(b.fields[k], a.fields[k], !flip)
      {
        FlipIsConverse(a.fields[k], b.fields[k], flip);
      }
    } else if a.Fun? && b.Fun? {
      forall i | 0 <= i < |a.params| && i < |b.params|
        ensures Rel(a.params[i], b.params[i], !flip) == Rel(b.params[i], a.params[i], flip)
      {
        FlipIsConverse(a.params[i], b.params[i], !flip);
      }
      FlipIsConverse(a.res, b.res, flip);
    }
  }

  /** Every type is related to itself, in both directions. */
  lemma {:induction false} RelReflexive(t: Ty, flip: bool)
    ensures Rel(t, t, flip)
    decreases t
  {
    match t
    case Obj(fields, _) =>
      forall k | k in fields ensures Rel(fields[k], fields[k], flip) {
        RelReflexive(fields[k], flip);
      }
    case Fun(params, res) =>
      forall i | 0 <= i < |params| ensures Rel(params[i], params[i], !flip) {
        RelReflexive(params[i], !flip);
      }
      RelReflexive(res, flip);
    case _ =>
  }

  /** Assignability is reflexive. */
  lemma AssignableReflexive(t: Ty)
    ensures Assignable(t, t)
  {
    RelReflexive(t, false);
  }

  /**
   * A function type is assignable to a one-parameter function type exactly
   * when it takes at most one parameter, that parameter accepts the
   * target's parameter type, and its result fits the target's result.
   */
  lemma AssignableToUnary(f: Ty, p: Ty, r: Ty)
    requires f.Fun?
    ensures Assignable(f, Fun([p], r)) <==>
              |f.params| <= 1
              && (|f.params| == 1 ==> Assignable(p, f.params[0]))
              && Assignable(f.res, r)
  {
    if |f.params| == 1 {
      FlipIsConverse(f.params[0], p, true);
    }
  }
}

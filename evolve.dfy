/**
 * The structural evolver typing of `evolve`: the type aliases `Evolvable`,
 * `Evolver`, `Evolve`, `Evolved`, `EvolveNestedValue` and `EvolveValue`
 * (immutable.d.ts:38-68) and the object overloads of `evolve`
 * (immutable.d.ts:1408-1409).
 *
 * A rules object is itself a type: an object type whose entries are
 * transformer function types or nested rules objects.  A conditional type
 * that reaches a `never` branch is modelled as `None`; a `never` that arises
 * from distributing over the empty union is `Some(Never)`.
 */
module EvolveTypes {
  import opened Types

  /**
   * A value allowed inside `Evolver`: `((value: any) => any) | Evolver`.
   * A function qualifies when it takes at most one parameter; `never`, being
   * assignable to everything, qualifies too.
   */
  predicate IsRule(x: Ty)
    decreases x, 1
  {
    x.Never? || (x.Fun? && |x.params| <= 1) || IsEvolver(x)
  }

  /** `E extends Evolver`: an object type all of whose entries are rules. */
  predicate IsEvolver(x: Ty)
    decreases x, 0
  {
    x.Obj? && forall k :: k in x.fields ==> IsRule(x.fields[k])
  }

  /**
   * `Evolved<A>`: the input type a single rule demands.  A function demands
   * its parameter type (`unknown` when it declares none), a nested rules
   * object demands its `Evolvable`, anything else demands `never`.
   */
  function Evolved(a: Ty): (r: Ty)
    decreases a, 1
    // the type inferred for `V` makes `A extends (value: V) => any` hold
    ensures a.Fun? && |a.params| <= 1 ==> Assignable(a, Fun([r], Unknown))
    ensures !IsRule(a) ==> r == Never
  {
    if a.Never? then Never  // the conditional distributes over the empty union
    else if a.Fun? && |a.params| <= 1 then
      var v := if |a.params| == 1 then a.params[0] else Unknown;
      AssignableReflexive(v);
      AssignableToUnary(a, v, Unknown);
      v
    else if IsEvolver(a) then Evolvable(a)
    else Never
  }

  /**
   * `Evolvable<E>`: the object shape a rules object accepts.  It has exactly
   * the rules' keys, every one of them optional, each typed by what its rule
   * demands.
   */
  function Evolvable(e: Ty): (d: Ty)
    requires IsEvolver(e)
    decreases e, 0
    ensures d.Obj?
    ensures d.fields.Keys == e.fields.Keys && d.optional == e.fields.Keys
    ensures forall k :: k in d.fields ==> d.fields[k] == Evolved(e.fields[k])
  {
    Obj(map k | k in e.fields :: Evolved(e.fields[k]), e.fields.Keys)
  }

  /**
   * `EvolveValue<V, E>`: the new type of a field of type `v` under rule
   * `rule`.  The function reading (`E extends (value: V) => any`, giving
   * `ReturnType<E>`) is tried before the nested-rules reading; a rule that is
   * neither is a `never` branch.
   */
  function EvolveValue(v: Ty, rule: Ty): (r: Option<Ty>)
    decreases rule, 2
    ensures r.Some? && rule.Fun? ==> r.value == rule.res
    ensures r.Some? && IsEvolver(rule) && v.Obj? ==>
              r.value.Obj? && r.value.fields.Keys == v.fields.Keys && r.value.optional == v.optional
  {
    if rule.Never? then Some(Never)  // the conditional distributes over the empty union
    else if Assignable(rule, Fun([v], Unknown)) then Some(rule.res)
    else if IsEvolver(rule) then EvolveNestedValue(v, rule)
    else None
  }

  /** `O extends object`: object and function types are objects, primitives and `unknown` are not. */
  predicate IsObjectType(t: Ty)
  {
    t.Obj? || t.Fun?
  }

  /**
   * `EvolveNestedValue<O, E>`: a nested rules object applies to a field that
   * fits `Evolvable<E>`; otherwise `never`.  The declaration also demands
   * `O extends object` (see `EvolveNestedValueAsWritten`); without that test
   * a primitive that fits the empty `Evolvable<{}>` keeps its type.
   */
  function EvolveNestedValue(o: Ty, e: Ty): (r: Option<Ty>)
    requires IsEvolver(e)
    decreases e, 1
    ensures r.Some? <==> Assignable(o, Evolvable(e))
    ensures r.Some? && o.Obj? ==>
              r.value.Obj? && r.value.fields.Keys == o.fields.Keys && r.value.optional == o.optional
    ensures r.Some? && o.Prim? ==> r.value == o
  {
    if o.Never? then Some(Never)  // the conditional distributes over the empty union
    else if !Assignable(o, Evolvable(e)) then None
    else Some(Evolve(o, e))
  }

  /**
   * `EvolveNestedValue<O, E>` as declared at immutable.d.ts:56-61, with its
   * `O extends object` test, at the top level only: the `Evolve` it calls
   * uses the corrected `EvolveNestedValue` one level down.
   */
  function EvolveNestedValueAsWritten(o: Ty, e: Ty): (r: Option<Ty>)
    requires IsEvolver(e)
    ensures r.Some? ==> o.Never? || IsObjectType(o)
  {
    if o.Never? then Some(Never)
    else if !IsObjectType(o) then None
    else if !Assignable(o, Evolvable(e)) then None
    else Some(Evolve(o, e))
  }

  /**
   * `Evolve<O, E>`: the homomorphic mapped type over the keys of `O`.  Keys
   * with a rule take `EvolveValue` (a `never` branch gives a `never` field),
   * other keys keep their type, and keys found only in the rules are ignored.
   * Mapped over a primitive it is that primitive; a function type has no keys
   * to map, so it gives `{}`.
   */
  function Evolve(o: Ty, e: Ty): (r: Ty)
    requires IsEvolver(e) && Assignable(o, Evolvable(e))
    decreases e, 0
    ensures o.Never? ==> r == Never
    ensures o.Prim? ==> r == o
    ensures o.Obj? ==> r.Obj? && r.fields.Keys == o.fields.Keys && r.optional == o.optional
    ensures o.Obj? ==> forall k :: k in o.fields && k !in e.fields ==> r.fields[k] == o.fields[k]
  {
    match o
    case Never => Never  // a homomorphic mapped type over `never` is `never`
    case Prim(_) => o
    case Obj(fields, optional) =>
      Obj(map k | k in fields ::
            if k in e.fields then
              match EvolveValue(fields[k], e.fields[k])
              case Some(t) => t
              case None => Never
            else fields[k],
          optional)
    case _ => Obj(map[], {})
  }

  /**
   * The object overloads of `evolve(rules, obj)` and `evolve(rules)(obj)`:
   * the call type-checks only when `rules` is an `Evolver` and `obj` fits
   * `Evolvable<rules>`; its result type is then `Evolve<obj, rules>`.
   */
  function EvolveCall(rules: Ty, obj: Ty): (r: Option<Ty>)
    ensures r.None? <==> !IsEvolver(rules) || !Assignable(obj, Evolvable(rules))
    ensures r.Some? && obj.Obj? ==>
              r.value.Obj? && r.value.fields.Keys == obj.fields.Keys
              && forall k :: k in obj.fields && k in rules.fields ==>
                   EvolveValue(obj.fields[k], rules.fields[k]) == Some(r.value.fields[k])
  {
    if IsEvolver(rules) && Assignable(obj, Evolvable(rules)) then
      EvolveResolvesEveryRuledField(obj, rules);
      Some(Evolve(obj, rules))
    else None
  }

  // ---------------------------------------------------------------------
  // Per-field dispatch

  /** A function rule of one parameter turns an accepted field into its return type, and rejects any other field. */
  lemma FunctionRuleGivesReturnType(v: Ty, rule: Ty)
    requires rule.Fun? && |rule.params| == 1
    ensures Assignable(v, rule.params[0]) ==> EvolveValue(v, rule) == Some(rule.res)
    ensures !Assignable(v, rule.params[0]) ==> EvolveValue(v, rule) == None
  {
    AssignableToUnary(rule, v, Unknown);
  }

  /** A function rule that declares no parameter accepts every field. */
  lemma NullaryRuleGivesReturnType(v: Ty, rule: Ty)
    requires rule.Fun? && rule.params == []
    ensures EvolveValue(v, rule) == Some(rule.res)
  {
    AssignableToUnary(rule, v, Unknown);
  }

  /**
   * A nested rules object recurses one level into a field that fits
   * `Evolvable` of those rules, and rejects a field that does not fit.  Rules
   * with at least one key reject every primitive, `unknown` and
   * function-typed field.
   */
  lemma NestedRuleRecurses(v: Ty, rule: Ty)
    requires IsEvolver(rule)
    ensures !v.Never? && Assignable(v, Evolvable(rule)) ==> EvolveValue(v, rule) == Some(Evolve(v, rule))
    ensures !Assignable(v, Evolvable(rule)) ==> EvolveValue(v, rule) == None
    ensures rule.fields != map[] && !v.Never? && !v.Obj? ==> EvolveValue(v, rule) == None
  {
  }

  /** A rule that is neither `never`, nor a function of at most one parameter, nor a rules object rejects every field. */
  lemma NonRuleRejects(v: Ty, rule: Ty)
    requires !IsRule(rule)
    ensures EvolveValue(v, rule) == None
  {
    if rule.Fun? {
      AssignableToUnary(rule, v, Unknown);
    }
  }

  /**
   * The input shape derived from the rules is exactly what the dispatch
   * accepts: for any rule other than `never`, a field resolves without
   * reaching a `never` branch if and only if its type fits what `Evolved`
   * demands of that rule.
   */
  lemma EvolvedIsAcceptedInput(v: Ty, rule: Ty)
    requires IsRule(rule) && !rule.Never?
    ensures EvolveValue(v, rule).Some? <==> Assignable(v, Evolved(rule))
  {
    if rule.Fun? {
      if |rule.params| == 1 {
        FunctionRuleGivesReturnType(v, rule);
      } else {
        NullaryRuleGivesReturnType(v, rule);
      }
    } else {
      assert IsEvolver(rule);
      NestedRuleRecurses(v, rule);
    }
  }

  /**
   * `Evolver` admits exactly the entries that can evolve some field: a rule
   * evolves a field of the type it demands, and anything else evolves none.
   */
  lemma RuleIffApplicable(x: Ty)
    ensures IsRule(x) <==> EvolveValue(Evolved(x), x).Some?
  {
    if IsRule(x) && !x.Never? {
      AssignableReflexive(Evolved(x));
      EvolvedIsAcceptedInput(Evolved(x), x);
    } else if !IsRule(x) {
      NonRuleRejects(Evolved(x), x);
    }
  }

  /** Under the constraints of `Evolve`, no ruled field reaches a `never` branch. */
  lemma EvolveResolvesEveryRuledField(o: Ty, e: Ty)
    requires IsEvolver(e) && Assignable(o, Evolvable(e))
    ensures o.Obj? ==> forall k :: k in o.fields && k in e.fields ==>
              EvolveValue(o.fields[k], e.fields[k]) == Some(Evolve(o, e).fields[k])
  {
    var d := Evolvable(e);
    forall k | o.Obj? && k in o.fields && k in e.fields
      ensures EvolveValue(o.fields[k], e.fields[k]) == Some(Evolve(o, e).fields[k])
    {
      var rule := e.fields[k];
      assert IsRule(rule);
      assert Rel(o.fields[k], d.fields[k], false);
      if !rule.Never? {
        EvolvedIsAcceptedInput(o.fields[k], rule);
      }
    }
  }

  // ---------------------------------------------------------------------
  // Whole-object properties

  /**
   * The shape a rules object accepts: an object fits when each field that
   * has a rule fits what the rule demands, and, the shape being weak, when
   * it shares a key with the rules or has no keys at all (or the rules have
   * none).  A primitive or function fits only the shape of empty rules.
   */
  lemma EvolvableAccepts(o: Ty, e: Ty)
    requires IsEvolver(e)
    ensures o.Obj? ==>
              (Assignable(o, Evolvable(e)) <==>
                 (forall k :: k in o.fields && k in e.fields ==> Assignable(o.fields[k], Evolved(e.fields[k])))
                 && (o.fields == map[] || e.fields == map[] || !(o.fields.Keys !! e.fields.Keys)))
    ensures o.Prim? || o.Fun? ==> (Assignable(o, Evolvable(e)) <==> e.fields == map[])
    ensures o.Unknown? ==> !Assignable(o, Evolvable(e))
  {
    var d := Evolvable(e);
    if o.Obj? {
      assert forall k :: k in o.fields && k in e.fields ==> d.fields[k] == Evolved(e.fields[k]);
    }
  }

  /**
   * Rules that share no key with an object accept it only when one of the
   * two has no keys (`Evolvable` is a weak type), and then leave its type
   * unchanged.
   */
  lemma DisjointRulesAreIdentity(o: Ty, e: Ty)
    requires IsEvolver(e) && o.Obj? && o.fields.Keys !! e.fields.Keys
    ensures Assignable(o, Evolvable(e)) <==> o.fields == map[] || e.fields == map[]
    ensures Assignable(o, Evolvable(e)) ==> Evolve(o, e) == o
  {
    EvolvableAccepts(o, e);
    if Assignable(o, Evolvable(e)) {
      var r := Evolve(o, e);
      assert r.fields == o.fields;
    }
  }

  /**
   * `EvolveNestedValue` as declared differs from the model exactly on a
   * primitive field under a rules object with no keys: the declaration's
   * `O extends object` test sends it to `never`, although it fits
   * `Evolvable<{}>` and so passes the constraint of `evolve`.
   */
  lemma {:induction false} ObjectTestRejectsOnlyPrimitivesUnderEmptyRules(o: Ty, e: Ty)
    requires IsEvolver(e)
    ensures EvolveNestedValueAsWritten(o, e) != EvolveNestedValue(o, e) <==> o.Prim? && e.fields == map[]
    ensures o.Prim? && e.fields == map[] ==>
              Assignable(o, Evolvable(e)) && EvolveNestedValueAsWritten(o, e) == None
  {
    EvolvableAccepts(o, e);
  }

  /**
   * `Evolver<T>` (immutable.d.ts:40-42): the rules a shape `t` admits.  Each
   * entry for a key of `t` is a function from the field's type to the
   * field's type, or, for an object-typed field, a nested `Evolver` of it.
   */
  predicate IsEvolverFor(e: Ty, t: Ty)
    decreases e, 0
  {
    e.Obj? && t.Obj?
    && forall k :: k in e.fields && k in t.fields ==> IsEntryFor(e.fields[k], t.fields[k])
  }

  /** One entry of `Evolver<T>` at a field of type `tk`. */
  predicate IsEntryFor(x: Ty, tk: Ty)
    decreases x, 1
  {
    Assignable(x, Fun([tk], tk)) || (tk.Obj? && IsEvolverFor(x, tk))
  }

  /**
   * Although the result is computed with `ReturnType` and may retype a
   * field, rules that respect the `Evolver<T>` constraint only narrow: the
   * evolved shape is assignable to the original one.
   */
  lemma {:induction false} ConstrainedRulesNarrow(o: Ty, e: Ty)
    requires IsEvolver(e) && Assignable(o, Evolvable(e)) && IsEvolverFor(e, o)
    ensures Assignable(Evolve(o, e), o)
    decreases e
  {
    var r := Evolve(o, e);
    EvolveResolvesEveryRuledField(o, e);
    forall k | k in r.fields && k in o.fields
      ensures Rel(r.fields[k], o.fields[k], false)
    {
      var tk := o.fields[k];
      if k !in e.fields {
        RelReflexive(tk, false);
      } else {
        var x := e.fields[k];
        assert IsRule(x) && IsEntryFor(x, tk);
        if x.Never? {
          assert r.fields[k] == Never;
        } else if Assignable(x, Fun([tk], tk)) {
          assert x.Fun?;
          AssignableToUnary(x, tk, tk);
          AssignableToUnary(x, tk, Unknown);
          assert r.fields[k] == x.res;
        } else {
          assert x.Obj? && IsEvolverFor(x, tk) && IsEvolver(x);
          assert Rel(tk, Evolvable(e).fields[k], false);
          NestedRuleRecurses(tk, x);
          ConstrainedRulesNarrow(tk, x);
        }
      }
    }
  }
}

/** Worked instances of the evolver typing. */
module EvolveExamples {
  import opened Types
  import opened EvolveTypes

  const Num := Prim("number")
  const Str := Prim("string")

  /** `Evolve<{count: number, name: string}, {count: (n: number) => number}>` is `{count: number, name: string}`. */
  lemma IncrementCount()
    ensures EvolveCall(Obj(map["count" := Fun([Num], Num)], {}),
                       Obj(map["count" := Num, "name" := Str], {}))
            == Some(Obj(map["count" := Num, "name" := Str], {}))
  {
    var e := Obj(map["count" := Fun([Num], Num)], {});
    var o := Obj(map["count" := Num, "name" := Str], {});
    assert IsRule(e.fields["count"]);
    assert IsEvolver(e);
    AssignableReflexive(Num);
    FunctionRuleGivesReturnType(Num, e.fields["count"]);
    assert Assignable(o, Evolvable(e));
    assert Evolve(o, e).fields == o.fields;
  }

  // `{c: number}` under `{c: (x: number) => string}`, and the two objects wrapping it.
  const F := Fun([Num], Str)
  const Rules2 := Obj(map["c" := F], {})
  const Rules1 := Obj(map["b" := Rules2], {})
  const Rules0 := Obj(map["a" := Rules1], {})
  const Shape2 := Obj(map["c" := Num], {})
  const Shape1 := Obj(map["b" := Shape2], {})
  const Shape0 := Obj(map["a" := Shape1], {})
  const Result2 := Obj(map["c" := Str], {})
  const Result1 := Obj(map["b" := Result2], {})
  const Result0 := Obj(map["a" := Result1], {})

  /** A one-key object fits a one-key rules object when its field fits what the rule demands. */
  lemma SingleFieldFits(k: string, v: Ty, rule: Ty)
    requires IsRule(rule) && Assignable(v, Evolved(rule))
    ensures IsEvolver(Obj(map[k := rule], {}))
    ensures Assignable(Obj(map[k := v], {}), Evolvable(Obj(map[k := rule], {})))
  {
    var o := Obj(map[k := v], {});
    var e := Obj(map[k := rule], {});
    assert IsEvolver(e);
    EvolvableAccepts(o, e);
    assert k in o.fields.Keys * e.fields.Keys;
  }

  /**
   * A one-key object under a one-key rules object: when the field fits what
   * the rule demands and evolves to `t`, the object evolves to the one-key
   * object holding `t`, both as a whole and as a nested field.
   */
  lemma SingleFieldEvolves(k: string, v: Ty, rule: Ty, t: Ty)
    requires IsRule(rule) && Assignable(v, Evolved(rule)) && EvolveValue(v, rule) == Some(t)
    ensures IsEvolver(Obj(map[k := rule], {}))
    ensures Assignable(Obj(map[k := v], {}), Evolvable(Obj(map[k := rule], {})))
    ensures Evolve(Obj(map[k := v], {}), Obj(map[k := rule], {})) == Obj(map[k := t], {})
    ensures EvolveValue(Obj(map[k := v], {}), Obj(map[k := rule], {})) == Some(Obj(map[k := t], {}))
  {
    var o := Obj(map[k := v], {});
    var e := Obj(map[k := rule], {});
    SingleFieldFits(k, v, rule);
    var r := Evolve(o, e);
    assert r.fields.Keys == {k} && r.fields[k] == t;
    assert r.fields == map[k := t];
    NestedRuleRecurses(o, e);
  }

  lemma InnermostLevel()
    ensures IsRule(Rules2) && Assignable(Shape2, Evolved(Rules2))
    ensures EvolveValue(Shape2, Rules2) == Some(Result2)
  {
    AssignableReflexive(Num);
    FunctionRuleGivesReturnType(Num, F);
    SingleFieldEvolves("c", Num, F, Str);
  }

  lemma MiddleLevel()
    ensures IsRule(Rules1) && Assignable(Shape1, Evolved(Rules1))
    ensures EvolveValue(Shape1, Rules1) == Some(Result1)
  {
    InnermostLevel();
    SingleFieldEvolves("b", Shape2, Rules2, Result2);
  }

  /** Nested rules recurse once per level: `{a: {b: {c: number}}}` becomes `{a: {b: {c: string}}}`. */
  lemma ThreeLevels()
    ensures EvolveCall(Rules0, Shape0) == Some(Result0)
  {
    MiddleLevel();
    SingleFieldEvolves("a", Shape1, Rules1, Result1);
  }

  const Empty := Obj(map[], {})

  /**
   * `evolve({a: {}}, {a: 1})`: `{a: number}` fits `{a?: {}}`, so the call
   * type-checks.  As declared, the nested value of `a` is `never`, because
   * `number extends object` fails; the model keeps `a: number`.
   */
  lemma EmptyNestedRulesOnPrimitive()
    ensures EvolveCall(Obj(map["a" := Empty], {}), Obj(map["a" := Num], {})) == Some(Obj(map["a" := Num], {}))
    ensures EvolveNestedValueAsWritten(Num, Empty) == None
  {
    var e := Obj(map["a" := Empty], {});
    var o := Obj(map["a" := Num], {});
    assert IsEvolver(Empty) && IsRule(e.fields["a"]) && IsEvolver(e);
    assert Assignable(Num, Evolvable(Empty));
    assert Evolvable(e).fields["a"] == Evolvable(Empty);
    assert Assignable(o, Evolvable(e));
    assert Evolve(o, e).fields == o.fields;
  }

  /** Nested rules against a `number` field: `evolve({a: {b: f}}, {a: 1})` does not type-check, and the field alone evolves to `never`. */
  lemma NestedRulesOnPrimitiveRejected()
    ensures EvolveValue(Num, Obj(map["b" := Fun([Num], Str)], {})) == None
    ensures EvolveCall(Obj(map["a" := Obj(map["b" := Fun([Num], Str)], {})], {}),
                       Obj(map["a" := Num], {})) == None
  {
    var e1 := Obj(map["b" := Fun([Num], Str)], {});
    var e0 := Obj(map["a" := e1], {});
    var o := Obj(map["a" := Num], {});
    assert IsRule(e1.fields["b"]);
    assert IsEvolver(e1);
    NestedRuleRecurses(Num, e1);
    assert !Rel(Num, Evolvable(e0).fields["a"], false);
  }
}

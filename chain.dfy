/**
 * `formatterValidatorChainFactory(funcPool, funcs, args)` (dist/utils.js):
 * turns a rule specification (a rule list such as `required,greater(value:5)`,
 * an array of such lists and functions, or one function) into a chain of
 * steps, and the returned function runs the chain. For every operation but
 * `validate` the chain is a left fold in which a step returning `undefined`
 * leaves the value unchanged; for `validate` it is a promise that rejects at
 * the first truthy step result (following an awaitable result to its
 * outcome) and otherwise resolves with `[val, op, args]`.
 *
 * Rule functions are modelled as Dafny functions of the heap, the value,
 * the operation and the argument bag; an awaitable is a `Thenable` value
 * that carries its eventual outcome, so the promise chain is sequential.
 */
module Chain {
  import opened JsCore
  import opened RuleSpec

  /** A rule function `(val, op, args)`. */
  type RuleFn = (Heap, Value, string, Args) -> Value

  /** What a rule pool (`validators`, `formatters`) holds under a name: a function or another value. */
  datatype Entry = Callable(fn: RuleFn) | Data(value: Value)

  type Pool = map<string, Entry>

  /** An element of an array given as the chain's specification. */
  datatype Item =
    | TextItem(text: string)      // a string (or String): a rule list
    | FunctionItem(fn: RuleFn)    // a function, used as it is
    | OtherItem                   // anything else, which is skipped

  /** The `funcs` argument of the factory. */
  datatype Funcs =
    | Falsy                       // undefined, null, false, 0, NaN or ''
    | Text(text: string)          // a string: one rule list
    | List(items: seq<Item>)
    | Function(fn: RuleFn)
    | Unsupported                 // any other truthy value

  /**
   * One step of the chain: a registered rule wrapped with its parsed
   * arguments, or a function used as given, which must itself return an
   * object `{args, value}`.
   */
  datatype Step = Wrapped(parsed: Args, fn: RuleFn) | Raw(fn: RuleFn)

  /** The message thrown for a specification of an unsupported type. */
  const UnsupportedMessage: string := "Error: Arguments not supported"

  /** The function a falsy specification stands for: the value itself, except `undefined` under `validate`. */
  const IdentityFn: RuleFn := (h: Heap, v: Value, op: string, a: Args) => if op == "validate" then Undefined else v

  // -------------------------------------------------------------------------
  // Building the chain
  // -------------------------------------------------------------------------

  /** Whether the pool holds a function under `name` (`funcPool[name] instanceof Function`). */
  predicate IsRegistered(pool: Pool, name: string)
  {
    name in pool && pool[name].Callable?
  }

  /** The step a parsed rule contributes: its wrapped function, or none when the name is not registered. */
  function RuleStep(pool: Pool, rule: Rule): seq<Step>
  {
    if IsRegistered(pool, rule.name) then [Wrapped(rule.args, pool[rule.name].fn)] else []
  }

  /** The steps of parsed rules, in order (built up from the last rule, as the loop pushes them). */
  function RuleSteps(pool: Pool, rules: seq<Rule>): seq<Step>
  {
    if rules == [] then [] else RuleSteps(pool, rules[..|rules| - 1]) + RuleStep(pool, rules[|rules| - 1])
  }

  /** The steps one array element contributes. */
  function ItemSteps(pool: Pool, item: Item): seq<Step>
  {
    match item
    case TextItem(text) => RuleSteps(pool, FunctionsAndArguments(text))
    case FunctionItem(f) => [Raw(f)]
    case OtherItem => []
  }

  function ItemsSteps(pool: Pool, items: seq<Item>): seq<Step>
  {
    if items == [] then [] else ItemsSteps(pool, items[..|items| - 1]) + ItemSteps(pool, items[|items| - 1])
  }

  /** The chain the factory builds for `funcs`, or the error it throws. */
  function Steps(pool: Pool, funcs: Funcs): Result<seq<Step>>
  {
    match funcs
    case Falsy => Ok([Raw(IdentityFn)])
    case Text(text) => Ok(if text == "" then [Raw(IdentityFn)] else ItemsSteps(pool, [TextItem(text)]))
    case List(items) => Ok(ItemsSteps(pool, items))
    case Function(f) => Ok([Raw(f)])
    case Unsupported => Throws(Raised(UnsupportedMessage))
  }

  /** The factory's set-up: the specification is normalised into the array `finalFuncs`. */
  method BuildSteps(pool: Pool, funcs: Funcs) returns (r: Result<seq<Step>>)
    ensures r == Steps(pool, funcs)
  {
    match funcs
    case Falsy =>
      r := Ok([Raw(IdentityFn)]);
    case Text(text) =>
      if text == "" {
        r := Ok([Raw(IdentityFn)]);
      } else {
        var finalFuncs := PushItems(pool, [TextItem(text)]);
        r := Ok(finalFuncs);
      }
    case List(items) =>
      var finalFuncs := PushItems(pool, items);
      r := Ok(finalFuncs);
    case Function(f) =>
      r := Ok([Raw(f)]);
    case Unsupported =>
      r := Throws(Raised(UnsupportedMessage));
  }

  /**
   * The loop over the array: a string is parsed and each rule whose name
   * the pool holds as a function is wrapped and pushed; a function is
   * pushed as it is; anything else is skipped.
   */
  method PushItems(pool: Pool, items: seq<Item>) returns (finalFuncs: seq<Step>)
    ensures finalFuncs == ItemsSteps(pool, items)
  {
    finalFuncs := [];
    var i := 0;
    while i < |items|
      invariant 0 <= i <= |items|
      invariant finalFuncs == ItemsSteps(pool, items[..i])
    {
      assert items[..i + 1][..i] == items[..i];
      match items[i] {
      case TextItem(text) =>
        var parsedFuncs := GetFunctionsAndArguments(text);
        finalFuncs := PushRules(pool, parsedFuncs, finalFuncs);
      case FunctionItem(f) =>
        finalFuncs := finalFuncs + [Raw(f)];
      case OtherItem =>
      }
      i := i + 1;
    }
    assert items[..|items|] == items;
  }

  /** The inner loop: each parsed rule whose name the pool holds as a function is wrapped and pushed. */
  method PushRules(pool: Pool, parsedFuncs: seq<Rule>, start: seq<Step>) returns (finalFuncs: seq<Step>)
    ensures finalFuncs == start + RuleSteps(pool, parsedFuncs)
  {
    finalFuncs := start;
    var j := 0;
    while j < |parsedFuncs|
      invariant 0 <= j <= |parsedFuncs|
      invariant finalFuncs == start + RuleSteps(pool, parsedFuncs[..j])
    {
      assert parsedFuncs[..j + 1][..j] == parsedFuncs[..j];
      var thisFunc := parsedFuncs[j];
      if thisFunc.name in pool && pool[thisFunc.name].Callable? {
        finalFuncs := finalFuncs + [Wrapped(thisFunc.args, pool[thisFunc.name].fn)];
      }
      j := j + 1;
    }
    assert parsedFuncs[..|parsedFuncs|] == parsedFuncs;
  }

  // -------------------------------------------------------------------------
  // Running one step
  // -------------------------------------------------------------------------

  /** The `args` a step reports: the fresh bag a wrapper built, or whatever a raw function's result held. */
  datatype Payload = Fresh(bag: Args) | Given(value: Value)

  /** What a step returns: `{args, value}`. */
  datatype Output = Output(args: Payload, value: Value)

  /** `Object.assign({}, first, second)`: the keys of both, those of `second` winning. */
  function Assign(first: Args, second: Args): (r: Args)
    ensures r.Keys == first.Keys + second.Keys
    ensures forall k :: k in second ==> r[k] == second[k]
    ensures forall k :: k in first && k !in second ==> r[k] == first[k]
  {
    first + second
  }

  /**
   * `func.apply(this, [val, op, formatterArgs])` followed by reading
   * `funcRet.args` and `funcRet.value`: a wrapper calls its rule with its
   * parsed arguments overridden by the formatter arguments; a raw
   * function's result is read as it is, which throws when it is null or
   * undefined.
   */
  function Apply(h: Heap, s: Step, val: Value, op: string, formatterArgs: Args): (r: Result<Output>)
    ensures s.Wrapped? ==> r.Ok?
    ensures s.Raw? ==> (r.Throws? <==> IsNullish(s.fn(h, val, op, formatterArgs)))
  {
    match s
    case Wrapped(parsed, fn) =>
      var thisArgs := Assign(parsed, formatterArgs);
      Ok(Output(Fresh(thisArgs), fn(h, val, op, thisArgs)))
    case Raw(fn) =>
      var funcRet := fn(h, val, op, formatterArgs);
      if IsNullish(funcRet) then Throws(TypeError)
      else Ok(Output(Given(Member(h, funcRet, "args").value), Member(h, funcRet, "value").value))
  }

  // -------------------------------------------------------------------------
  // Running the chain
  // -------------------------------------------------------------------------

  /** `doNextFunc` for an operation other than `validate`: a step's result replaces the value unless it is `undefined`. */
  function Fold(h: Heap, steps: seq<Step>, val: Value, op: string, formatterArgs: Args): Result<Value>
  {
    if steps == [] then Ok(val)
    else match Apply(h, steps[0], val, op, formatterArgs)
      case Throws(e) => Throws(e)
      case Ok(out) => Fold(h, steps[1..], if out.value != Undefined then out.value else val, op, formatterArgs)
  }

  /** How the promise of a `validate` call settles. */
  datatype Verdict =
    | Resolves(value: Value, args: Payload)                     // resolve([val, op, funcArgs])
    | RejectsError(error: Value, value: Value, args: Payload)   // reject({error, args: [val, op, funcArgs]})
    | RejectsAfter(reason: Value, value: Value, args: Payload)  // reject([reason, val, op, funcArgs])
    | RejectsThrow(thrown: Throw)                               // the executor itself threw
    | Pending                                                   // never settles

  /**
   * `doNextFunc` under `validate`. `funcArgs` is what the previous step
   * reported (the formatter arguments before the first step); `deferred`
   * says that the walk goes on inside a `then` callback, where a throw no
   * longer reaches the promise, which then never settles.
   */
  function Check(h: Heap, steps: seq<Step>, val: Value, formatterArgs: Args, funcArgs: Payload, deferred: bool): Verdict
  {
    if steps == [] then Resolves(val, funcArgs)
    else match Apply(h, steps[0], val, "validate", formatterArgs)
      case Throws(e) => if deferred then Pending else RejectsThrow(e)
      case Ok(out) =>
        if !Truthy(out.value) then Check(h, steps[1..], val, formatterArgs, out.args, deferred)
        else if out.value.Thenable? then
          match out.value.outcome
          case Fulfils => Check(h, steps[1..], val, formatterArgs, out.args, true)
          case RejectsWith(reason) => RejectsAfter(reason, val, out.args)
          case NeverSettles => Pending
        else RejectsError(out.value, val, out.args)
  }

  /** What a call of the chain gives: a value (or a throw), or for `validate` a promise. */
  datatype Reply = Returns(result: Result<Value>) | Settles(verdict: Verdict)

  /**
   * The function the factory returns, called as `(val, op, userArgs)`: the
   * formatter arguments are the user's arguments overridden by the
   * factory's.
   */
  function Call(h: Heap, steps: seq<Step>, factoryArgs: Args, val: Value, op: string, userArgs: Args): (r: Reply)
    ensures (op == "validate") == r.Settles?
  {
    var formatterArgs := Assign(userArgs, factoryArgs);
    if op == "validate" then Settles(Check(h, steps, val, formatterArgs, Fresh(formatterArgs), false))
    else Returns(Fold(h, steps, val, op, formatterArgs))
  }

  // -------------------------------------------------------------------------
  // Unregistered names are dropped
  // -------------------------------------------------------------------------

  /** The parsed rules whose names are registered, in order. */
  function Registered(pool: Pool, rules: seq<Rule>): seq<Rule>
  {
    if rules == [] then []
    else (if IsRegistered(pool, rules[0].name) then [rules[0]] else []) + Registered(pool, rules[1..])
  }

  /** The function the pool holds under a registered name. */
  function FunctionOf(pool: Pool, name: string): RuleFn
  {
    if IsRegistered(pool, name) then pool[name].fn else IdentityFn
  }

  /** Each rule wrapped with the pool's function under its name. */
  function WrapAll(pool: Pool, rules: seq<Rule>): seq<Step>
  {
    if rules == [] then [] else [Wrapped(rules[0].args, FunctionOf(pool, rules[0].name))] + WrapAll(pool, rules[1..])
  }

  lemma {:induction false} RuleStepsFront(pool: Pool, rules: seq<Rule>)
    requires rules != []
    ensures RuleSteps(pool, rules) == RuleStep(pool, rules[0]) + RuleSteps(pool, rules[1..])
    decreases |rules|
  {
    if |rules| > 1 {
      var init := rules[..|rules| - 1];
      RuleStepsFront(pool, init);
      assert init[1..] == rules[1..][..|rules[1..]| - 1];
      assert init[0] == rules[0];
    } else {
      assert rules[1..] == [];
      assert rules[..0] == [];
    }
  }

  /**
   * The chain of a rule list keeps exactly the rules whose names the pool
   * holds as functions, in their order, each wrapped with its parsed
   * arguments: every unregistered name is dropped silently.
   */
  lemma {:induction false} UnregisteredDropped(pool: Pool, rules: seq<Rule>)
    ensures RuleSteps(pool, rules) == WrapAll(pool, Registered(pool, rules))
    decreases |rules|
  {
    if rules != [] {
      RuleStepsFront(pool, rules);
      UnregisteredDropped(pool, rules[1..]);
      if IsRegistered(pool, rules[0].name) {
        var kept := [rules[0]] + Registered(pool, rules[1..]);
        assert kept[0] == rules[0] && kept[1..] == Registered(pool, rules[1..]);
      } else {
        assert Registered(pool, rules) == Registered(pool, rules[1..]);
      }
    }
  }

  /** A rule list naming nothing registered gives an empty chain, which returns the value and validates it. */
  lemma NothingRegistered(h: Heap, pool: Pool, rules: seq<Rule>, factoryArgs: Args, val: Value, op: string,
                          userArgs: Args)
    requires forall i :: 0 <= i < |rules| ==> !IsRegistered(pool, rules[i].name)
    ensures var steps := RuleSteps(pool, rules);
            steps == []
            && Call(h, steps, factoryArgs, val, op, userArgs)
               == if op == "validate" then Settles(Resolves(val, Fresh(Assign(userArgs, factoryArgs))))
                  else Returns(Ok(val))
  {
    UnregisteredDropped(pool, rules);
    NoneRegistered(pool, rules);
  }

  lemma {:induction false} NoneRegistered(pool: Pool, rules: seq<Rule>)
    requires forall i :: 0 <= i < |rules| ==> !IsRegistered(pool, rules[i].name)
    ensures Registered(pool, rules) == []
  {
    if rules != [] {
      NoneRegistered(pool, rules[1..]);
    }
  }

  /**
   * The chain built from a written rule list: a string holding rules
   * written as words with plain arguments yields the wrappers of exactly
   * the registered ones, with the arguments as written.
   */
  lemma TextChain(pool: Pool, ws: seq<(string, seq<(string, string)>)>)
    requires ws != [] && IsPlainRules(ws)
    ensures Steps(pool, Text(RuleListText(ws))) == Ok(WrapAll(pool, Registered(pool, WrittenRules(ws))))
  {
    var t := RuleListText(ws);
    ReadBack(ws);
    UnregisteredDropped(pool, WrittenRules(ws));
    assert t != "" by {
      assert t == RuleText(ws[0].0, ws[0].1) + RulesRest(ws[1..]);
      PlainRulesTail(ws);
    }
    assert [TextItem(t)][..0] == [];
    assert ItemsSteps(pool, [TextItem(t)]) == RuleSteps(pool, FunctionsAndArguments(t));
  }

  /** An unsupported specification makes the factory throw. */
  lemma UnsupportedThrows(pool: Pool)
    ensures Steps(pool, Unsupported) == Throws(Raised("Error: Arguments not supported"))
  {
  }

  // -------------------------------------------------------------------------
  // Argument precedence
  // -------------------------------------------------------------------------

  /**
   * A wrapped rule sees, for each key, the factory's argument if there is
   * one, else the caller's, else its own parsed argument.
   */
  lemma ArgsPrecedence(parsed: Args, factoryArgs: Args, userArgs: Args, key: string)
    ensures var seen := Assign(parsed, Assign(userArgs, factoryArgs));
            (key in seen <==> key in parsed || key in userArgs || key in factoryArgs)
            && (key in factoryArgs ==> seen[key] == factoryArgs[key])
            && (key !in factoryArgs && key in userArgs ==> seen[key] == userArgs[key])
            && (key !in factoryArgs && key !in userArgs && key in parsed ==> seen[key] == parsed[key])
  {
  }

  // -------------------------------------------------------------------------
  // The fold
  // -------------------------------------------------------------------------

  /** Running two chains one after the other is running them joined: the chain is a left fold. */
  lemma {:induction false} FoldJoin(h: Heap, first: seq<Step>, second: seq<Step>, val: Value, op: string,
                                    formatterArgs: Args)
    ensures Fold(h, first + second, val, op, formatterArgs)
            == match Fold(h, first, val, op, formatterArgs)
               case Throws(e) => Throws(e)
               case Ok(v) => Fold(h, second, v, op, formatterArgs)
    decreases |first|
  {
    if first != [] {
      assert (first + second)[0] == first[0];
      assert (first + second)[1..] == first[1..] + second;
      match Apply(h, first[0], val, op, formatterArgs)
      case Throws(_) =>
      case Ok(out) =>
        FoldJoin(h, first[1..], second, if out.value != Undefined then out.value else val, op, formatterArgs);
    } else {
      assert first + second == second;
    }
  }

  /** Whether a step leaves the value as it is (`undefined`) under `op`. */
  predicate KeepsValue(h: Heap, s: Step, val: Value, op: string, formatterArgs: Args)
  {
    Apply(h, s, val, op, formatterArgs).Ok? && Apply(h, s, val, op, formatterArgs).value.value == Undefined
  }

  /** A chain whose every step answers `undefined` returns the value unchanged. */
  lemma {:induction false} FoldKeepsValue(h: Heap, steps: seq<Step>, val: Value, op: string, formatterArgs: Args)
    requires forall i :: 0 <= i < |steps| ==> KeepsValue(h, steps[i], val, op, formatterArgs)
    ensures Fold(h, steps, val, op, formatterArgs) == Ok(val)
    decreases |steps|
  {
    if steps != [] {
      assert KeepsValue(h, steps[0], val, op, formatterArgs);
      forall i | 0 <= i < |steps[1..]| ensures KeepsValue(h, steps[1..][i], val, op, formatterArgs) {
        assert steps[1..][i] == steps[i + 1];
      }
      FoldKeepsValue(h, steps[1..], val, op, formatterArgs);
    }
  }

  /** A step that answers something other than `undefined` replaces the value for the rest of the chain. */
  lemma StepReplaces(h: Heap, s: Step, rest: seq<Step>, val: Value, op: string, formatterArgs: Args)
    requires Apply(h, s, val, op, formatterArgs).Ok?
    ensures var ret := Apply(h, s, val, op, formatterArgs).value.value;
            Fold(h, [s] + rest, val, op, formatterArgs)
            == Fold(h, rest, if ret == Undefined then val else ret, op, formatterArgs)
  {
    assert ([s] + rest)[1..] == rest;
  }

  // -------------------------------------------------------------------------
  // Validation
  // -------------------------------------------------------------------------

  /** Whether a step lets validation go on: it returns a falsy result, or an awaitable that fulfils. */
  predicate Passes(h: Heap, s: Step, val: Value, formatterArgs: Args)
  {
    var r := Apply(h, s, val, "validate", formatterArgs);
    r.Ok? && (!Truthy(r.value.value) || r.value.value == Thenable(Fulfils))
  }

  /** Whether every step of the chain lets validation go on. */
  predicate AllPass(h: Heap, steps: seq<Step>, val: Value, formatterArgs: Args)
  {
    forall i :: 0 <= i < |steps| ==> Passes(h, steps[i], val, formatterArgs)
  }

  /** What the last step reported, or the given arguments before any step. */
  function LastArgs(h: Heap, steps: seq<Step>, val: Value, formatterArgs: Args, funcArgs: Payload): Payload
  {
    if steps == [] then funcArgs
    else match Apply(h, steps[|steps| - 1], val, "validate", formatterArgs)
      case Ok(out) => out.args
      case Throws(_) => funcArgs
  }

  /**
   * Validation resolves exactly when every step passes, and then with the
   * value itself and the arguments the last step reported.
   */
  lemma {:induction false} ResolvesIffAllPass(h: Heap, steps: seq<Step>, val: Value, formatterArgs: Args,
                                              funcArgs: Payload, deferred: bool)
    ensures Check(h, steps, val, formatterArgs, funcArgs, deferred).Resolves?
            <==> AllPass(h, steps, val, formatterArgs)
    ensures AllPass(h, steps, val, formatterArgs)
            ==> Check(h, steps, val, formatterArgs, funcArgs, deferred)
                == Resolves(val, LastArgs(h, steps, val, formatterArgs, funcArgs))
    decreases |steps|
  {
    if steps != [] {
      var r := Apply(h, steps[0], val, "validate", formatterArgs);
      if r.Ok? {
        var out := r.value;
        var next := out.value.Thenable? && Truthy(out.value) && out.value.outcome.Fulfils?;
        ResolvesIffAllPass(h, steps[1..], val, formatterArgs, out.args, deferred || next);
        assert AllPass(h, steps, val, formatterArgs)
               <==> Passes(h, steps[0], val, formatterArgs) && AllPass(h, steps[1..], val, formatterArgs) by {
          if Passes(h, steps[0], val, formatterArgs) && AllPass(h, steps[1..], val, formatterArgs) {
            forall i | 0 <= i < |steps| ensures Passes(h, steps[i], val, formatterArgs) {
              if i > 0 {
                assert steps[i] == steps[1..][i - 1];
              }
            }
          }
          if AllPass(h, steps, val, formatterArgs) {
            forall i | 0 <= i < |steps[1..]| ensures Passes(h, steps[1..][i], val, formatterArgs) {
              assert steps[1..][i] == steps[i + 1];
            }
          }
        }
        if |steps| > 1 {
          assert steps[1..][|steps[1..]| - 1] == steps[|steps| - 1];
        }
      } else {
        assert !Passes(h, steps[0], val, formatterArgs);
      }
    }
  }

  /**
   * The first truthy result rejects: when every earlier step passed and
   * step `j` returns a truthy value that is not an awaitable, validation
   * rejects with `{error: that value, args: [val, op, its args]}`.
   */
  lemma {:induction false} FirstFailureRejects(h: Heap, steps: seq<Step>, j: nat, val: Value, formatterArgs: Args,
                                               funcArgs: Payload, deferred: bool)
    requires j < |steps|
    requires forall i :: 0 <= i < j ==> Passes(h, steps[i], val, formatterArgs)
    requires Apply(h, steps[j], val, "validate", formatterArgs).Ok?
    requires var ret := Apply(h, steps[j], val, "validate", formatterArgs).value.value;
             Truthy(ret) && !ret.Thenable?
    ensures var out := Apply(h, steps[j], val, "validate", formatterArgs).value;
            Check(h, steps, val, formatterArgs, funcArgs, deferred) == RejectsError(out.value, val, out.args)
    decreases j
  {
    if j > 0 {
      assert Passes(h, steps[0], val, formatterArgs);
      var out := Apply(h, steps[0], val, "validate", formatterArgs).value;
      forall i | 0 <= i < j - 1 ensures Passes(h, steps[1..][i], val, formatterArgs) {
        assert steps[1..][i] == steps[i + 1];
      }
      assert steps[1..][j - 1] == steps[j];
      FirstFailureRejects(h, steps[1..], j - 1, val, formatterArgs, out.args, deferred || Truthy(out.value));
    }
  }

  /**
   * An awaitable result is followed to its outcome: when every earlier
   * step passed and step `j` returns an awaitable that rejects with
   * `reason`, validation rejects with `[reason, val, op, its args]`.
   */
  lemma {:induction false} AwaitedRejection(h: Heap, steps: seq<Step>, j: nat, val: Value, formatterArgs: Args,
                                            funcArgs: Payload, deferred: bool, reason: Value)
    requires j < |steps|
    requires forall i :: 0 <= i < j ==> Passes(h, steps[i], val, formatterArgs)
    requires Apply(h, steps[j], val, "validate", formatterArgs).Ok?
    requires Apply(h, steps[j], val, "validate", formatterArgs).value.value == Thenable(RejectsWith(reason))
    ensures var out := Apply(h, steps[j], val, "validate", formatterArgs).value;
            Check(h, steps, val, formatterArgs, funcArgs, deferred) == RejectsAfter(reason, val, out.args)
    decreases j
  {
    if j > 0 {
      assert Passes(h, steps[0], val, formatterArgs);
      var out := Apply(h, steps[0], val, "validate", formatterArgs).value;
      forall i | 0 <= i < j - 1 ensures Passes(h, steps[1..][i], val, formatterArgs) {
        assert steps[1..][i] == steps[i + 1];
      }
      assert steps[1..][j - 1] == steps[j];
      AwaitedRejection(h, steps[1..], j - 1, val, formatterArgs, out.args, deferred || Truthy(out.value), reason);
    }
  }

  /** Validation never changes the value: whatever it settles with carries the value it was given. */
  lemma {:induction false} CheckKeepsValue(h: Heap, steps: seq<Step>, val: Value, formatterArgs: Args,
                                           funcArgs: Payload, deferred: bool)
    ensures var v := Check(h, steps, val, formatterArgs, funcArgs, deferred);
            (v.Resolves? || v.RejectsError? || v.RejectsAfter?) ==> v.value == val
    decreases |steps|
  {
    if steps != [] {
      match Apply(h, steps[0], val, "validate", formatterArgs)
      case Throws(_) =>
      case Ok(out) =>
        CheckKeepsValue(h, steps[1..], val, formatterArgs, out.args, deferred || Truthy(out.value));
    }
  }

  // -------------------------------------------------------------------------
  // A falsy specification
  // -------------------------------------------------------------------------

  /**
   * As written: the identity function a falsy specification stands for
   * returns the bare value, not `{args, value}`, so `validate` always
   * rejects with a TypeError (it reads `.args` of `undefined`), and any
   * other operation on null or undefined throws one.
   */
  lemma FalsyChainFails(h: Heap, pool: Pool, factoryArgs: Args, val: Value, op: string, userArgs: Args)
    ensures Steps(pool, Falsy).Ok?
    ensures var steps := Steps(pool, Falsy).value;
            (op == "validate" ==> Call(h, steps, factoryArgs, val, op, userArgs) == Settles(RejectsThrow(TypeError)))
            && (op != "validate" && IsNullish(val) ==> Call(h, steps, factoryArgs, val, op, userArgs) == Returns(Throws(TypeError)))
  {
    var steps := Steps(pool, Falsy).value;
    assert steps == [Raw(IdentityFn)];
    var fa := Assign(userArgs, factoryArgs);
    if op == "validate" {
      assert IdentityFn(h, val, op, fa) == Undefined;
      assert Apply(h, steps[0], val, op, fa) == Throws(TypeError);
    } else if IsNullish(val) {
      assert IdentityFn(h, val, op, fa) == val;
      assert Apply(h, steps[0], val, op, fa) == Throws(TypeError);
    }
  }

  /** Corrected: a falsy specification stands for the identity rule, wrapped like a registered one. */
  function IntendedSteps(pool: Pool, funcs: Funcs): (r: Result<seq<Step>>)
    ensures funcs != Falsy && funcs != Text("") ==> r == Steps(pool, funcs)
  {
    if funcs == Falsy || funcs == Text("") then Ok([Wrapped(map[], IdentityFn)]) else Steps(pool, funcs)
  }

  /** With the correction, a falsy specification validates every value and returns every value unchanged. */
  lemma IntendedFalsyChain(h: Heap, pool: Pool, factoryArgs: Args, val: Value, op: string, userArgs: Args)
    ensures IntendedSteps(pool, Falsy).Ok?
    ensures var steps := IntendedSteps(pool, Falsy).value;
            var fa := Assign(userArgs, factoryArgs);
            Call(h, steps, factoryArgs, val, op, userArgs)
            == if op == "validate" then Settles(Resolves(val, Fresh(Assign(map[], fa)))) else Returns(Ok(val))
  {
    var steps := IntendedSteps(pool, Falsy).value;
    var fa := Assign(userArgs, factoryArgs);
    assert steps == [Wrapped(map[], IdentityFn)];
    var out := Output(Fresh(Assign(map[], fa)), if op == "validate" then Undefined else val);
    assert Apply(h, steps[0], val, op, fa) == Ok(out);
    assert steps[1..] == [];
    if op == "validate" {
      assert Check(h, steps, val, fa, Fresh(fa), false) == Check(h, [], val, fa, out.args, false);
    } else {
      assert Fold(h, steps, val, op, fa) == Fold(h, [], val, op, fa);
    }
  }

  // -------------------------------------------------------------------------
  // The registries
  // -------------------------------------------------------------------------

  lemma OneRuleRead(pool: Pool, name: string, kvs: seq<(string, string)>)
    requires IsWord(name) && IsPlainPairs(kvs)
    ensures Steps(pool, Text(RuleListText([(name, kvs)]))) == Ok(WrapAll(pool, Registered(pool, WrittenRules([(name, kvs)]))))
  {
    var ws := [(name, kvs)];
    assert ws[0] == (name, kvs) && ws[1..] == [];
    assert IsPlainRules(ws);
    TextChain(pool, ws);
  }

  lemma OneRuleWrapped(pool: Pool, name: string, kvs: seq<(string, string)>)
    requires IsRegistered(pool, name)
    ensures WrapAll(pool, Registered(pool, WrittenRules([(name, kvs)]))) == [Wrapped(PutAll(map[], kvs), pool[name].fn)]
  {
    var ws := [(name, kvs)];
    assert ws[0] == (name, kvs) && ws[1..] == [];
    var rule := Rule(name, PutAll(map[], kvs));
    assert WrittenRules(ws) == [rule] + WrittenRules([]);
    assert Registered(pool, [rule]) == [rule] + Registered(pool, []);
    assert WrapAll(pool, [rule]) == [Wrapped(rule.args, FunctionOf(pool, name))] + WrapAll(pool, []);
  }

  lemma OneRuleText(name: string, kvs: seq<(string, string)>)
    ensures RuleListText([(name, kvs)]) == RuleText(name, kvs)
  {
    var ws := [(name, kvs)];
    assert ws[0] == (name, kvs) && ws[1..] == [];
    assert RuleListText(ws) == RuleText(name, kvs) + RulesRest([]);
  }

  /** One registered rule written with plain arguments becomes one wrapped step with those arguments. */
  lemma OneRule(pool: Pool, name: string, kvs: seq<(string, string)>)
    requires IsWord(name) && IsPlainPairs(kvs) && IsRegistered(pool, name)
    ensures Steps(pool, Text(RuleText(name, kvs))) == Ok([Wrapped(PutAll(map[], kvs), pool[name].fn)])
  {
    OneRuleRead(pool, name, kvs);
    OneRuleWrapped(pool, name, kvs);
    OneRuleText(name, kvs);
  }

  /** After `addValidator(name, f)` (or `addFormatter`), the chain written as `name` is `f` alone, with no arguments. */
  lemma AddedRuleIsUsed(pool: Pool, name: string, f: RuleFn)
    requires IsWord(name)
    ensures Steps(pool[name := Callable(f)], Text(name)) == Ok([Wrapped(map[], f)])
  {
    OneRule(pool[name := Callable(f)], name, []);
    assert RuleText(name, []) == name && PutAll(map[], []) == map[];
  }

  /**
   * A rule registry (`validators` with `addValidator`/`validatorExists`,
   * `formatters` with `addFormatter`/`formatterExists`).
   */
  class Registry {
    var pool: Pool

    constructor(initial: Pool)
      ensures pool == initial
    {
      pool := initial;
    }

    /** `validators[name] !== undefined`. */
    function Exists(name: string): (r: bool)
      reads this
      ensures r <==> name in pool && pool[name] != Data(Undefined)
    {
      name in pool && pool[name] != Data(Undefined)
    }

    /** `validators[name] = func; return func`. */
    method Add(name: string, entry: Entry) returns (r: Entry)
      modifies this
      ensures pool == old(pool)[name := entry] && r == entry
      ensures entry.Callable? ==> Exists(name) && IsRegistered(pool, name)
    {
      pool := pool[name := entry];
      r := entry;
    }

    /** `validatorFunction(funcs, args)`: the factory bound to this registry's pool. */
    function Chain(funcs: Funcs): (r: Result<seq<Step>>)
      reads this
      ensures r.Throws? <==> funcs.Unsupported?
    {
      Steps(pool, funcs)
    }
  }
}

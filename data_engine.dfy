/**
 * The `TranslatorEngine` of data.js: an engine holds the base data and the
 * current data, and each method returns a new engine over a fresh result
 * (or the same engine when there is nothing to work on). Modelled here:
 * `filter` with its default predicate, `stripKeys` / `stripValues`, `wrap`
 * and `extract`. Callbacks are pure functions of the heap they read.
 */
module DataEngine {
  import opened JsCore
  import opened HeapFacts
  import opened PropSpec
  import opened Predicates
  import opened DataCollections

  /** An engine: the base data and the current data (`value()`). */
  datatype Engine = Engine(data: Value, current: Value)

  /**
   * Whether `filter`, `wrap` and `extract` hand back the engine itself:
   * the current data is falsy, or a string, a finite number, a boolean or
   * a function.
   */
  predicate Passive(h: Heap, d: Value)
  {
    !Truthy(d) || InstanceOfSpec(h, d, ["string", "number", "boolean", "function"]) == Bool(true)
  }

  /** An engine with fresh current data `o`, allocated after `h`. */
  function Fresh(h: Heap, e: Engine, o: Obj): (r: (Heap, Engine))
    ensures r.0 == h + [o] && r.1 == Engine(e.data, Ref(|h|))
  {
    var (h', a) := Alloc(h, o);
    (h', Engine(e.data, Ref(a)))
  }

  // -------------------------------------------------------------------------
  // filter(func)
  // -------------------------------------------------------------------------

  /** The argument of `filter`: a function, or some other value. */
  datatype FilterArg = Given(f: Callback) | NotGiven(v: Value)

  /** The default predicate of `filter`: the element is neither null nor undefined. */
  function KeepPresent(): Callback
  {
    (h: Heap, elem: Value, key: Value, d: Value) => Bool(!IsNullish(elem))
  }

  /** The indices below `n` that `Array.prototype.filter` visits: those the array holds, ascending. */
  function HeldIndices(o: Obj, n: nat): (r: seq<nat>)
    ensures forall i :: 0 <= i < |r| ==> r[i] < n
    decreases n
  {
    if n == 0 then []
    else HeldIndices(o, n - 1) + if NatToString(n - 1) in o.slots then [n - 1] else []
  }

  /** The elements of `d` at `idx` on which `f(element, index, d)` is truthy, in order. */
  function SelectElements(h: Heap, d: Value, f: Callback, idx: seq<nat>): seq<Value>
    decreases |idx|
  {
    if idx == [] then []
    else
      var i := idx[|idx| - 1];
      var x := Elem(h, d, NatToString(i));
      SelectElements(h, d, f, idx[..|idx| - 1])
      + if Truthy(f(h, x, Number(Finite(i as real)), d)) then [x] else []
  }

  /** The elements of `d` at `idx`, in order. */
  function ElementsAt(h: Heap, d: Value, idx: seq<nat>): (r: seq<Value>)
    ensures |r| == |idx|
    decreases |idx|
  {
    if idx == [] then [] else ElementsAt(h, d, idx[..|idx| - 1]) + [Elem(h, d, NatToString(idx[|idx| - 1]))]
  }

  /** The predicate `filter` applies: the function given, or the default one. */
  function PredicateOf(func: FilterArg): Callback
  {
    if func.Given? then func.f else KeepPresent()
  }

  /**
   * `filter(func)`. An array keeps, in a fresh array, the elements on which
   * `func(element, index, array)` is truthy (any non-function `func` is
   * replaced by the default). Any other object keeps, in a fresh object,
   * the entries of `Object.keys` on which `func(value, key, object)` is
   * exactly `true`; a falsy `func` is replaced by the default, and a truthy
   * non-function throws a TypeError when there is an entry to call it on.
   */
  function Filter(h: Heap, e: Engine, func: FilterArg): (r: Result<(Heap, Engine)>)
    ensures r.Ok? ==> |r.value.0| >= |h| && r.value.0[..|h|] == h && r.value.1.data == e.data
    ensures r.Throws? <==> (!Passive(h, e.current) && !IsArray(h, e.current) && func.NotGiven? && Truthy(func.v)
                            && KeysFor(h, e.current) != [])
  {
    var d := e.current;
    if Passive(h, d) then Ok((h, e))
    else if IsArray(h, d) then
      var o := h[d.addr];
      var f := if func.Given? then func.f else KeepPresent();
      Ok(Fresh(h, e, ArrayLiteral(SelectElements(h, d, f, HeldIndices(o, o.length)))))
    else if func.NotGiven? && Truthy(func.v) && KeysFor(h, d) != [] then Throws(TypeError)
    else Ok(Fresh(h, e, ObjectLiteral(SelectEntries(h, d, PredicateOf(func), KeysFor(h, d)))))
  }

  /** `filter` as the source runs it: the array branch in one call, the object branch as a loop over the keys. */
  method FilterEngine(h: Heap, e: Engine, func: FilterArg) returns (r: Result<(Heap, Engine)>)
    ensures r == Filter(h, e, func)
  {
    var d := e.current;
    if Passive(h, d) {
      return Ok((h, e));
    }
    if IsArray(h, d) {
      var o := h[d.addr];
      var f := if func.Given? then func.f else KeepPresent();
      return Ok(Fresh(h, e, ArrayLiteral(SelectElements(h, d, f, HeldIndices(o, o.length)))));
    }
    var ks := KeysFor(h, d);
    if func.NotGiven? && Truthy(func.v) && |ks| > 0 {
      return Throws(TypeError);
    }
    var obj := SelectLoop(h, d, PredicateOf(func), ks);
    return Ok(Fresh(h, e, obj));
  }

  /**
   * On an array, the new current data is a fresh array holding the
   * selected elements at indices `0 .. n-1`.
   */
  lemma FilterArray(h: Heap, e: Engine, func: FilterArg, i: nat)
    requires !Passive(h, e.current) && IsArray(h, e.current)
    ensures var o := h[e.current.addr];
            var kept := SelectElements(h, e.current, PredicateOf(func), HeldIndices(o, o.length));
            var r := Filter(h, e, func);
            r.Ok? && r.value.1.current == Ref(|h|) && r.value.0[|h|].kind.ArrayObject?
            && r.value.0[|h|].length == |kept|
            && (i < |kept| ==> ObjGet(r.value.0[|h|], NatToString(i)) == kept[i])
  {
    var o := h[e.current.addr];
    var kept := SelectElements(h, e.current, PredicateOf(func), HeldIndices(o, o.length));
    if i < |kept| {
      ArrayLiteralAt(kept, i);
    }
  }

  /**
   * Whether `r` is `xs` without its null and undefined values: none of `r`
   * is either, and every other value occurs in both equally often.
   */
  ghost predicate PresentOf(r: seq<Value>, xs: seq<Value>)
  {
    (forall j :: 0 <= j < |r| ==> !IsNullish(r[j]))
    && (forall x :: !IsNullish(x) ==> multiset(r)[x] == multiset(xs)[x])
  }

  /** The default predicate of `filter` keeps exactly the elements that are neither null nor undefined. */
  lemma {:induction false} DefaultKeepsPresent(h: Heap, d: Value, idx: seq<nat>)
    ensures PresentOf(SelectElements(h, d, KeepPresent(), idx), ElementsAt(h, d, idx))
    decreases |idx|
  {
    if idx != [] {
      var idx' := idx[..|idx| - 1];
      DefaultKeepsPresent(h, d, idx');
      var i := idx[|idx| - 1];
      var x := Elem(h, d, NatToString(i));
      var r' := SelectElements(h, d, KeepPresent(), idx');
      assert KeepPresent()(h, x, Number(Finite(i as real)), d) == Bool(!IsNullish(x));
      assert SelectElements(h, d, KeepPresent(), idx) == if IsNullish(x) then r' else r' + [x];
      assert ElementsAt(h, d, idx) == ElementsAt(h, d, idx') + [x];
      PresentOfStep(r', ElementsAt(h, d, idx'), x);
    }
  }

  /**
   * With no function given, an array's new current data is a fresh array of
   * its held elements without the null and undefined ones.
   */
  lemma DefaultFilterArray(h: Heap, e: Engine, v: Value)
    requires !Passive(h, e.current) && IsArray(h, e.current)
    ensures var d := e.current;
            var o := h[d.addr];
            var kept := SelectElements(h, d, KeepPresent(), HeldIndices(o, o.length));
            var r := Filter(h, e, NotGiven(v));
            r.Ok? && r.value.1.current == Ref(|h|) && r.value.0[|h|] == ArrayLiteral(kept)
            && PresentOf(kept, ElementsAt(h, d, HeldIndices(o, o.length)))
  {
    var o := h[e.current.addr];
    DefaultKeepsPresent(h, e.current, HeldIndices(o, o.length));
  }

  /** Appending `x` to the input appends it to the output unless it is null or undefined. */
  lemma PresentOfStep(r: seq<Value>, xs: seq<Value>, x: Value)
    requires PresentOf(r, xs)
    ensures PresentOf(if IsNullish(x) then r else r + [x], xs + [x])
  {
    var r2 := if IsNullish(x) then r else r + [x];
    assert multiset(xs + [x]) == multiset(xs) + multiset{x};
    assert multiset(r2) == if IsNullish(x) then multiset(r) else multiset(r) + multiset{x};
  }

  /**
   * On any other object, the new current data is a fresh plain object that
   * holds key `k` exactly when `Object.keys` lists it and the predicate is
   * exactly `true` on its value, with that value.
   */
  lemma FilterObject(h: Heap, e: Engine, func: FilterArg, k: string)
    requires !Passive(h, e.current) && !IsArray(h, e.current)
    ensures var d := e.current;
            var r := Filter(h, e, func);
            r.Ok? ==>
              r.value.1.current == Ref(|h|) && r.value.0[|h|].kind.PlainObject?
              && (k in r.value.0[|h|].slots
                  <==> k in KeysFor(h, d) && PredicateOf(func)(h, Elem(h, d, k), Str(k), d) == Bool(true))
              && (k in r.value.0[|h|].slots ==> r.value.0[|h|].slots[k].value == Elem(h, d, k))
  {
    SelectedObject(h, e.current, PredicateOf(func), KeysFor(h, e.current), k);
  }

  /** With no predicate, an object keeps exactly its entries whose value is neither null nor undefined. */
  lemma DefaultFilterObject(h: Heap, e: Engine, v: Value, k: string)
    requires !Passive(h, e.current) && !IsArray(h, e.current) && !Truthy(v)
    ensures var d := e.current;
            var r := Filter(h, e, NotGiven(v));
            r.Ok? && r.value.0[|h|].kind.PlainObject?
            && (k in r.value.0[|h|].slots <==> k in KeysFor(h, d) && !IsNullish(Elem(h, d, k)))
  {
    FilterObject(h, e, NotGiven(v), k);
  }

  // -------------------------------------------------------------------------
  // stripKeys(...matchers) / stripValues(...matchers)
  // -------------------------------------------------------------------------

  /** A matcher of `strip`: a regular expression (its `test`), a function, or any other value. */
  datatype Matcher = Pattern(test: string -> bool) | Predicate(f: (Heap, Value) -> Value) | Literal(v: Value)

  /** The `type` codes of `strip`. */
  const KEYS: Value := Number(Finite(1.0))
  const VALUES: Value := Number(Finite(2.0))

  /** Whether matcher `m` matches `x`: the pattern tests `'' + x`, the function returns truthy, or the value is `===`. */
  predicate Matches(h: Heap, m: Matcher, x: Value)
  {
    match m
    case Pattern(test) => test(ToString(h, x))
    case Predicate(f) => Truthy(f(h, x))
    case Literal(v) => StrictEquals(v, x)
  }

  /**
   * The predicate `strip(type, ...matchers)` hands to `filter`: its loop
   * returns from the first matcher, so with none it returns undefined.
   */
  function StripTest(kind: Value, matchers: seq<Matcher>): Callback
  {
    (h: Heap, elem: Value, key: Value, d: Value) =>
      if matchers == [] then Undefined
      else
        var x := if StrictEquals(kind, KEYS) then key else elem;
        match matchers[0]
        case Pattern(test) => Bool(!test(ToString(h, x)))
        case Predicate(f) => Bool(!Truthy(f(h, x)))
        case Literal(v) => Bool(!StrictEquals(v, x))
  }

  /** `strip(type, ...matchers)`: `filter` with the strip predicate. */
  function Strip(h: Heap, e: Engine, kind: Value, matchers: seq<Matcher>): (r: Result<(Heap, Engine)>)
    ensures r.Ok?
  {
    Filter(h, e, Given(StripTest(kind, matchers)))
  }

  /** The strip predicate is "the first matcher does not match", on the key or on the value. */
  lemma StripTestMeaning(kind: Value, matchers: seq<Matcher>, h: Heap, elem: Value, key: Value, d: Value)
    ensures StripTest(kind, matchers)(h, elem, key, d)
            == if matchers == [] then Undefined
               else Bool(!Matches(h, matchers[0], if StrictEquals(kind, KEYS) then key else elem))
  {
  }

  /** A predicate that is never truthy selects no element. */
  lemma {:induction false} SelectNoElements(h: Heap, d: Value, f: Callback, idx: seq<nat>)
    requires forall x, k :: !Truthy(f(h, x, k, d))
    ensures SelectElements(h, d, f, idx) == []
    decreases |idx|
  {
    if idx != [] {
      SelectNoElements(h, d, f, idx[..|idx| - 1]);
    }
  }

  /** A predicate that is never exactly `true` selects no entry. */
  lemma {:induction false} SelectNoEntries(h: Heap, d: Value, f: Callback, ks: seq<string>)
    requires forall x, k :: f(h, x, k, d) != Bool(true)
    ensures SelectEntries(h, d, f, ks) == []
    decreases |ks|
  {
    if ks != [] {
      SelectNoEntries(h, d, f, ks[..|ks| - 1]);
    }
  }

  /** Two predicates that agree everywhere select the same elements. */
  lemma {:induction false} SelectElementsAgree(h: Heap, d: Value, f: Callback, g: Callback, idx: seq<nat>)
    requires forall x, k :: f(h, x, k, d) == g(h, x, k, d)
    ensures SelectElements(h, d, f, idx) == SelectElements(h, d, g, idx)
    decreases |idx|
  {
    if idx != [] {
      SelectElementsAgree(h, d, f, g, idx[..|idx| - 1]);
    }
  }

  /** Two predicates that agree everywhere select the same entries. */
  lemma {:induction false} SelectEntriesAgree(h: Heap, d: Value, f: Callback, g: Callback, ks: seq<string>)
    requires forall x, k :: f(h, x, k, d) == g(h, x, k, d)
    ensures SelectEntries(h, d, f, ks) == SelectEntries(h, d, g, ks)
    decreases |ks|
  {
    if ks != [] {
      SelectEntriesAgree(h, d, f, g, ks[..|ks| - 1]);
    }
  }

  /** With no matchers, `strip` drops every element or entry: the new current data is empty. */
  lemma StripNothingLeft(h: Heap, e: Engine, kind: Value)
    requires !Passive(h, e.current)
    ensures var r := Strip(h, e, kind, []);
            var o := r.value.0[|h|];
            r.value.1.current == Ref(|h|) && o.slots == map[]
            && (o.kind.ArrayObject? ==> o.length == 0)
  {
    var d := e.current;
    var f := StripTest(kind, []);
    if IsArray(h, d) {
      var o := h[d.addr];
      SelectNoElements(h, d, f, HeldIndices(o, o.length));
    } else {
      SelectNoEntries(h, d, f, KeysFor(h, d));
    }
  }

  /** `filter` with two predicates that agree on the current data gives the same result. */
  lemma FilterAgree(h: Heap, e: Engine, f: Callback, g: Callback)
    requires forall x, k :: f(h, x, k, e.current) == g(h, x, k, e.current)
    ensures Filter(h, e, Given(f)) == Filter(h, e, Given(g))
  {
    var d := e.current;
    if !Passive(h, d) {
      if IsArray(h, d) {
        var o := h[d.addr];
        SelectElementsAgree(h, d, f, g, HeldIndices(o, o.length));
      } else {
        SelectEntriesAgree(h, d, f, g, KeysFor(h, d));
      }
    }
  }

  /** `strip` consults only its first matcher: the rest make no difference. */
  lemma StripFirstOnly(h: Heap, e: Engine, kind: Value, matchers: seq<Matcher>)
    requires matchers != []
    ensures Strip(h, e, kind, matchers) == Strip(h, e, kind, matchers[..1])
  {
    StripTestsAgree(kind, matchers, h, e.current);
    FilterAgree(h, e, StripTest(kind, matchers), StripTest(kind, matchers[..1]));
  }

  /** The strip predicate of the matchers and that of their first one agree everywhere. */
  lemma StripTestsAgree(kind: Value, matchers: seq<Matcher>, h: Heap, d: Value)
    requires matchers != []
    ensures forall x, k :: StripTest(kind, matchers)(h, x, k, d) == StripTest(kind, matchers[..1])(h, x, k, d)
  {
    forall x, k
      ensures StripTest(kind, matchers)(h, x, k, d) == StripTest(kind, matchers[..1])(h, x, k, d)
    {
      StripTestMeaning(kind, matchers, h, x, k, d);
      StripTestMeaning(kind, matchers[..1], h, x, k, d);
    }
  }

  /**
   * On an object, `stripKeys(m, ...)` keeps exactly the entries whose key
   * `m` does not match, and `stripValues(m, ...)` those whose value it does
   * not match.
   */
  lemma StripObject(h: Heap, e: Engine, kind: Value, matchers: seq<Matcher>, k: string)
    requires !Passive(h, e.current) && !IsArray(h, e.current) && matchers != []
    ensures var d := e.current;
            var o := Strip(h, e, kind, matchers).value.0[|h|];
            k in o.slots
            <==> k in KeysFor(h, d) && !Matches(h, matchers[0], if StrictEquals(kind, KEYS) then Str(k) else Elem(h, d, k))
  {
    var d := e.current;
    FilterObject(h, e, Given(StripTest(kind, matchers)), k);
    StripTestMeaning(kind, matchers, h, Elem(h, d, k), Str(k), d);
  }

  // -------------------------------------------------------------------------
  // wrap()
  // -------------------------------------------------------------------------

  /** Whether some element of `xs` is `=== x` (`xs.indexOf(x) >= 0`). */
  predicate Occurs(xs: seq<Value>, x: Value)
  {
    exists i :: 0 <= i < |xs| && StrictEquals(xs[i], x)
  }

  /** The values of `xs` pushed in turn onto a fresh array unless `indexOf` already finds them there. */
  function Dedupe(xs: seq<Value>): seq<Value>
    decreases |xs|
  {
    if xs == [] then []
    else
      var r := Dedupe(xs[..|xs| - 1]);
      var x := xs[|xs| - 1];
      if Occurs(r, x) then r else r + [x]
  }

  /** The values of `xs` that no earlier value of `xs` is `===` to, in order. */
  function FirstSeen(xs: seq<Value>): seq<Value>
    decreases |xs|
  {
    if xs == [] then []
    else
      var xs' := xs[..|xs| - 1];
      var x := xs[|xs| - 1];
      FirstSeen(xs') + if Occurs(xs', x) then [] else [x]
  }

  /** The values `d[k]` for the keys `ks`, in order. */
  function ValuesOf(h: Heap, d: Value, ks: seq<string>): (r: seq<Value>)
    ensures |r| == |ks|
    decreases |ks|
  {
    if ks == [] then [] else ValuesOf(h, d, ks[..|ks| - 1]) + [Elem(h, d, ks[|ks| - 1])]
  }

  /** `wrap()`: the distinct values of the current data, as a fresh array. */
  function Wrap(h: Heap, e: Engine): (Heap, Engine)
  {
    var d := e.current;
    if Passive(h, d) then (h, e)
    else Fresh(h, e, ArrayLiteral(Dedupe(ValuesOf(h, d, KeysFor(h, d)))))
  }

  /** `xs.indexOf(x)`: the first position holding a value `=== x`, or -1. */
  method IndexOf(xs: seq<Value>, x: Value) returns (i: int)
    ensures i < 0 <==> !Occurs(xs, x)
    ensures 0 <= i ==> i < |xs| && StrictEquals(xs[i], x) && forall j :: 0 <= j < i ==> !StrictEquals(xs[j], x)
  {
    i := 0;
    while i < |xs|
      invariant 0 <= i <= |xs|
      invariant forall j :: 0 <= j < i ==> !StrictEquals(xs[j], x)
    {
      if StrictEquals(xs[i], x) {
        return;
      }
      i := i + 1;
    }
    i := -1;
  }

  /** The loop of `wrap`, pushing each value that `indexOf` does not find yet. */
  method WrapEngine(h: Heap, e: Engine) returns (r: (Heap, Engine))
    ensures r == Wrap(h, e)
  {
    var d := e.current;
    if Passive(h, d) {
      return (h, e);
    }
    var ks := KeysFor(h, d);
    var found := DistinctValues(h, d, ks);
    return Fresh(h, e, ArrayLiteral(found));
  }

  /** The loop body of `wrap` over the keys `ks`. */
  method DistinctValues(h: Heap, d: Value, ks: seq<string>) returns (r: seq<Value>)
    ensures r == Dedupe(ValuesOf(h, d, ks))
  {
    r := [];
    var i := 0;
    while i < |ks|
      invariant 0 <= i <= |ks|
      invariant r == Dedupe(ValuesOf(h, d, ks[..i]))
    {
      var val := Elem(h, d, ks[i]);
      DedupeStep(h, d, ks, i);
      var at := IndexOf(r, val);
      if at < 0 {
        r := r + [val];
      }
      i := i + 1;
    }
    assert ks[..i] == ks;
  }

  /** One more key pushes its value unless it already occurs. */
  lemma DedupeStep(h: Heap, d: Value, ks: seq<string>, i: nat)
    requires i < |ks|
    ensures var r := Dedupe(ValuesOf(h, d, ks[..i]));
            var x := Elem(h, d, ks[i]);
            Dedupe(ValuesOf(h, d, ks[..i + 1])) == if Occurs(r, x) then r else r + [x]
  {
    assert ks[..i + 1][..i] == ks[..i];
    var xs := ValuesOf(h, d, ks[..i + 1]);
    assert xs[..|xs| - 1] == ValuesOf(h, d, ks[..i]);
  }

  /** `===` between values is `==` on values that are `===` to themselves (everything but NaN). */
  lemma StrictEqualsIsEquality(v: Value, w: Value)
    ensures StrictEquals(v, w) <==> v == w && StrictEquals(v, v)
  {
  }

  /** No two values of `r` are `===`. */
  predicate Distinct(r: seq<Value>)
  {
    forall i, j :: 0 <= i < j < |r| ==> !StrictEquals(r[i], r[j])
  }

  /** `wrap` yields values that are pairwise not `===`. */
  lemma {:induction false} DedupeDistinct(xs: seq<Value>)
    ensures Distinct(Dedupe(xs))
    decreases |xs|
  {
    if xs != [] {
      var xs' := xs[..|xs| - 1];
      DedupeDistinct(xs');
      var r' := Dedupe(xs');
      var x := xs[|xs| - 1];
      if !Occurs(r', x) {
        var r := r' + [x];
        forall i, j | 0 <= i < j < |r|
          ensures !StrictEquals(r[i], r[j])
        {
          if j == |r'| {
            assert r[i] == r'[i] && r[j] == x;
            assert !StrictEquals(r'[i], x);
          } else {
            assert r[i] == r'[i] && r[j] == r'[j];
          }
        }
      }
    }
  }

  /** `wrap` loses no value and adds none: the result holds exactly the values of the input. */
  lemma {:induction false} DedupeSameValues(xs: seq<Value>)
    ensures forall x :: x in Dedupe(xs) <==> x in xs
    decreases |xs|
  {
    if xs != [] {
      var xs' := xs[..|xs| - 1];
      DedupeSameValues(xs');
      var r' := Dedupe(xs');
      var x := xs[|xs| - 1];
      assert xs == xs' + [x];
      if Occurs(r', x) {
        var i :| 0 <= i < |r'| && StrictEquals(r'[i], x);
        StrictEqualsIsEquality(r'[i], x);
      }
    }
  }

  /** A value occurs in the output of `wrap` exactly when it occurs in the input. */
  lemma {:induction false} DedupeOccurs(xs: seq<Value>, x: Value)
    ensures Occurs(Dedupe(xs), x) <==> Occurs(xs, x)
    decreases |xs|
  {
    if xs != [] {
      var xs' := xs[..|xs| - 1];
      DedupeOccurs(xs', x);
      var r' := Dedupe(xs');
      var y := xs[|xs| - 1];
      if StrictEquals(y, x) {
        StrictEqualsIsEquality(y, x);
        assert xs[|xs| - 1] == y;
        if !Occurs(r', y) {
          assert (r' + [y])[|r'|] == y;
        } else {
          var i :| 0 <= i < |r'| && StrictEquals(r'[i], y);
          StrictEqualsIsEquality(r'[i], y);
        }
      } else {
        if Occurs(xs, x) {
          var i :| 0 <= i < |xs| && StrictEquals(xs[i], x);
          assert xs'[i] == xs[i];
        }
        if !Occurs(r', y) && Occurs(r' + [y], x) {
          var i :| 0 <= i < |r' + [y]| && StrictEquals((r' + [y])[i], x);
          assert (r' + [y])[i] == r'[i];
        }
        if Occurs(xs', x) {
          var i :| 0 <= i < |xs'| && StrictEquals(xs'[i], x);
          assert xs[i] == xs'[i];
        }
        if Occurs(r', x) && !Occurs(r', y) {
          var i :| 0 <= i < |r'| && StrictEquals(r'[i], x);
          assert (r' + [y])[i] == r'[i];
        }
      }
    }
  }

  /** `wrap` keeps each value where it is first seen: its output is `FirstSeen` of the input. */
  lemma {:induction false} DedupeIsFirstSeen(xs: seq<Value>)
    ensures Dedupe(xs) == FirstSeen(xs)
    decreases |xs|
  {
    if xs != [] {
      var xs' := xs[..|xs| - 1];
      DedupeIsFirstSeen(xs');
      DedupeOccurs(xs', xs[|xs| - 1]);
    }
  }

  // -------------------------------------------------------------------------
  // extract(path)
  // -------------------------------------------------------------------------

  /** `extract(path)`: `get(d[k], path)` for each key `k` of the current data, as a fresh array. */
  function EngineExtract(ed: Edition, h: Heap, e: Engine, path: Value): (Heap, Engine)
  {
    var d := e.current;
    if Passive(h, d) then (h, e)
    else Fresh(h, e, ArrayLiteral(Picks(ed, h, Route(h, path), d, KeysFor(h, d))))
  }

  /** The loop of `extract`. */
  method ExtractEngine(ed: Edition, h: Heap, e: Engine, path: Value) returns (r: (Heap, Engine))
    ensures r == EngineExtract(ed, h, e, path)
  {
    var d := e.current;
    if Passive(h, d) {
      return (h, e);
    }
    var picked := PickAll(ed, h, Route(h, path), d, KeysFor(h, d));
    return Fresh(h, e, ArrayLiteral(picked));
  }

  /**
   * The engine's `extract` allocates the array the module-level
   * `extract(path, d)` returns and moves to it; entry `j` of that array is
   * `get` of the `j`-th value along `path`.
   */
  lemma EngineExtractReads(ed: Edition, h: Heap, e: Engine, path: Value, j: nat)
    requires !Passive(h, e.current) && j < |KeysFor(h, e.current)|
    ensures var d := e.current;
            var (h', e') := EngineExtract(ed, h, e, path);
            var o := h'[|h|];
            h' == h + [o] && e'.current == Ref(|h|) && o == ArrayLiteral(Extract(ed, h, Route(h, path), [d]))
            && o.length == |KeysFor(h, d)|
            && ObjGet(o, NatToString(j)) == Read(ed, h, Elem(h, d, KeysFor(h, d)[j]), path)
  {
    var d := e.current;
    var ks := KeysFor(h, d);
    var picks := Picks(ed, h, Route(h, path), d, ks);
    ArrayLiteralAt(picks, j);
    PicksAt(ed, h, Route(h, path), d, ks, j);
    assert [d][..0] == [];
    ExtractSingle(ed, h, Route(h, path), d);
  }
}

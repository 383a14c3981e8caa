/**
 * The type and emptiness tests of the utilities: `sizeOf`, `noe`,
 * `instanceOf`, `firstOf` and `lastOf`. `sizeOf` and `noe` are the same in
 * dist/utils.js and lib/utils.js; `instanceOf` differs (only dist reads
 * `'object'` as "a plain object"), and only dist has `firstOf`/`lastOf`.
 */
module Predicates {
  import opened JsCore
  import opened HeapFacts

  // -------------------------------------------------------------------------
  // sizeOf
  // -------------------------------------------------------------------------

  /** The text of a string or of a boxed String. */
  function StringText(h: Heap, v: Value): Option<string>
  {
    match v
    case Str(s) => Some(s)
    case Ref(a) => if a < |h| && h[a].kind.BoxedString? then Some(h[a].kind.text) else None
    case _ => None
  }

  /**
   * `sizeOf(obj)`: 0 for null and undefined; the `length` of an array or
   * string; else the object's own `length` if it is set; else the number of
   * its own enumerable keys if it is an object; else 0.
   */
  function SizeOf(h: Heap, v: Value): (r: Value)
    ensures IsNullish(v) ==> r == Number(Finite(0.0))
    ensures StringText(h, v).Some? ==> r == Number(Finite(|StringText(h, v).value| as real))
    ensures IsArray(h, v) ==> r == Number(Finite(h[v.addr].length as real))
    ensures v.Ref? && v.addr < |h| && !h[v.addr].kind.ArrayObject? && !h[v.addr].kind.BoxedString? ==>
              var length := ObjGet(h[v.addr], "length");
              r == if IsNullish(length) then Number(Finite(|OwnKeys(h, v.addr)| as real)) else length
    ensures v.Number? || v.Bool? ==> r == Number(Finite(0.0))
  {
    if IsNullish(v) then Number(Finite(0.0))
    else
      var length := Member(h, v, "length").value;
      if IsArray(h, v) || StringText(h, v).Some? then length
      else if !IsNullish(length) then length
      else if IsObject(v) then Number(Finite(|KeysOf(h, v).value| as real))
      else Number(Finite(0.0))
  }

  // -------------------------------------------------------------------------
  // noe
  // -------------------------------------------------------------------------

  /**
   * The test `noe` applies to each argument: null or undefined, a string
   * (or String) with no non-space character, a NaN or infinite number (or
   * Number), or an object whose `sizeOf` is `== 0`.
   */
  predicate IsEmptyValue(h: Heap, v: Value)
  {
    IsNullish(v)
    || (StringText(h, v).Some? && AllSpace(StringText(h, v).value))
    || IsNonFiniteNumber(h, v)
    || (TypeOf(v) == "object" && LooselyEqualsZero(h, SizeOf(h, v)))
  }

  /** `noe(args...)`: whether any argument is empty (despite the documentation's "all"). */
  method Noe(h: Heap, args: seq<Value>) returns (r: bool)
    ensures r <==> exists i :: 0 <= i < |args| && IsEmptyValue(h, args[i])
  {
    var i := 0;
    while i < |args|
      invariant 0 <= i <= |args|
      invariant forall j :: 0 <= j < i ==> !IsEmptyValue(h, args[j])
    {
      if IsEmptyValue(h, args[i]) {
        return true;
      }
      i := i + 1;
    }
    return false;
  }

  /** A string is empty exactly when it holds nothing but white space. */
  lemma StringEmptyIffBlank(h: Heap, s: string)
    ensures IsEmptyValue(h, Str(s)) <==> forall i :: 0 <= i < |s| ==> IsSpace(s[i])
  {
  }

  /** A finite number, zero included, is never empty; neither is a boolean. */
  lemma ScalarsNotEmpty(h: Heap, r: real, b: bool)
    ensures !IsEmptyValue(h, Number(Finite(r))) && !IsEmptyValue(h, Bool(b))
  {
  }

  /** An array is empty exactly when its length is 0. */
  lemma ArrayEmptyIffNoLength(h: Heap, a: Addr)
    requires a < |h| && h[a].kind.ArrayObject?
    ensures IsEmptyValue(h, Ref(a)) <==> h[a].length == 0
  {
    assert SizeOf(h, Ref(a)) == Number(Finite(h[a].length as real));
  }

  /** A plain object without a `length` property is empty exactly when it has no own enumerable key. */
  lemma PlainObjectEmptyIffNoKeys(h: Heap, a: Addr)
    requires a < |h| && h[a].kind.PlainObject? && "length" !in h[a].slots
    ensures IsEmptyValue(h, Ref(a)) <==> OwnKeys(h, a) == []
  {
    assert SizeOf(h, Ref(a)) == Number(Finite(|OwnKeys(h, a)| as real));
  }

  // -------------------------------------------------------------------------
  // instanceOf
  // -------------------------------------------------------------------------

  /**
   * `testType(obj, type)` for a type given by name. Only the named types
   * are modelled: a constructor argument, which the source tests with
   * `instanceof`, is not.
   */
  predicate TestType(h: Heap, v: Value, name: string)
  {
    if IsNullish(v) then false
    else if name == "deferred" && v.Thenable? then true
    else if name == "number" && (v.Number? || (KindOf(h, v).Some? && KindOf(h, v).value.BoxedNumber?))
            && IsNonFiniteNumber(h, v) then false
    else if name == TypeOf(v) then true
    else if name == "number" && KindOf(h, v).Some? && KindOf(h, v).value.BoxedNumber? then true
    else if name == "string" && KindOf(h, v).Some? && KindOf(h, v).value.BoxedString? then true
    else if name == "boolean" && KindOf(h, v).Some? && KindOf(h, v).value.BoxedBool? then true
    else name == "array" && IsArray(h, v)
  }

  /** The names `instanceOf(obj, 'object')` rules out. */
  const NonObjectTypes: seq<string> := ["string", "number", "boolean", "array", "function"]

  /** Whether some name of `names` matches: the loop of `instanceOf`. */
  method MatchesAny(h: Heap, v: Value, names: seq<string>) returns (r: bool)
    ensures r <==> exists i :: 0 <= i < |names| && TestType(h, v, names[i])
  {
    var i := 0;
    while i < |names|
      invariant 0 <= i <= |names|
      invariant forall j :: 0 <= j < i ==> !TestType(h, v, names[j])
    {
      if TestType(h, v, names[i]) {
        return true;
      }
      i := i + 1;
    }
    return false;
  }

  /** The result `instanceOf` specifies, as a value (the `'object'` form can yield a falsy argument itself). */
  function InstanceOfSpec(h: Heap, v: Value, names: seq<string>): Value
  {
    if names == ["object"] then
      if !Truthy(v) then v else Bool(!exists i :: 0 <= i < |NonObjectTypes| && TestType(h, v, NonObjectTypes[i]))
    else Bool(exists i :: 0 <= i < |names| && TestType(h, v, names[i]))
  }

  /**
   * `instanceOf(obj, types...)`: with the single type `'object'`, `obj &&`
   * that it is none of string, number, boolean, array, function; otherwise
   * whether it matches any of the types.
   */
  method InstanceOf(h: Heap, v: Value, names: seq<string>) returns (r: Value)
    ensures r == InstanceOfSpec(h, v, names)
  {
    if names == ["object"] {
      if !Truthy(v) {
        return v;
      }
      var m := MatchesAny(h, v, NonObjectTypes);
      return Bool(!m);
    }
    var m := MatchesAny(h, v, names);
    return Bool(m);
  }

  /**
   * `instanceOf(x, 'object')` holds for a plain object and fails for an
   * array and a boxed primitive, except a boxed NaN or infinity, which
   * the number test does not recognise.
   */
  lemma InstanceOfObject(h: Heap, a: Addr)
    requires a < |h|
    ensures var k := h[a].kind;
            InstanceOfSpec(h, Ref(a), ["object"]) == Bool(k.PlainObject? || (k.BoxedNumber? && !k.num.Finite?))
  {
    var k := h[a].kind;
    if !(k.PlainObject? || (k.BoxedNumber? && !k.num.Finite?)) {
      var i := if k.ArrayObject? then 3 else if k.BoxedString? then 0 else if k.BoxedNumber? then 1 else 2;
      assert TestType(h, Ref(a), NonObjectTypes[i]);
    }
  }

  /** NaN and the infinities are not numbers for `instanceOf`, boxed or not; finite numbers are. */
  lemma InstanceOfNumber(h: Heap, n: Num)
    ensures InstanceOfSpec(h, Number(n), ["number"]) == Bool(n.Finite?)
  {
    if n.Finite? {
      assert TestType(h, Number(n), ["number"][0]);
    }
  }

  // -------------------------------------------------------------------------
  // firstOf / lastOf (dist only)
  // -------------------------------------------------------------------------

  /** `x - 1` on a number. */
  function Decrement(n: Num): Num
  {
    match n
    case Finite(r) => Finite(r - 1.0)
    case _ => n
  }

  /**
   * `firstOf(value[, defaultValue])` and `lastOf(…)`: the default (or
   * undefined) for a falsy value or length; else the element read, unless
   * it is null or undefined and a default was given.
   */
  function EndOf(h: Heap, v: Value, defaultValue: Option<Value>, last: bool): Value
  {
    var fallback := if defaultValue.Some? then defaultValue.value else Undefined;
    if !Truthy(v) then fallback
    else
      var length := Member(h, v, "length").value;
      if !Truthy(length) then fallback
      else
        var key := if last then NumberToString(Decrement(ToNumber(h, length))) else "0";
        var fetched := Member(h, v, key).value;
        if IsNullish(fetched) && defaultValue.Some? then fallback else fetched
  }

  function FirstOf(h: Heap, v: Value, defaultValue: Option<Value>): Value { EndOf(h, v, defaultValue, false) }

  function LastOf(h: Heap, v: Value, defaultValue: Option<Value>): Value { EndOf(h, v, defaultValue, true) }

  /** The key `lastOf` reads for a length of `n`: the decimal text of `n - 1`. */
  lemma LastKey(n: nat)
    requires n > 0
    ensures NumberToString(Decrement(Finite(n as real))) == NatToString(n - 1)
  {
    assert Decrement(Finite(n as real)) == Finite((n - 1) as real);
    assert ((n - 1) as real).Floor == n - 1;
  }

  /** Reading index `i` of a string yields its `i`-th character. */
  lemma StringIndex(h: Heap, s: string, i: nat)
    requires i < |s|
    ensures Member(h, Str(s), NatToString(i)) == Ok(Str([s[i]]))
  {
    NatToStringRoundTrip(i);
  }

  /** On a non-empty string, `firstOf` yields its first character. */
  lemma FirstOfString(h: Heap, s: string, d: Option<Value>)
    requires |s| > 0
    ensures FirstOf(h, Str(s), d) == Str([s[0]])
  {
    StringIndex(h, s, 0);
  }

  /** On a non-empty string, `lastOf` yields its last character. */
  lemma LastOfString(h: Heap, s: string, d: Option<Value>)
    requires |s| > 0
    ensures LastOf(h, Str(s), d) == Str([s[|s| - 1]])
  {
    LastKey(|s|);
    StringIndex(h, s, |s| - 1);
  }

  /** On a non-empty array, `lastOf` reads index `length - 1`, and the default replaces only a missing element. */
  lemma LastOfArray(h: Heap, a: Addr, d: Option<Value>)
    requires a < |h| && h[a].kind.ArrayObject? && h[a].length > 0
    ensures var e := ObjGet(h[a], NatToString(h[a].length - 1));
            LastOf(h, Ref(a), d) == if IsNullish(e) && d.Some? then d.value else e
  {
    LastKey(h[a].length);
  }

  /** On an empty array or string, or a falsy value, both yield the default (undefined without one). */
  lemma EndsOfEmpty(h: Heap, v: Value, d: Option<Value>)
    requires !Truthy(v) || v == Str("") || (v.Ref? && v.addr < |h| && h[v.addr].kind.ArrayObject? && h[v.addr].length == 0)
    ensures FirstOf(h, v, d) == LastOf(h, v, d) == if d.Some? then d.value else Undefined
  {
  }

  /** The decimal text of `n` is an index key that reads back as `n`. */
  lemma {:induction false} NatToStringRoundTrip(n: nat)
    ensures IsIndexKey(NatToString(n)) && DigitsValue(NatToString(n)) == n
  {
    NatToStringIsIndex(n);
    if n >= 10 {
      NatToStringRoundTrip(n / 10);
      DigitsValueAppend(NatToString(n / 10), DigitChar(n % 10));
    }
  }

  lemma DigitsValueAppend(s: string, c: char)
    requires AllDigits(s) && IsDigit(c)
    ensures DigitsValue(s + [c]) == DigitsValue(s) * 10 + DigitValue(c)
  {
    assert (s + [c])[..|s|] == s;
  }
}

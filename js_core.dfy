/**
 * The JavaScript values, objects and heap that the utilities operate on,
 * and the primitive operations of the language they use: property read,
 * strict-mode assignment, `delete`, `Object.defineProperty`, `push`,
 * `Object.keys`, truthiness, `typeof`, string and number conversion.
 *
 * Objects live in an explicit heap (`seq<Obj>`, addresses are indices), so
 * aliasing and in-place update are visible to the model. Only own
 * properties are modelled: a key an object does not own reads as
 * `undefined` (inherited members such as `toString` are not modelled).
 */
module JsCore {

  // -------------------------------------------------------------------------
  // Completions
  // -------------------------------------------------------------------------

  /** What the modelled code can throw. */
  datatype Throw =
    | TypeError
    | RangeError
    | Raised(message: string)   // `throw new Error(message)`

  /** A computation that returns a value or throws. */
  datatype Result<T> = Ok(value: T) | Throws(error: Throw)

  datatype Option<T> = None | Some(value: T)

  // -------------------------------------------------------------------------
  // Values
  // -------------------------------------------------------------------------

  /** A JavaScript number: an exact real, or one of the non-finite values. */
  datatype Num = Finite(r: real) | NaN | Infinity(negative: bool)

  type Addr = nat

  /** How an awaitable eventually settles. */
  datatype Settlement = Fulfils | RejectsWith(reason: Value) | NeverSettles

  datatype Value =
    | Undefined
    | Null
    | Bool(b: bool)
    | Number(n: Num)
    | Str(s: string)
    | Ref(addr: Addr)              // an object in the heap
    | Failure(message: Value)      // the object `{type: 'error', message}` a validator returns
    | Thenable(outcome: Settlement) // an awaitable (a Promise or an object with `then`)

  /** The kind of a heap object: which built-in it was created as. */
  datatype Kind =
    | PlainObject
    | ArrayObject
    | BoxedString(text: string)
    | BoxedNumber(num: Num)
    | BoxedBool(flag: bool)

  /** An own data property with its attributes. */
  datatype Slot = Slot(value: Value, enumerable: bool, writable: bool, configurable: bool)

  /**
   * A heap object. `order` lists the own keys in creation order; `length`
   * and `lengthWritable` are the `length` property of an array.
   */
  datatype Obj = Obj(kind: Kind, extensible: bool, order: seq<string>,
                     slots: map<string, Slot>, length: nat, lengthWritable: bool)

  type Heap = seq<Obj>

  const EmptyObject: Obj := Obj(PlainObject, true, [], map[], 0, true)
  const EmptyArray: Obj := Obj(ArrayObject, true, [], map[], 0, true)

  /** `new` of an object: the heap grows by one and the address is the old size. */
  function Alloc(h: Heap, o: Obj): (r: (Heap, Addr))
    ensures r.1 == |h| && r.0 == h + [o]
  {
    (h + [o], |h|)
  }

  // -------------------------------------------------------------------------
  // Characters and strings
  // -------------------------------------------------------------------------

  predicate IsDigit(c: char) { '0' <= c <= '9' }

  predicate IsAsciiLetter(c: char) { 'a' <= c <= 'z' || 'A' <= c <= 'Z' }

  /** Regular-expression `\w`. */
  predicate IsWordChar(c: char) { IsDigit(c) || IsAsciiLetter(c) || c == '_' }

  /** Regular-expression `\s` (white space and line terminators). */
  predicate IsSpace(c: char)
  {
    c == ' ' || c == '\t' || c == '\n' || c == '\r' || c == '\U{0B}' || c == '\U{0C}'
    || c == '\U{A0}' || c == '\U{1680}' || ('\U{2000}' <= c <= '\U{200A}')
    || c == '\U{2028}' || c == '\U{2029}' || c == '\U{202F}' || c == '\U{205F}'
    || c == '\U{3000}' || c == '\U{FEFF}'
  }

  /** The characters regular-expression `.` does not match. */
  predicate IsLineTerminator(c: char)
  {
    c == '\n' || c == '\r' || c == '\U{2028}' || c == '\U{2029}'
  }

  function LowerChar(c: char): char
  {
    if 'A' <= c <= 'Z' then (c as int + 32) as char else c
  }

  function UpperChar(c: char): char
  {
    if 'a' <= c <= 'z' then (c as int - 32) as char else c
  }

  /** `toLowerCase`, on ASCII letters. */
  function ToLower(s: string): (r: string)
    ensures |r| == |s| && forall i :: 0 <= i < |s| ==> r[i] == LowerChar(s[i])
  {
    if s == [] then [] else [LowerChar(s[0])] + ToLower(s[1..])
  }

  predicate AllSpace(s: string) { forall i :: 0 <= i < |s| ==> IsSpace(s[i]) }

  predicate AllDigits(s: string) { forall i :: 0 <= i < |s| ==> IsDigit(s[i]) }

  /** `s.indexOf(c) > -1` for one character. */
  predicate HasChar(s: string, c: char) { c in s }

  function DigitChar(d: nat): char
    requires d < 10
  {
    ('0' as int + d) as char
  }

  function DigitValue(c: char): nat
    requires IsDigit(c)
  {
    c as int - '0' as int
  }

  /** Decimal text of a natural number. */
  function NatToString(n: nat): (r: string)
    ensures |r| > 0 && AllDigits(r)
  {
    if n < 10 then [DigitChar(n)] else NatToString(n / 10) + [DigitChar(n % 10)]
  }

  /** Value of a string of decimal digits. */
  function DigitsValue(s: string): nat
    requires AllDigits(s)
  {
    if s == [] then 0 else DigitsValue(s[..|s| - 1]) * 10 + DigitValue(s[|s| - 1])
  }

  /** A canonical array index: "0" or digits without a leading zero. */
  predicate IsIndexKey(k: string)
  {
    |k| > 0 && AllDigits(k) && (k[0] == '0' ==> |k| == 1)
  }

  // -------------------------------------------------------------------------
  // Numbers as text
  // -------------------------------------------------------------------------

  function Pow10(e: nat): (r: real)
    ensures r >= 1.0
  {
    if e == 0 then 1.0 else 10.0 * Pow10(e - 1)
  }

  /** Up to `fuel` decimal digits of a fraction in [0, 1), stopping when exact. */
  function FractionDigits(f: real, fuel: nat): string
    requires 0.0 <= f < 1.0
    decreases fuel
  {
    if f == 0.0 || fuel == 0 then ""
    else
      var t := f * 10.0;
      var d := t.Floor;
      assert 0 <= d < 10;
      [DigitChar(d)] + FractionDigits(t - d as real, fuel - 1)
  }

  /** `'' + n` for a number (plain decimal notation). */
  function NumberToString(n: Num): string
  {
    match n
    case NaN => "NaN"
    case Infinity(neg) => if neg then "-Infinity" else "Infinity"
    case Finite(r) => if r < 0.0 then "-" + NonNegativeToString(-r) else NonNegativeToString(r)
  }

  function NonNegativeToString(r: real): string
    requires r >= 0.0
  {
    var i := r.Floor;
    var f := r - i as real;
    NatToString(i) + (if f == 0.0 then "" else "." + FractionDigits(f, 20))
  }

  /** End of the run of decimal digits that starts at `i`. */
  function DigitRunEnd(s: string, i: nat): (j: nat)
    requires i <= |s|
    ensures i <= j <= |s| && AllDigits(s[i..j]) && (j < |s| ==> !IsDigit(s[j]))
    decreases |s| - i
  {
    if i < |s| && IsDigit(s[i]) then
      var j := DigitRunEnd(s, i + 1);
      assert s[i..j] == [s[i]] + s[i + 1..j];
      j
    else i
  }

  /** Skips the white space that starts at `i`. */
  function SpaceRunEnd(s: string, i: nat): (j: nat)
    requires i <= |s|
    ensures i <= j <= |s| && AllSpace(s[i..j]) && (j < |s| ==> !IsSpace(s[j]))
    decreases |s| - i
  {
    if i < |s| && IsSpace(s[i]) then
      var j := SpaceRunEnd(s, i + 1);
      assert s[i..j] == [s[i]] + s[i + 1..j];
      j
    else i
  }

  /**
   * The longest decimal literal (`StrDecimalLiteral`: optional sign, then
   * `Infinity` or digits with an optional fraction and exponent) that
   * starts at `i`: its value and where it ends.
   */
  function DecimalPrefix(s: string, i: nat): (r: Option<(Num, nat)>)
    requires i <= |s|
    ensures r.Some? ==> i < r.value.1 <= |s|
  {
    var neg := i < |s| && s[i] == '-';
    var j := if i < |s| && (s[i] == '-' || s[i] == '+') then i + 1 else i;
    if j + 8 <= |s| && s[j..j + 8] == "Infinity" then Some((Infinity(neg), j + 8))
    else
      var intEnd := DigitRunEnd(s, j);
      var hasDot := intEnd < |s| && s[intEnd] == '.';
      var fracEnd := if hasDot then DigitRunEnd(s, intEnd + 1) else intEnd;
      var fracStart := if hasDot then intEnd + 1 else intEnd;
      if intEnd == j && fracEnd == fracStart then None
      else
        var mantissa := DigitsValue(s[j..intEnd]) as real
                        + DigitsValue(s[fracStart..fracEnd]) as real / Pow10(fracEnd - fracStart);
        var e := ExponentPart(s, fracEnd);
        var magnitude := if e.1 < 0 then mantissa / Pow10(-e.1) else mantissa * Pow10(e.1);
        Some((Finite(if neg then -magnitude else magnitude), e.0))
  }

  /** An exponent `e`/`E`, optional sign, digits at `i`: where it ends and its value (0 if absent). */
  function ExponentPart(s: string, i: nat): (r: (nat, int))
    requires i <= |s|
    ensures i <= r.0 <= |s|
  {
    if i < |s| && (s[i] == 'e' || s[i] == 'E') then
      var neg := i + 1 < |s| && s[i + 1] == '-';
      var k := if i + 1 < |s| && (s[i + 1] == '-' || s[i + 1] == '+') then i + 2 else i + 1;
      var end := DigitRunEnd(s, k);
      if end == k then (i, 0)
      else (end, if neg then -(DigitsValue(s[k..end]) as int) else DigitsValue(s[k..end]) as int)
    else (i, 0)
  }

  /** `parseFloat(s)`: leading white space, then the longest decimal literal, else NaN. */
  function ParseFloat(s: string): Num
  {
    match DecimalPrefix(s, SpaceRunEnd(s, 0))
    case Some(p) => p.0
    case None => NaN
  }

  /** The index just past the last non-space character. */
  function TrimEnd(s: string): (j: nat)
    ensures j <= |s| && AllSpace(s[j..])
  {
    if s != [] && IsSpace(s[|s| - 1]) then
      var j := TrimEnd(s[..|s| - 1]);
      assert s[j..] == s[..|s| - 1][j..] + [s[|s| - 1]];
      j
    else |s|
  }

  /** `Number(s)` on a string: white space around a whole decimal literal; empty gives 0. */
  function StringToNumber(s: string): Num
  {
    var b := SpaceRunEnd(s, 0);
    var e := TrimEnd(s);
    if e <= b then Finite(0.0)
    else
      var t := s[b..e];
      match DecimalPrefix(t, 0)
      case Some(p) => if p.1 == |t| then p.0 else NaN
      case None => NaN
  }

  // -------------------------------------------------------------------------
  // Type tests
  // -------------------------------------------------------------------------

  /** JavaScript truthiness. */
  predicate Truthy(v: Value)
  {
    match v
    case Undefined => false
    case Null => false
    case Bool(b) => b
    case Number(n) => !(n == NaN || n == Finite(0.0))
    case Str(s) => s != ""
    case _ => true
  }

  /** `v instanceof Object`. */
  predicate IsObject(v: Value) { v.Ref? || v.Failure? || v.Thenable? }

  predicate IsNullish(v: Value) { v == Undefined || v == Null }

  /** `typeof v`. */
  function TypeOf(v: Value): string
  {
    match v
    case Undefined => "undefined"
    case Bool(_) => "boolean"
    case Number(_) => "number"
    case Str(_) => "string"
    case _ => "object"
  }

  function KindOf(h: Heap, v: Value): Option<Kind>
  {
    if v.Ref? && v.addr < |h| then Some(h[v.addr].kind) else None
  }

  /** `v instanceof Array`. */
  predicate IsArray(h: Heap, v: Value) { KindOf(h, v) == Some(ArrayObject) }

  /** `v instanceof String || v instanceof Number || v instanceof Boolean`. */
  predicate IsBoxed(h: Heap, v: Value)
  {
    match KindOf(h, v)
    case Some(k) => k.BoxedString? || k.BoxedNumber? || k.BoxedBool?
    case None => false
  }

  /** A number or boxed Number that is NaN or infinite. */
  predicate IsNonFiniteNumber(h: Heap, v: Value)
  {
    (v.Number? && !v.n.Finite?)
    || (match KindOf(h, v) case Some(BoxedNumber(n)) => !n.Finite? case _ => false)
  }

  /** `Object.isExtensible(v)` (false for every primitive). */
  predicate IsExtensible(h: Heap, v: Value)
  {
    v.Ref? && v.addr < |h| && h[v.addr].extensible
  }

  /** `===` */
  predicate StrictEquals(v: Value, w: Value)
  {
    if v.Number? && w.Number? then
      match (v.n, w.n)
      case (Finite(x), Finite(y)) => x == y
      case (Infinity(a), Infinity(b)) => a == b
      case _ => false
    else v == w
  }

  // -------------------------------------------------------------------------
  // Property read
  // -------------------------------------------------------------------------

  function SlotValue(o: Obj, key: string): Value
  {
    if key in o.slots then o.slots[key].value else Undefined
  }

  /** Whether `key` is `length` or an index below the length of string `t`. */
  predicate IsStringOwnKey(t: string, key: string)
  {
    key == "length" || (IsIndexKey(key) && DigitsValue(key) < |t|)
  }

  function StringMember(t: string, key: string): Value
    requires IsStringOwnKey(t, key)
  {
    if key == "length" then Number(Finite(|t| as real)) else Str([t[DigitsValue(key)]])
  }

  /** `o[key]` on a heap object. */
  function ObjGet(o: Obj, key: string): Value
  {
    match o.kind
    case ArrayObject => if key == "length" then Number(Finite(o.length as real)) else SlotValue(o, key)
    case BoxedString(t) => if IsStringOwnKey(t, key) then StringMember(t, key) else SlotValue(o, key)
    case _ => SlotValue(o, key)
  }

  /** `obj[key]` for the object at `a`. */
  function Lookup(h: Heap, a: Addr, key: string): Value
  {
    if a < |h| then ObjGet(h[a], key) else Undefined
  }

  /** `v[key]` on any value: reading a property of null or undefined throws. */
  function Member(h: Heap, v: Value, key: string): (r: Result<Value>)
    ensures r.Throws? <==> IsNullish(v)
  {
    match v
    case Undefined => Throws(TypeError)
    case Null => Throws(TypeError)
    case Str(t) => Ok(if IsStringOwnKey(t, key) then StringMember(t, key) else Undefined)
    case Ref(a) => Ok(Lookup(h, a, key))
    case Failure(m) => Ok(if key == "type" then Str("error") else if key == "message" then m else Undefined)
    case _ => Ok(Undefined)
  }

  /** `v.hasOwnProperty(key)`. */
  function HasOwn(h: Heap, v: Value, key: string): (r: Result<bool>)
    ensures r.Throws? <==> IsNullish(v)
  {
    match v
    case Undefined => Throws(TypeError)
    case Null => Throws(TypeError)
    case Str(t) => Ok(IsStringOwnKey(t, key))
    case Ref(a) =>
      Ok(a < |h| && (key in h[a].slots
                     || (h[a].kind.ArrayObject? && key == "length")
                     || (h[a].kind.BoxedString? && IsStringOwnKey(h[a].kind.text, key))))
    case Failure(_) => Ok(key == "type" || key == "message")
    case _ => Ok(false)
  }

  // -------------------------------------------------------------------------
  // Conversions
  // -------------------------------------------------------------------------

  /** `'' + v`. Arrays join their elements with ',', treating a cycle as ''. */
  function ToString(h: Heap, v: Value): string
  {
    ToStringWithin(h, v, {}, |h|)
  }

  function ToStringWithin(h: Heap, v: Value, visiting: set<Addr>, fuel: nat): string
    decreases fuel, 0
  {
    match v
    case Undefined => "undefined"
    case Null => "null"
    case Bool(b) => if b then "true" else "false"
    case Number(n) => NumberToString(n)
    case Str(s) => s
    case Failure(_) => "[object Object]"
    case Thenable(_) => "[object Object]"
    case Ref(a) =>
      if a >= |h| then "[object Object]"
      else match h[a].kind
        case PlainObject => "[object Object]"
        case BoxedString(t) => t
        case BoxedNumber(n) => NumberToString(n)
        case BoxedBool(b) => if b then "true" else "false"
        case ArrayObject =>
          if a in visiting || fuel == 0 then ""
          else JoinElements(h, a, 0, visiting + {a}, fuel - 1)
  }

  /** `arr.join(',')` from element `i` on. */
  function JoinElements(h: Heap, a: Addr, i: nat, visiting: set<Addr>, fuel: nat): string
    requires a < |h|
    decreases fuel, 1, h[a].length - i
  {
    if i >= h[a].length then ""
    else
      var e := SlotValue(h[a], NatToString(i));
      var text := if IsNullish(e) then "" else ToStringWithin(h, e, visiting, fuel);
      (if i == 0 then "" else ",") + text + JoinElements(h, a, i + 1, visiting, fuel)
  }

  /** `Number(v)`, used by `++`, loose equality and array `length`. */
  function ToNumber(h: Heap, v: Value): Num
  {
    match v
    case Undefined => NaN
    case Null => Finite(0.0)
    case Bool(b) => Finite(if b then 1.0 else 0.0)
    case Number(n) => n
    case Str(s) => StringToNumber(s)
    case Ref(a) =>
      if a < |h| && h[a].kind.BoxedNumber? then h[a].kind.num
      else StringToNumber(ToString(h, v))
    case _ => NaN
  }

  /** `v == 0`. */
  predicate LooselyEqualsZero(h: Heap, v: Value)
  {
    !IsNullish(v) && ToNumber(h, v) == Finite(0.0)
  }

  /** `x + 1` on a number. */
  function Increment(n: Num): Num
  {
    match n
    case Finite(r) => Finite(r + 1.0)
    case _ => n
  }

  // -------------------------------------------------------------------------
  // Writes
  // -------------------------------------------------------------------------

  /** The array length an assignment to `length` sets, if the value is a valid one. */
  function ArrayLengthOf(h: Heap, x: Value): Option<nat>
  {
    match ToNumber(h, x)
    case Finite(r) => if r >= 0.0 && r == r.Floor as real then Some(r.Floor as nat) else None
    case _ => None
  }

  predicate IsIndexAtLeast(k: string, n: nat) { IsIndexKey(k) && DigitsValue(k) >= n }

  /** Keeps the keys of `order` that `keep` holds. */
  function Without(order: seq<string>, drop: string -> bool): (r: seq<string>)
    ensures forall k :: k in r <==> k in order && !drop(k)
  {
    if order == [] then []
    else (if drop(order[0]) then [] else [order[0]]) + Without(order[1..], drop)
  }

  /** Adds an ordinary (enumerable, writable, configurable) property. */
  function AddSlot(o: Obj, key: string, x: Value): (r: Obj)
    ensures r.kind == o.kind && r.extensible == o.extensible && r.length == o.length
    ensures r.slots == o.slots[key := Slot(x, true, true, true)]
  {
    o.(order := if key in o.slots then o.order else o.order + [key],
       slots := o.slots[key := Slot(x, true, true, true)])
  }

  /** Strict-mode `o[key] = x` on a heap object. */
  function PutObj(h: Heap, o: Obj, key: string, x: Value): (r: Result<Obj>)
    ensures r.Ok? ==> r.value.kind == o.kind && r.value.extensible == o.extensible
  {
    if o.kind.ArrayObject? && key == "length" then
      match ArrayLengthOf(h, x)
      case None => Throws(RangeError)
      case Some(n) =>
        if !o.lengthWritable then Throws(TypeError)
        else if exists k :: k in o.slots && IsIndexAtLeast(k, n) && !o.slots[k].configurable then Throws(TypeError)
        else Ok(o.(length := n,
                   order := Without(o.order, k => IsIndexAtLeast(k, n)),
                   slots := map k | k in o.slots && !IsIndexAtLeast(k, n) :: o.slots[k]))
    else if o.kind.BoxedString? && IsStringOwnKey(o.kind.text, key) then Throws(TypeError)
    else if key in o.slots then
      if o.slots[key].writable then Ok(o.(slots := o.slots[key := o.slots[key].(value := x)]))
      else Throws(TypeError)
    else if !o.extensible then Throws(TypeError)
    else if o.kind.ArrayObject? && IsIndexAtLeast(key, o.length) then
      if o.lengthWritable then Ok(AddSlot(o, key, x).(length := DigitsValue(key) + 1))
      else Throws(TypeError)
    else Ok(AddSlot(o, key, x))
  }

  /** Strict-mode `obj[key] = x` for the object at `a`. */
  function Put(h: Heap, a: Addr, key: string, x: Value): (r: Result<Heap>)
    ensures r.Ok? ==> a < |h| && |r.value| == |h|
    ensures r.Ok? ==> forall b :: 0 <= b < |h| && b != a ==> r.value[b] == h[b]
  {
    if a >= |h| then Throws(TypeError)
    else match PutObj(h, h[a], key, x)
      case Ok(o) => Ok(h[a := o])
      case Throws(e) => Throws(e)
  }

  /** Strict-mode `v[key] = x` on any value: primitives and immutable values throw. */
  function PutValue(h: Heap, v: Value, key: string, x: Value): (r: Result<Heap>)
    ensures r.Ok? ==> v.Ref?
  {
    if v.Ref? then Put(h, v.addr, key, x) else Throws(TypeError)
  }

  /** Strict-mode `delete obj[key]` for the object at `a`. */
  function Delete(h: Heap, a: Addr, key: string): (r: Result<Heap>)
    ensures r.Ok? ==> a < |h| && |r.value| == |h|
    ensures r.Ok? ==> forall b :: 0 <= b < |h| && b != a ==> r.value[b] == h[b]
  {
    if a >= |h| then Throws(TypeError)
    else
      var o := h[a];
      if (o.kind.ArrayObject? && key == "length")
         || (o.kind.BoxedString? && IsStringOwnKey(o.kind.text, key)) then Throws(TypeError)
      else if key !in o.slots then Ok(h)
      else if !o.slots[key].configurable then Throws(TypeError)
      else Ok(h[a := o.(order := Without(o.order, k => k == key), slots := o.slots - {key})])
  }

  /** Strict-mode `delete v[key]` on any value. */
  function DeleteValue(h: Heap, v: Value, key: string): Result<Heap>
  {
    match v
    case Undefined => Throws(TypeError)
    case Null => Throws(TypeError)
    case Ref(a) => Delete(h, a, key)
    case Str(t) => if IsStringOwnKey(t, key) then Throws(TypeError) else Ok(h)
    case Bool(_) => Ok(h)
    case Number(_) => Ok(h)
    case _ => Throws(TypeError)
  }

  /**
   * `Object.defineProperty(v, key, {enumerable: false, writable: rw,
   * configurable: rw, value: x})`.
   */
  function DefineHidden(h: Heap, v: Value, key: string, x: Value, rw: bool): (r: Result<Heap>)
    ensures r.Ok? ==> v.Ref? && v.addr < |h| && |r.value| == |h|
    ensures r.Ok? ==> forall b :: 0 <= b < |h| && b != v.addr ==> r.value[b] == h[b]
  {
    if !v.Ref? || v.addr >= |h| then Throws(TypeError)
    else
      var o := h[v.addr];
      if (o.kind.ArrayObject? && key == "length")
         || (o.kind.BoxedString? && IsStringOwnKey(o.kind.text, key)) then Throws(TypeError)
      else if key in o.slots && !o.slots[key].configurable then Throws(TypeError)
      else if key !in o.slots && !o.extensible then Throws(TypeError)
      else
        Ok(h[v.addr := o.(order := if key in o.slots then o.order else o.order + [key],
                          slots := o.slots[key := Slot(x, false, rw, rw)])])
  }

  /** `arr.push(x) - 1` for the array at `a`: the index written. */
  function Push(h: Heap, a: Addr, x: Value): (r: Result<(Heap, nat)>)
    requires a < |h| && h[a].kind.ArrayObject?
    ensures r.Ok? ==> |r.value.0| == |h| && r.value.1 == h[a].length
    ensures r.Ok? ==> forall b :: 0 <= b < |h| && b != a ==> r.value.0[b] == h[b]
  {
    var o := h[a];
    var key := NatToString(o.length);
    if !o.extensible || !o.lengthWritable then Throws(TypeError)
    else if key in o.slots && !o.slots[key].writable then Throws(TypeError)
    else Ok((h[a := AddSlot(o, key, x).(length := o.length + 1)], o.length))
  }

  /** An object literal `{k1: v1, …}` with distinct keys. */
  function ObjectLiteral(entries: seq<(string, Value)>): (o: Obj)
    ensures o.kind == PlainObject && o.extensible
    decreases |entries|
  {
    if entries == [] then EmptyObject
    else AddSlot(ObjectLiteral(entries[..|entries| - 1]), entries[|entries| - 1].0, entries[|entries| - 1].1)
  }

  // -------------------------------------------------------------------------
  // Enumeration
  // -------------------------------------------------------------------------

  /** Inserts an index key into keys sorted by numeric value. */
  function InsertIndex(k: string, sorted: seq<string>): seq<string>
    requires IsIndexKey(k) && forall i :: 0 <= i < |sorted| ==> IsIndexKey(sorted[i])
    ensures forall i :: 0 <= i < |InsertIndex(k, sorted)| ==> IsIndexKey(InsertIndex(k, sorted)[i])
  {
    if sorted == [] then [k]
    else if (assert IsIndexKey(sorted[0]); DigitsValue(k) <= DigitsValue(sorted[0])) then [k] + sorted
    else [sorted[0]] + InsertIndex(k, sorted[1..])
  }

  function SortIndexKeys(keys: seq<string>): (r: seq<string>)
    requires forall i :: 0 <= i < |keys| ==> IsIndexKey(keys[i])
    ensures forall i :: 0 <= i < |r| ==> IsIndexKey(r[i])
  {
    if keys == [] then [] else InsertIndex(keys[0], SortIndexKeys(keys[1..]))
  }

  function EnumerableOrder(o: Obj, order: seq<string>, indices: bool): (r: seq<string>)
    ensures indices ==> forall i :: 0 <= i < |r| ==> IsIndexKey(r[i])
  {
    if order == [] then []
    else
      var k := order[0];
      var keep := k in o.slots && o.slots[k].enumerable && IsIndexKey(k) == indices;
      (if keep then [k] else []) + EnumerableOrder(o, order[1..], indices)
  }

  function IndexKeysBelow(n: nat): (r: seq<string>)
    ensures |r| == n
  {
    if n == 0 then [] else IndexKeysBelow(n - 1) + [NatToString(n - 1)]
  }

  /**
   * `Object.keys(obj)` for the object at `a`: the own enumerable keys,
   * array indices first in ascending order, then the rest in creation order.
   */
  function OwnKeys(h: Heap, a: Addr): seq<string>
  {
    if a >= |h| then []
    else
      var o := h[a];
      (if o.kind.BoxedString? then IndexKeysBelow(|o.kind.text|) else [])
      + SortIndexKeys(EnumerableOrder(o, o.order, true)) + EnumerableOrder(o, o.order, false)
  }

  /** `Object.keys(v)` on any value (a string enumerates its indices). */
  function KeysOf(h: Heap, v: Value): Result<seq<string>>
  {
    match v
    case Undefined => Throws(TypeError)
    case Null => Throws(TypeError)
    case Str(t) => Ok(IndexKeysBelow(|t|))
    case Ref(a) => Ok(OwnKeys(h, a))
    case Failure(_) => Ok(["type", "message"])
    case _ => Ok([])
  }
}

/**
 * `extend([flags | deep,] [filter,] dst, ...sources)` of both editions:
 * the keys of each source are copied into `dst` in place, deep copies
 * are rebuilt in fresh objects and arrays, and an audited `dst` has its
 * audit record bumped once at the end.
 *
 * The recursion is stated as mutually recursive functions over the heap
 * (`Merge` → `CopySources` → `CopyFrom` → `CopyKeys` → `CopyKey` → `Merge`),
 * and the same steps are run in place against a `Store` by `Extend`,
 * `MergeInPlace` and `CopyKeyInPlace`. The depth of the call stack is a
 * fuel bound: a deep copy that needs more nested calls than `fuel` allows
 * stops with the `RangeError` of an exhausted stack.
 */
module DataExtend {
  import opened JsCore
  import opened HeapFacts
  import opened PropSpec
  import opened PropStore
  import opened DataCollections

  /** The heap after a step and how the step completed. */
  datatype Outcome<T> = Outcome(heap: Heap, result: Result<T>)

  /**
   * The arguments the filter callback receives: `key, val, src, dstVal, dst`,
   * and in the `dist` edition also `depth, parentKey, parentObj`
   * (`undefined` in `lib`, which passes only five).
   */
  datatype FilterCall = FilterCall(key: string, val: Value, src: Value, dstVal: Value, dst: Value,
                                   depth: Value, parentKey: Value, parentObj: Value)

  /** A filter callback; its result `false` (and only `false`) skips the key. */
  type FilterFn = (Heap, FilterCall) -> Value

  /** An argument of `extend`: a value or a function (a filter callback). */
  datatype Arg = Val(v: Value) | Fn(f: FilterFn)

  /** The filter in force: none, a callback, or a truthy value that is not callable. */
  datatype FilterSetting = NoFilter | Calls(f: FilterFn) | NotCallable

  /** The settings one call runs with. */
  datatype Mode = Mode(ed: Edition, deep: bool, overwrite: bool, filter: FilterSetting)

  /** Where a nested copy sits: its depth and the key and source object it came from. */
  datatype Frame = Frame(depth: nat, parentKey: Value, parentObj: Value)

  const TOP: Frame := Frame(0, Null, Null)

  /** `extend.DEEP`, `extend.NO_OVERWRITE` and `extend.FILTER`. */
  const DEEP: nat := 1
  const NO_OVERWRITE: nat := 2
  const FILTER: nat := 4

  // -------------------------------------------------------------------------
  // The leading arguments
  // -------------------------------------------------------------------------

  /** `r` rounded toward zero, as `ToInt32` does before it wraps. */
  function Trunc(r: real): (n: int)
    ensures r >= 0.0 ==> 0.0 <= n as real <= r < n as real + 1.0
    ensures r < 0.0 ==> n as real - 1.0 < r <= n as real <= 0.0
  {
    if r >= 0.0 then r.Floor else -((-r).Floor)
  }

  /**
   * The low three bits of `ToInt32(n)`, which are all `flags & FLAG` looks
   * at: `NaN` and the infinities convert to 0, and wrapping modulo 2^32
   * leaves the low bits of the truncated value unchanged.
   */
  function FlagBits(n: Num): (bits: nat)
    ensures bits < 8
  {
    match n
    case Finite(r) => Trunc(r) % 8
    case _ => 0
  }

  /** `bits & flag` is non-zero, for a one-bit flag. */
  predicate HasFlag(bits: nat, flag: nat)
    requires flag > 0
  {
    (bits / flag) % 2 == 1
  }

  /** `filterFunc`: a function is called, any other truthy value fails when called, a falsy one is no filter. */
  function FilterOf(a: Arg): FilterSetting
  {
    match a
    case Fn(f) => Calls(f)
    case Val(v) => if Truthy(v) then NotCallable else NoFilter
  }

  /** The index of the destination argument: past a leading boolean or number, and past the filter when `FILTER` is set. */
  function Start(args: seq<Arg>): (start: nat)
    requires |args| >= 1 && args[0].Val?
    ensures start <= 2
  {
    match args[0].v
    case Bool(_) => 1
    case Number(n) => if HasFlag(FlagBits(n), FILTER) then 2 else 1
    case _ => 0
  }

  /** The settings the leading arguments select; without flags, a shallow copy that overwrites. */
  function Settings(ed: Edition, args: seq<Arg>): Mode
    requires |args| >= 2 && args[0].Val?
  {
    match args[0].v
    case Bool(b) => Mode(ed, b, true, NoFilter)
    case Number(n) =>
      var bits := FlagBits(n);
      Mode(ed, HasFlag(bits, DEEP), !HasFlag(bits, NO_OVERWRITE),
           if HasFlag(bits, FILTER) then FilterOf(args[1]) else NoFilter)
    case _ => Mode(ed, false, true, NoFilter)
  }

  /**
   * The model has no function values, so a function may appear only as the
   * filter argument or as a source (where it has no own keys to copy).
   */
  predicate FunctionsPlaced(args: seq<Arg>)
  {
    |args| >= 1 ==> args[0].Val? && (Start(args) < |args| ==> args[Start(args)].Val?)
  }

  /** The settings of the copies nested in a deep copy: `dist` keeps its own, `lib` calls `extend(true, …)`. */
  function Nested(mode: Mode): (r: Mode)
    ensures r.ed == mode.ed && (mode.deep ==> r.deep)
    ensures mode.ed == Dist ==> r == mode
  {
    if mode.ed == Lib then Mode(Lib, true, true, NoFilter) else mode
  }

  // -------------------------------------------------------------------------
  // One key
  // -------------------------------------------------------------------------

  /** The keys `dist` never copies. */
  predicate IsProtoKey(k: string)
  {
    k == "__proto__" || k == "constructor" || k == "prototype"
  }

  /**
   * A value that is copied deeply rather than shared: an object whose
   * constructor is `Object` or `Array` — a plain record or an array without
   * an own `constructor` key, or a validator's `{type, message}` record.
   */
  predicate DeepCopied(h: Heap, v: Value)
  {
    v.Failure?
    || (v.Ref? && v.addr < |h| && (h[v.addr].kind.PlainObject? || h[v.addr].kind.ArrayObject?)
        && "constructor" !in h[v.addr].slots)
  }

  /** `isArray ? [] : {}`, allocated. */
  function NewContainer(h: Heap, like: Value): (r: (Heap, Value))
    ensures r.0 == h + [if IsArray(h, like) then EmptyArray else EmptyObject] && r.1 == Ref(|h|)
  {
    var (h', a) := Alloc(h, if IsArray(h, like) then EmptyArray else EmptyObject);
    (h', Ref(a))
  }

  /** What the filter callback is called with, per edition. */
  function CallOf(ed: Edition, fr: Frame, key: string, val: Value, src: Value, dstVal: Value, dst: Value): (c: FilterCall)
    ensures c.key == key && c.val == val && c.src == src && c.dstVal == dstVal && c.dst == dst
    ensures ed == Lib ==> c.depth == Undefined && c.parentKey == Undefined && c.parentObj == Undefined
  {
    if ed == Dist then FilterCall(key, val, src, dstVal, dst, Number(Finite(fr.depth as real)), fr.parentKey, fr.parentObj)
    else FilterCall(key, val, src, dstVal, dst, Undefined, Undefined, Undefined)
  }

  /** Whether the filter lets the key through: only a result of exactly `false` refuses it. */
  function Admits(mode: Mode, h: Heap, fr: Frame, key: string, val: Value, src: Value, dstVal: Value,
                  dst: Value): (r: Result<bool>)
    ensures r.Throws? <==> mode.filter.NotCallable?
    ensures mode.filter.NoFilter? ==> r == Ok(true)
  {
    match mode.filter
    case NoFilter => Ok(true)
    case NotCallable => Throws(TypeError)
    case Calls(f) => Ok(f(h, CallOf(mode.ed, fr, key, val, src, dstVal, dst)) != Bool(false))
  }

  /** `dst[key] = x` in strict mode. */
  function Write(h: Heap, dst: Value, key: string, x: Value): (r: Outcome<()>)
    ensures r.result.Ok? <==> PutValue(h, dst, key, x).Ok?
    ensures r.heap == if r.result.Ok? then PutValue(h, dst, key, x).value else h
  {
    match PutValue(h, dst, key, x)
    case Ok(h') => Outcome(h', Ok(()))
    case Throws(e) => Outcome(h, Throws(e))
  }

  /** The audit bump at the end of every call: `dst._audit.base` gets `modified` and one more `updateCount`. */
  function Bump(h: Heap, dst: Value, now: real): (r: Result<Heap>)
    requires !IsNullish(dst)
    ensures r.Ok? ==> |r.value| == |h|
  {
    var audit := Member(h, dst, "_audit").value;
    if !Truthy(audit) then Ok(h)
    else Touch(h, Member(h, audit, "base").value, now)
  }

  // -------------------------------------------------------------------------
  // The copy
  // -------------------------------------------------------------------------

  /** One call of the copy (`_extend` in `dist`, `extend` itself in `lib`): every source into `dst`, then the bump; the result is `dst`. */
  function Merge(mode: Mode, h: Heap, fr: Frame, dst: Value, srcs: seq<Arg>, now: real, fuel: nat): (r: Outcome<Value>)
    requires !IsNullish(dst)
    ensures |r.heap| >= |h|
    ensures r.result.Ok? ==> r.result.value == dst
    decreases fuel, 4, 0
  {
    var c := CopySources(mode, h, fr, dst, srcs, 0, now, fuel);
    if c.result.Throws? then Outcome(c.heap, Throws(c.result.error))
    else
      match Bump(c.heap, dst, now)
      case Throws(e) => Outcome(c.heap, Throws(e))
      case Ok(h') => Outcome(h', Ok(dst))
  }

  /** The sources from index `i` on, in order; the first that throws ends the call. */
  function CopySources(mode: Mode, h: Heap, fr: Frame, dst: Value, srcs: seq<Arg>, i: nat, now: real,
                       fuel: nat): (r: Outcome<()>)
    requires !IsNullish(dst) && i <= |srcs|
    ensures |r.heap| >= |h|
    decreases fuel, 3, |srcs| - i
  {
    if i == |srcs| then Outcome(h, Ok(()))
    else
      var c := CopyFrom(mode, h, fr, dst, srcs[i], now, fuel);
      if c.result.Throws? then c else CopySources(mode, c.heap, fr, dst, srcs, i + 1, now, fuel)
  }

  /** One source: skipped unless it is an object, else its own enumerable keys as they are when the copy of it starts. */
  function CopyFrom(mode: Mode, h: Heap, fr: Frame, dst: Value, src: Arg, now: real, fuel: nat): (r: Outcome<()>)
    requires !IsNullish(dst)
    ensures |r.heap| >= |h|
    decreases fuel, 2, 0
  {
    if src.Val? && IsObject(src.v) then CopyKeys(mode, h, fr, dst, src.v, KeysFor(h, src.v), 0, now, fuel)
    else Outcome(h, Ok(()))
  }

  /** The keys of one source from index `j` on. */
  function CopyKeys(mode: Mode, h: Heap, fr: Frame, dst: Value, src: Value, ks: seq<string>, j: nat, now: real,
                    fuel: nat): (r: Outcome<()>)
    requires !IsNullish(dst) && j <= |ks|
    ensures |r.heap| >= |h|
    decreases fuel, 1, |ks| - j
  {
    if j == |ks| then Outcome(h, Ok(()))
    else
      var c := CopyKey(mode, h, fr, dst, src, ks[j], now, fuel);
      if c.result.Throws? then c else CopyKeys(mode, c.heap, fr, dst, src, ks, j + 1, now, fuel)
  }

  /**
   * One key: skipped when it is a prototype key (`dist`), already owned
   * by `dst` under `NO_OVERWRITE`, or refused by the filter; otherwise
   * delivered.
   */
  function CopyKey(mode: Mode, h: Heap, fr: Frame, dst: Value, src: Value, key: string, now: real,
                   fuel: nat): (r: Outcome<()>)
    requires !IsNullish(dst)
    ensures |r.heap| >= |h|
    decreases fuel, 0, 1
  {
    if mode.ed == Dist && IsProtoKey(key) then Outcome(h, Ok(()))
    else if !mode.overwrite && HasOwn(h, dst, key).value then Outcome(h, Ok(()))
    else
      var val := Elem(h, src, key);
      var dstVal := Elem(h, dst, key);
      match Admits(mode, h, fr, key, val, src, dstVal, dst)
      case Throws(e) => Outcome(h, Throws(e))
      case Ok(admitted) =>
        if admitted then Deliver(mode, h, fr, dst, src, key, val, dstVal, now, fuel) else Outcome(h, Ok(()))
  }

  /** `dst[key] = val`, where a value copied deeply is first rebuilt by a nested call. */
  function Deliver(mode: Mode, h: Heap, fr: Frame, dst: Value, src: Value, key: string, val: Value, dstVal: Value,
                   now: real, fuel: nat): (r: Outcome<()>)
    requires !IsNullish(dst)
    ensures |r.heap| >= |h|
    decreases fuel, 0, 0
  {
    if !(mode.deep && DeepCopied(h, val)) then Write(h, dst, key, val)
    else if fuel == 0 then Outcome(h, Throws(RangeError))
    else
      var m := DeepCopy(mode, h, fr, src, key, val, dstVal, now, fuel - 1);
      if m.result.Throws? then Outcome(m.heap, Throws(m.result.error))
      else Write(m.heap, dst, key, m.result.value)
  }

  /**
   * The copy of a value copied deeply: the old `dst` value (or a fresh
   * empty container of the value's kind) and the value merged into another
   * fresh container, one level deeper.
   */
  function DeepCopy(mode: Mode, h: Heap, fr: Frame, src: Value, key: string, val: Value, dstVal: Value, now: real,
                    fuel: nat): (r: Outcome<Value>)
    ensures |r.heap| >= |h|
    decreases fuel, 5, 0
  {
    var (h1, base) := if Truthy(dstVal) then (h, dstVal) else NewContainer(h, val);
    var (h2, into) := NewContainer(h1, val);
    Merge(Nested(mode), h2, Frame(fr.depth + 1, Str(key), src), into, [Val(base), Val(val)], now, fuel)
  }

  /**
   * `extend(...args)`: no arguments give `undefined`, one gives itself;
   * otherwise the destination (a falsy one replaced by a fresh `{}`)
   * receives every later argument.
   */
  function ExtendCall(ed: Edition, h: Heap, args: seq<Arg>, now: real, fuel: nat): (r: Outcome<Value>)
    requires FunctionsPlaced(args)
    ensures |r.heap| >= |h|
  {
    if |args| == 0 then Outcome(h, Ok(Undefined))
    else if |args| == 1 then Outcome(h, Ok(args[0].v))
    else
      var start := Start(args);
      var given := if start < |args| then args[start].v else Undefined;
      var (h1, dst) := if Truthy(given) then (h, given) else NewContainer(h, Undefined);
      Merge(Settings(ed, args), h1, TOP, dst, if start < |args| then args[start + 1..] else [], now, fuel)
  }

  // -------------------------------------------------------------------------
  // In place
  // -------------------------------------------------------------------------

  /** `extend(...args)` run against `store`: the heap it leaves and its completion are those of `ExtendCall`. */
  method Extend(store: Store, ed: Edition, args: seq<Arg>, now: real, fuel: nat) returns (r: Result<Value>)
    requires FunctionsPlaced(args)
    modifies store
    ensures Outcome(store.heap, r) == ExtendCall(ed, old(store.heap), args, now, fuel)
    ensures store.uidCounter == old(store.uidCounter)
  {
    if |args| == 0 {
      return Ok(Undefined);
    } else if |args| == 1 {
      return Ok(args[0].v);
    }
    var start := Start(args);
    var dst := if start < |args| then args[start].v else Undefined;
    if !Truthy(dst) {
      var made := NewContainer(store.heap, Undefined);
      store.heap, dst := made.0, made.1;
    }
    r := MergeInPlace(store, Settings(ed, args), TOP, dst, if start < |args| then args[start + 1..] else [], now, fuel);
  }

  /** One call of the copy, in place: every source, then the bump. */
  method MergeInPlace(store: Store, mode: Mode, fr: Frame, dst: Value, srcs: seq<Arg>, now: real, fuel: nat)
    returns (r: Result<Value>)
    requires !IsNullish(dst)
    modifies store
    ensures Outcome(store.heap, r) == Merge(mode, old(store.heap), fr, dst, srcs, now, fuel)
    ensures store.uidCounter == old(store.uidCounter)
    decreases fuel, 4
  {
    var c := SourcesInPlace(store, mode, fr, dst, srcs, now, fuel);
    if c.Throws? {
      return Throws(c.error);
    }
    var audit := Member(store.heap, dst, "_audit").value;
    if Truthy(audit) {
      match Touch(store.heap, Member(store.heap, audit, "base").value, now)
      case Throws(e) =>
        return Throws(e);
      case Ok(h') =>
        store.heap := h';
    }
    return Ok(dst);
  }

  /** The loop over the sources. */
  method SourcesInPlace(store: Store, mode: Mode, fr: Frame, dst: Value, srcs: seq<Arg>, now: real, fuel: nat)
    returns (r: Result<()>)
    requires !IsNullish(dst)
    modifies store
    ensures Outcome(store.heap, r) == CopySources(mode, old(store.heap), fr, dst, srcs, 0, now, fuel)
    ensures store.uidCounter == old(store.uidCounter)
    decreases fuel, 3
  {
    ghost var h0 := store.heap;
    var i := 0;
    while i < |srcs|
      invariant i <= |srcs|
      invariant CopySources(mode, h0, fr, dst, srcs, 0, now, fuel) == CopySources(mode, store.heap, fr, dst, srcs, i, now, fuel)
      invariant store.uidCounter == old(store.uidCounter)
    {
      var c := FromInPlace(store, mode, fr, dst, srcs[i], now, fuel);
      if c.Throws? {
        return Throws(c.error);
      }
      i := i + 1;
    }
    return Ok(());
  }

  /** The loop over the keys of one source, taken when its copy starts. */
  method FromInPlace(store: Store, mode: Mode, fr: Frame, dst: Value, arg: Arg, now: real, fuel: nat)
    returns (r: Result<()>)
    requires !IsNullish(dst)
    modifies store
    ensures Outcome(store.heap, r) == CopyFrom(mode, old(store.heap), fr, dst, arg, now, fuel)
    ensures store.uidCounter == old(store.uidCounter)
    decreases fuel, 2
  {
    if !(arg.Val? && IsObject(arg.v)) {
      return Ok(());
    }
    ghost var h0 := store.heap;
    var src := arg.v;
    var ks := KeysFor(store.heap, src);
    var j := 0;
    while j < |ks|
      invariant j <= |ks|
      invariant CopyKeys(mode, h0, fr, dst, src, ks, 0, now, fuel) == CopyKeys(mode, store.heap, fr, dst, src, ks, j, now, fuel)
      invariant store.uidCounter == old(store.uidCounter)
    {
      var c := CopyKeyInPlace(store, mode, fr, dst, src, ks[j], now, fuel);
      if c.Throws? {
        return Throws(c.error);
      }
      j := j + 1;
    }
    return Ok(());
  }

  /** One key, in place: the skips and the filter. */
  method CopyKeyInPlace(store: Store, mode: Mode, fr: Frame, dst: Value, src: Value, key: string, now: real,
                        fuel: nat) returns (r: Result<()>)
    requires !IsNullish(dst)
    modifies store
    ensures Outcome(store.heap, r) == CopyKey(mode, old(store.heap), fr, dst, src, key, now, fuel)
    ensures store.uidCounter == old(store.uidCounter)
    decreases fuel, 1
  {
    if mode.ed == Dist && IsProtoKey(key) {
      return Ok(());
    }
    if !mode.overwrite && HasOwn(store.heap, dst, key).value {
      return Ok(());
    }
    var val := Elem(store.heap, src, key);
    var dstVal := Elem(store.heap, dst, key);
    var admitted := Admits(mode, store.heap, fr, key, val, src, dstVal, dst);
    if admitted.Throws? {
      return Throws(admitted.error);
    } else if !admitted.value {
      return Ok(());
    }
    r := DeliverInPlace(store, mode, fr, dst, src, key, val, dstVal, now, fuel);
  }

  /** The deep copy, if any, then the write. */
  method DeliverInPlace(store: Store, mode: Mode, fr: Frame, dst: Value, src: Value, key: string, val: Value,
                        dstVal: Value, now: real, fuel: nat) returns (r: Result<()>)
    requires !IsNullish(dst)
    modifies store
    ensures Outcome(store.heap, r) == Deliver(mode, old(store.heap), fr, dst, src, key, val, dstVal, now, fuel)
    ensures store.uidCounter == old(store.uidCounter)
    decreases fuel, 0
  {
    var x := val;
    if mode.deep && DeepCopied(store.heap, val) {
      if fuel == 0 {
        return Throws(RangeError);
      }
      var copied := DeepCopyInPlace(store, mode, fr, src, key, val, dstVal, now, fuel - 1);
      if copied.Throws? {
        return Throws(copied.error);
      }
      x := copied.value;
    }
    r := WriteInPlace(store, dst, key, x);
  }

  /** `dst[key] = x` in strict mode, in the store. */
  method WriteInPlace(store: Store, dst: Value, key: string, x: Value) returns (r: Result<()>)
    modifies store
    ensures Outcome(store.heap, r) == Write(old(store.heap), dst, key, x)
    ensures store.uidCounter == old(store.uidCounter)
  {
    match PutValue(store.heap, dst, key, x)
    case Throws(e) =>
      r := Throws(e);
    case Ok(h') =>
      store.heap := h';
      r := Ok(());
  }

  /** The containers of a deep copy allocated in the store, and the nested call. */
  method DeepCopyInPlace(store: Store, mode: Mode, fr: Frame, src: Value, key: string, val: Value, dstVal: Value,
                         now: real, fuel: nat) returns (r: Result<Value>)
    modifies store
    ensures Outcome(store.heap, r) == DeepCopy(mode, old(store.heap), fr, src, key, val, dstVal, now, fuel)
    ensures store.uidCounter == old(store.uidCounter)
    decreases fuel, 5
  {
    var base := dstVal;
    if !Truthy(dstVal) {
      var made := NewContainer(store.heap, val);
      store.heap, base := made.0, made.1;
    }
    var made := NewContainer(store.heap, val);
    store.heap := made.0;
    r := MergeInPlace(store, Nested(mode), Frame(fr.depth + 1, Str(key), src), made.1, [Val(base), Val(val)], now, fuel);
  }
}

/**
 * The promises of `extend` as its callers see them: what it returns, the
 * keys it leaves alone, the value each key ends with after a shallow
 * merge, the keys a filter refuses, the freshness of deep copies, the
 * audit bump and the reading of the flags.
 */
module ExtendProps {
  import opened JsCore
  import opened HeapFacts
  import opened PropSpec
  import opened DataCollections
  import opened DataExtend
  import opened ExtendFacts

  /** The destination argument as given (`undefined` when the arguments stop short of it). */
  function Destination(args: seq<Arg>): Value
    requires FunctionsPlaced(args) && |args| >= 1
  {
    if Start(args) < |args| then args[Start(args)].v else Undefined
  }

  // -------------------------------------------------------------------------
  // The result and the frame of a call
  // -------------------------------------------------------------------------

  /**
   * `extend()` is `undefined`, `extend(x)` is `x`, and otherwise a call that
   * completes returns its destination: the one given when truthy, else a new
   * plain object allocated at the end of the heap.
   */
  lemma ExtendReturnsDestination(ed: Edition, h: Heap, args: seq<Arg>, now: real, fuel: nat)
    requires FunctionsPlaced(args)
    ensures |args| == 0 ==> ExtendCall(ed, h, args, now, fuel) == Outcome(h, Ok(Undefined))
    ensures |args| == 1 ==> ExtendCall(ed, h, args, now, fuel) == Outcome(h, Ok(args[0].v))
    ensures |args| >= 2 && ExtendCall(ed, h, args, now, fuel).result.Ok? ==>
              var r := ExtendCall(ed, h, args, now, fuel);
              if Truthy(Destination(args)) then r.result.value == Destination(args)
              else r.result.value == Ref(|h|) && |r.heap| > |h| && r.heap[|h|].kind.PlainObject?
  {
    if |args| >= 2 && !Truthy(Destination(args)) {
      var start := Start(args);
      var h1 := h + [EmptyObject];
      MergeKeeps(Settings(ed, args), h1, TOP, Ref(|h|), if start < |args| then args[start + 1..] else [], now, fuel);
    }
  }

  /**
   * A call keeps every old object's kind and, audit fields aside, every key
   * of every old object but the destination, and every key the destination
   * guards: a prototype key in `dist`, and under `NO_OVERWRITE` every key it
   * already owns.
   */
  lemma ExtendKeeps(ed: Edition, h: Heap, args: seq<Arg>, now: real, fuel: nat)
    requires FunctionsPlaced(args) && |args| >= 2
    requires Destination(args).Ref? ==> Destination(args).addr < |h|
    ensures Preserves(Settings(ed, args), h, ExtendCall(ed, h, args, now, fuel).heap, Destination(args))
  {
    var start := Start(args);
    var mode := Settings(ed, args);
    var srcs := if start < |args| then args[start + 1..] else [];
    var given := Destination(args);
    if Truthy(given) {
      MergeKeeps(mode, h, TOP, given, srcs, now, fuel);
    } else {
      var h1 := h + [EmptyObject];
      MergeKeeps(mode, h1, TOP, Ref(|h|), srcs, now, fuel);
      assert h1[..|h|] == h;
      FreshUntouched(mode, h, h1, ExtendCall(ed, h, args, now, fuel).heap, Ref(|h|));
      UntouchedPreserves(mode, h, ExtendCall(ed, h, args, now, fuel).heap, given);
    }
  }

  /** Under `NO_OVERWRITE` a key the destination owns keeps its slot and value (an array's `length` and the audit fields aside). */
  lemma NoOverwriteKeepsOwnKeys(ed: Edition, h: Heap, args: seq<Arg>, now: real, fuel: nat, k: string)
    requires FunctionsPlaced(args) && |args| >= 2
    requires args[0].v.Number? && HasFlag(FlagBits(args[0].v.n), NO_OVERWRITE)
    requires Destination(args).Ref? && Destination(args).addr < |h|
    requires HasOwn(h, Destination(args), k) == Ok(true) && !IsAuditKey(k)
    requires !(IsArray(h, Destination(args)) && k == "length")
    ensures var a := Destination(args).addr;
            var h' := ExtendCall(ed, h, args, now, fuel).heap;
            SlotOf(h'[a], k) == SlotOf(h[a], k) && ObjGet(h'[a], k) == ObjGet(h[a], k)
  {
    ExtendKeeps(ed, h, args, now, fuel);
    assert Kept(Settings(ed, args), h, Destination(args), Destination(args).addr, k);
  }

  /** `dist` never writes `__proto__`, `constructor` or `prototype` into the destination. */
  lemma DistSkipsProtoKeys(h: Heap, args: seq<Arg>, now: real, fuel: nat, k: string)
    requires FunctionsPlaced(args) && |args| >= 2
    requires Destination(args).Ref? && Destination(args).addr < |h| && IsProtoKey(k)
    ensures var a := Destination(args).addr;
            var h' := ExtendCall(Dist, h, args, now, fuel).heap;
            SlotOf(h'[a], k) == SlotOf(h[a], k) && ObjGet(h'[a], k) == ObjGet(h[a], k)
  {
    ExtendKeeps(Dist, h, args, now, fuel);
    assert Kept(Settings(Dist, args), h, Destination(args), Destination(args).addr, k);
  }

  /** Sources and every other old object keep all their keys but the audit fields. */
  lemma ExtendLeavesOthers(ed: Edition, h: Heap, args: seq<Arg>, now: real, fuel: nat, b: nat, k: string)
    requires FunctionsPlaced(args) && |args| >= 2
    requires Destination(args).Ref? ==> Destination(args).addr < |h|
    requires b < |h| && !(Destination(args).Ref? && Destination(args).addr == b) && !IsAuditKey(k)
    ensures var h' := ExtendCall(ed, h, args, now, fuel).heap;
            SlotOf(h'[b], k) == SlotOf(h[b], k) && ObjGet(h'[b], k) == ObjGet(h[b], k)
  {
    ExtendKeeps(ed, h, args, now, fuel);
    assert Kept(Settings(ed, args), h, Destination(args), b, k);
  }

  // -------------------------------------------------------------------------
  // Shallow merges: the last source that has a key wins
  // -------------------------------------------------------------------------

  /** `extend(dst, ...sources)`: shallow, overwriting, unfiltered. */
  predicate Plain(mode: Mode)
  {
    !mode.deep && mode.overwrite && mode.filter.NoFilter?
  }

  /** From `h` to `h'` only the object at `a` changed, and it kept its kind. */
  ghost predicate OnlyAt(h: Heap, h': Heap, a: nat)
  {
    |h'| == |h| && a < |h| && h'[a].kind == h[a].kind
    && forall b :: 0 <= b < |h| && b != a ==> h'[b] == h[b]
  }

  /** No source is the object at `a`. */
  predicate AwayFrom(srcs: seq<Arg>, a: nat)
  {
    forall i :: 0 <= i < |srcs| ==> !(srcs[i].Val? && srcs[i].v == Ref(a))
  }

  /** Source `arg` hands key `k` over: it is an object that owns `k`, and `k` is not a key `dist` refuses. */
  predicate Hands(ed: Edition, h: Heap, arg: Arg, k: string)
  {
    arg.Val? && IsObject(arg.v) && k in KeysFor(h, arg.v) && !(ed == Dist && IsProtoKey(k))
  }

  /** The value key `k` ends with: that of the last source from `i` on that hands it over, else `dflt`. */
  function Winner(ed: Edition, h: Heap, srcs: seq<Arg>, i: nat, k: string, dflt: Value): Value
    requires i <= |srcs|
    decreases |srcs| - i
  {
    if i == |srcs| then dflt
    else Winner(ed, h, srcs, i + 1, k, if Hands(ed, h, srcs[i], k) then Elem(h, srcs[i].v, k) else dflt)
  }

  /** Reads of objects other than the one at `a` see no change. */
  lemma ReadsElsewhere(h: Heap, h': Heap, a: nat, v: Value, k: string)
    requires OnlyAt(h, h', a) && v != Ref(a)
    ensures Elem(h', v, k) == Elem(h, v, k) && KeysFor(h', v) == KeysFor(h, v)
  {
    if v.Ref? && v.addr < |h| {
      assert h'[v.addr] == h[v.addr];
    }
  }

  /** The winner is read from the sources alone, so a change at `a` does not move it. */
  lemma {:induction false} WinnerElsewhere(ed: Edition, h: Heap, h': Heap, a: nat, srcs: seq<Arg>, i: nat, k: string,
                                           dflt: Value)
    requires OnlyAt(h, h', a) && AwayFrom(srcs, a) && i <= |srcs|
    ensures Winner(ed, h', srcs, i, k, dflt) == Winner(ed, h, srcs, i, k, dflt)
    decreases |srcs| - i
  {
    if i < |srcs| {
      var next := if Hands(ed, h, srcs[i], k) then Elem(h, srcs[i].v, k) else dflt;
      var next' := if Hands(ed, h', srcs[i], k) then Elem(h', srcs[i].v, k) else dflt;
      if srcs[i].Val? {
        ReadsElsewhere(h, h', a, srcs[i].v, k);
      }
      assert next' == next;
      WinnerElsewhere(ed, h, h', a, srcs, i + 1, k, next);
      assert Winner(ed, h', srcs, i, k, dflt) == Winner(ed, h', srcs, i + 1, k, next');
    }
  }

  lemma OnlyAtTrans(h1: Heap, h2: Heap, h3: Heap, a: nat)
    requires OnlyAt(h1, h2, a) && OnlyAt(h2, h3, a)
    ensures OnlyAt(h1, h3, a)
  {
  }

  /** One key of a plain merge into a plain object: `dst[key]` becomes the source's value and no other key moves. */
  lemma PlainKey(mode: Mode, h: Heap, fr: Frame, a: nat, src: Value, key: string, now: real, fuel: nat, k: string)
    requires Plain(mode) && a < |h| && h[a].kind.PlainObject?
    ensures var c := CopyKey(mode, h, fr, Ref(a), src, key, now, fuel);
            c.result.Ok? ==>
              (OnlyAt(h, c.heap, a)
               && ObjGet(c.heap[a], k) == if k == key && !(mode.ed == Dist && IsProtoKey(k)) then Elem(h, src, k)
                                          else ObjGet(h[a], k))
  {
    if !(mode.ed == Dist && IsProtoKey(key)) {
      var val := Elem(h, src, key);
      assert CopyKey(mode, h, fr, Ref(a), src, key, now, fuel) == Write(h, Ref(a), key, val);
      if Put(h, a, key, val).Ok? {
        PutPlainStores(h, a, key, val);
        PutOther(h, a, key, val);
      }
    }
  }

  /** The keys `ks[j..]` of one source, merged plainly: each ends with the source's value, the rest keep theirs. */
  lemma {:induction false} PlainKeys(mode: Mode, h: Heap, fr: Frame, a: nat, src: Value, ks: seq<string>, j: nat,
                                     now: real, fuel: nat, k: string)
    requires Plain(mode) && a < |h| && h[a].kind.PlainObject? && src != Ref(a) && j <= |ks|
    ensures var r := CopyKeys(mode, h, fr, Ref(a), src, ks, j, now, fuel);
            r.result.Ok? ==>
              (OnlyAt(h, r.heap, a)
               && ObjGet(r.heap[a], k) == if k in ks[j..] && !(mode.ed == Dist && IsProtoKey(k)) then Elem(h, src, k)
                                          else ObjGet(h[a], k))
    decreases |ks| - j
  {
    if j < |ks| {
      var c := CopyKey(mode, h, fr, Ref(a), src, ks[j], now, fuel);
      PlainKey(mode, h, fr, a, src, ks[j], now, fuel, k);
      if c.result.Ok? {
        var r := CopyKeys(mode, c.heap, fr, Ref(a), src, ks, j + 1, now, fuel);
        PlainKeys(mode, c.heap, fr, a, src, ks, j + 1, now, fuel, k);
        if r.result.Ok? {
          ReadsElsewhere(h, c.heap, a, src, k);
          OnlyAtTrans(h, c.heap, r.heap, a);
          assert ks[j..] == [ks[j]] + ks[j + 1..];
        }
      }
    }
  }

  /** One source, merged plainly. */
  lemma PlainFrom(mode: Mode, h: Heap, fr: Frame, a: nat, src: Arg, now: real, fuel: nat, k: string)
    requires Plain(mode) && a < |h| && h[a].kind.PlainObject? && !(src.Val? && src.v == Ref(a))
    ensures var c := CopyFrom(mode, h, fr, Ref(a), src, now, fuel);
            c.result.Ok? ==>
              (OnlyAt(h, c.heap, a)
               && ObjGet(c.heap[a], k) == if Hands(mode.ed, h, src, k) then Elem(h, src.v, k) else ObjGet(h[a], k))
  {
    if src.Val? && IsObject(src.v) {
      PlainKeys(mode, h, fr, a, src.v, KeysFor(h, src.v), 0, now, fuel, k);
      assert KeysFor(h, src.v)[0..] == KeysFor(h, src.v);
    }
  }

  /** The sources from `i` on, merged plainly: key `k` ends with the value of the last source that hands it over. */
  lemma {:induction false} PlainSources(mode: Mode, h: Heap, fr: Frame, a: nat, srcs: seq<Arg>, i: nat, now: real,
                                        fuel: nat, k: string)
    requires Plain(mode) && a < |h| && h[a].kind.PlainObject? && AwayFrom(srcs, a) && i <= |srcs|
    ensures var r := CopySources(mode, h, fr, Ref(a), srcs, i, now, fuel);
            r.result.Ok? ==> OnlyAt(h, r.heap, a) && ObjGet(r.heap[a], k) == Winner(mode.ed, h, srcs, i, k, ObjGet(h[a], k))
    decreases |srcs| - i
  {
    if i < |srcs| {
      var c := CopyFrom(mode, h, fr, Ref(a), srcs[i], now, fuel);
      PlainFrom(mode, h, fr, a, srcs[i], now, fuel, k);
      if c.result.Ok? {
        var r := CopySources(mode, c.heap, fr, Ref(a), srcs, i + 1, now, fuel);
        PlainSources(mode, c.heap, fr, a, srcs, i + 1, now, fuel, k);
        if r.result.Ok? {
          OnlyAtTrans(h, c.heap, r.heap, a);
          WinnerElsewhere(mode.ed, h, c.heap, a, srcs, i + 1, k, ObjGet(c.heap[a], k));
        }
      }
    }
  }

  /**
   * `extend(dst, ...sources)` into a plain object, no source being `dst`
   * itself: when it completes, every key other than the audit fields holds
   * the value of the last source that has it, or its old value when none
   * has it, and no source is changed.
   */
  lemma ExtendLastSourceWins(ed: Edition, h: Heap, a: nat, srcs: seq<Arg>, now: real, fuel: nat, k: string)
    requires a < |h| && h[a].kind.PlainObject? && AwayFrom(srcs, a) && !IsAuditKey(k)
    ensures var r := ExtendCall(ed, h, [Val(Ref(a))] + srcs, now, fuel);
            r.result.Ok? ==> r.result.value == Ref(a) && ObjGet(r.heap[a], k) == Winner(ed, h, srcs, 0, k, ObjGet(h[a], k))
  {
    var args := [Val(Ref(a))] + srcs;
    if srcs == [] {
      return;
    }
    assert Start(args) == 0 && args[1..] == srcs;
    var mode := Settings(ed, args);
    var c := CopySources(mode, h, TOP, Ref(a), srcs, 0, now, fuel);
    PlainSources(mode, h, TOP, a, srcs, 0, now, fuel, k);
    if c.result.Ok? && Bump(c.heap, Ref(a), now).Ok? {
      BumpUntouched(c.heap, Ref(a), now);
    }
  }

  // -------------------------------------------------------------------------
  // The filter
  // -------------------------------------------------------------------------

  /**
   * Past the prototype and `NO_OVERWRITE` skips, a key is delivered exactly
   * when the filter's result is anything but `false` — `0`, `null` and
   * `undefined` included.
   */
  lemma FilterFalseSkips(mode: Mode, h: Heap, fr: Frame, dst: Value, src: Value, key: string, now: real, fuel: nat)
    requires !IsNullish(dst) && mode.filter.Calls?
    requires !(mode.ed == Dist && IsProtoKey(key)) && !(!mode.overwrite && HasOwn(h, dst, key).value)
    ensures var call := CallOf(mode.ed, fr, key, Elem(h, src, key), src, Elem(h, dst, key), dst);
            Delivered(mode, h, fr, dst, src, key) <==> mode.filter.f(h, call) != Bool(false)
    ensures var call := CallOf(mode.ed, fr, key, Elem(h, src, key), src, Elem(h, dst, key), dst);
            mode.filter.f(h, call) == Bool(false) ==> CopyKey(mode, h, fr, dst, src, key, now, fuel) == Outcome(h, Ok(()))
  {
  }

  /** A filter that answers `false` to every call. */
  ghost predicate RefusesAll(f: FilterFn)
  {
    forall h, c :: f(h, c) == Bool(false)
  }

  lemma {:induction false} RefusedKeys(mode: Mode, h: Heap, fr: Frame, dst: Value, src: Value, ks: seq<string>, j: nat,
                                       now: real, fuel: nat)
    requires !IsNullish(dst) && mode.filter.Calls? && RefusesAll(mode.filter.f) && j <= |ks|
    ensures CopyKeys(mode, h, fr, dst, src, ks, j, now, fuel) == Outcome(h, Ok(()))
    decreases |ks| - j
  {
    if j < |ks| {
      var key := ks[j];
      var call := CallOf(mode.ed, fr, key, Elem(h, src, key), src, Elem(h, dst, key), dst);
      assert mode.filter.f(h, call) == Bool(false);
      assert CopyKey(mode, h, fr, dst, src, key, now, fuel) == Outcome(h, Ok(()));
      RefusedKeys(mode, h, fr, dst, src, ks, j + 1, now, fuel);
    }
  }

  lemma {:induction false} RefusedSources(mode: Mode, h: Heap, fr: Frame, dst: Value, srcs: seq<Arg>, i: nat, now: real,
                                          fuel: nat)
    requires !IsNullish(dst) && mode.filter.Calls? && RefusesAll(mode.filter.f) && i <= |srcs|
    ensures CopySources(mode, h, fr, dst, srcs, i, now, fuel) == Outcome(h, Ok(()))
    decreases |srcs| - i
  {
    if i < |srcs| {
      if srcs[i].Val? && IsObject(srcs[i].v) {
        RefusedKeys(mode, h, fr, dst, srcs[i].v, KeysFor(h, srcs[i].v), 0, now, fuel);
      }
      RefusedSources(mode, h, fr, dst, srcs, i + 1, now, fuel);
    }
  }

  /** With a filter that refuses every key, a call changes the heap only by its audit bump. */
  lemma MergeRefusingAll(mode: Mode, h: Heap, fr: Frame, dst: Value, srcs: seq<Arg>, now: real, fuel: nat)
    requires !IsNullish(dst) && mode.filter.Calls? && RefusesAll(mode.filter.f)
    ensures Merge(mode, h, fr, dst, srcs, now, fuel)
            == match Bump(h, dst, now)
               case Ok(h') => Outcome(h', Ok(dst))
               case Throws(e) => Outcome(h, Throws(e))
  {
    RefusedSources(mode, h, fr, dst, srcs, 0, now, fuel);
  }

  // -------------------------------------------------------------------------
  // Deep copies
  // -------------------------------------------------------------------------

  /**
   * A deep copy is never shared: when a delivered key's value is copied
   * deeply into a plain destination and the copy completes, the destination
   * holds a new object, of the value's kind, allocated during the call.
   */
  lemma DeepCopyIsFresh(mode: Mode, h: Heap, fr: Frame, a: nat, src: Value, key: string, now: real, fuel: nat)
    requires a < |h| && h[a].kind.PlainObject? && Delivered(mode, h, fr, Ref(a), src, key)
    requires mode.deep && DeepCopied(h, Elem(h, src, key))
    requires CopyKey(mode, h, fr, Ref(a), src, key, now, fuel).result.Ok?
    ensures var r := CopyKey(mode, h, fr, Ref(a), src, key, now, fuel);
            var v := ObjGet(r.heap[a], key);
            v.Ref? && |h| <= v.addr < |r.heap|
            && r.heap[v.addr].kind == if IsArray(h, Elem(h, src, key)) then ArrayObject else PlainObject
  {
    var val := Elem(h, src, key);
    var dstVal := Elem(h, Ref(a), key);
    CopyKeyDelivers(mode, h, fr, Ref(a), src, key, now, fuel);
    var m := DeepCopy(mode, h, fr, src, key, val, dstVal, now, fuel - 1);
    NestedIsFresh(mode, h, fr, src, key, val, dstVal, now, fuel - 1);
    DeepCopyKeeps(mode, h, fr, src, key, val, dstVal, now, fuel - 1);
    var into := m.result.value;
    assert m.heap[a].kind == h[a].kind;
    PutPlainStores(m.heap, a, key, into);
    PutOther(m.heap, a, key, into);
  }

  /** The value a deep copy produces is the second container it allocates, still of the copied value's kind. */
  lemma NestedIsFresh(mode: Mode, h: Heap, fr: Frame, src: Value, key: string, val: Value, dstVal: Value, now: real,
                      fuel: nat)
    requires DeepCopy(mode, h, fr, src, key, val, dstVal, now, fuel).result.Ok?
    ensures var m := DeepCopy(mode, h, fr, src, key, val, dstVal, now, fuel);
            var v := m.result.value;
            v.Ref? && |h| <= v.addr < |m.heap| && m.heap[v.addr].kind == if IsArray(h, val) then ArrayObject else PlainObject
  {
    var (h1, base) := if Truthy(dstVal) then (h, dstVal) else NewContainer(h, val);
    var (h2, into) := NewContainer(h1, val);
    var nested := Frame(fr.depth + 1, Str(key), src);
    MergeKeeps(Nested(mode), h2, nested, into, [Val(base), Val(val)], now, fuel);
    assert h2[|h1|].kind == if IsArray(h, val) then ArrayObject else PlainObject;
  }

  /** In `lib` a nested copy runs as `extend(true, …)`: the caller's `NO_OVERWRITE` and filter play no part in it. */
  lemma LibNestedIgnoresFlags(mode: Mode, mode': Mode, h: Heap, fr: Frame, src: Value, key: string, val: Value,
                              dstVal: Value, now: real, fuel: nat)
    requires mode.ed == Lib && mode'.ed == Lib
    ensures DeepCopy(mode, h, fr, src, key, val, dstVal, now, fuel) == DeepCopy(mode', h, fr, src, key, val, dstVal, now, fuel)
    ensures Nested(mode) == Mode(Lib, true, true, NoFilter)
  {
  }

  // -------------------------------------------------------------------------
  // The audit bump and the flags
  // -------------------------------------------------------------------------

  /**
   * A destination without a truthy `_audit` is not bumped; one whose
   * `_audit.base` is a record that takes both writes gets `modified` set to
   * `now` and `updateCount` one higher.
   */
  lemma BumpCounts(h: Heap, dst: Value, now: real, b: nat)
    requires !IsNullish(dst)
    ensures !Truthy(Member(h, dst, "_audit").value) ==> Bump(h, dst, now) == Ok(h)
    ensures var audit := Member(h, dst, "_audit").value;
            Truthy(audit) && Member(h, audit, "base") == Ok(Ref(b)) && b < |h|
            && Writable(h[b], "modified") && Writable(h[b], "updateCount")
            && ObjGet(h[b], "updateCount").Number? ==>
              Bump(h, dst, now).Ok?
              && ObjGet(Bump(h, dst, now).value[b], "modified") == Number(Finite(now))
              && ObjGet(Bump(h, dst, now).value[b], "updateCount") == Number(Increment(ObjGet(h[b], "updateCount").n))
  {
    var audit := Member(h, dst, "_audit").value;
    if Truthy(audit) && Member(h, audit, "base") == Ok(Ref(b)) && b < |h|
       && Writable(h[b], "modified") && Writable(h[b], "updateCount") && ObjGet(h[b], "updateCount").Number? {
      PutStores(h, b, "modified", Number(Finite(now)));
      var h1 := Put(h, b, "modified", Number(Finite(now))).value;
      assert ObjGet(h1[b], "updateCount") == ObjGet(h[b], "updateCount");
      PutStores(h1, b, "updateCount", Number(Increment(ObjGet(h[b], "updateCount").n)));
    }
  }

  /**
   * A flag is set exactly when its bit is set in the integer itself, the
   * bits of a negative integer being those of its two's complement
   * (Euclidean division rounds toward minus infinity here).
   */
  lemma FlagsOfInteger(n: int)
    ensures FlagBits(Finite(n as real)) == n % 8
    ensures HasFlag(FlagBits(Finite(n as real)), DEEP) <==> n % 2 == 1
    ensures HasFlag(FlagBits(Finite(n as real)), NO_OVERWRITE) <==> (n / 2) % 2 == 1
    ensures HasFlag(FlagBits(Finite(n as real)), FILTER) <==> (n / 4) % 2 == 1
  {
    assert Trunc(n as real) == n;
    LowBits(n);
  }

  /** The low three bits of `n` are those of `n % 8`. */
  lemma LowBits(n: int)
    ensures (n % 8) % 2 == n % 2
    ensures ((n % 8) / 2) % 2 == (n / 2) % 2
    ensures ((n % 8) / 4) % 2 == (n / 4) % 2
  {
    var q, m := n / 8, n % 8;
    Quotient(n, q, m, 2, 4);
    Quotient(n, q, m, 4, 2);
  }

  /** With `n == 8 * q + m` and `m` a residue, dividing by a divisor `d` of 8 splits across the sum. */
  lemma Quotient(n: int, q: int, m: int, d: int, e: int)
    requires n == 8 * q + m && 0 <= m < 8 && d > 0 && d * e == 8
    ensures n / d == e * q + m / d
  {
    var r := m % d;
    assert m == d * (m / d) + r;
    assert n == d * (e * q + m / d) + r;
  }


}

/**
 * What `extend` promises about the heap it works on: it writes only into
 * its destination (and the audit fields of an audit record), never into
 * a key the destination guards, builds every deep copy in fresh objects,
 * copies each key of a shallow source, and with a filter that refuses
 * everything leaves the heap as the audit bump alone leaves it.
 */
module ExtendFacts {
  import opened JsCore
  import opened HeapFacts
  import opened PropSpec
  import opened DataCollections
  import opened DataExtend

  /** The two fields the audit bump writes, into whatever object `_audit.base` names. */
  predicate IsAuditKey(k: string)
  {
    k == "modified" || k == "updateCount"
  }

  /**
   * A key of `dst` the copy never writes: a prototype key in `dist`, or
   * under `NO_OVERWRITE` a key `dst` already owns (an array's own `length`
   * aside, which moves when indices are added).
   */
  predicate Guarded(mode: Mode, h: Heap, dst: Value, k: string)
  {
    (mode.ed == Dist && IsProtoKey(k))
    || (!mode.overwrite && HasOwn(h, dst, k) == Ok(true) && !(IsArray(h, dst) && k == "length"))
  }

  /** Key `k` of object `b` is out of reach of a copy into `dst`. */
  predicate Kept(mode: Mode, h: Heap, dst: Value, b: nat, k: string)
  {
    !IsAuditKey(k) && (dst.Ref? && b == dst.addr ==> Guarded(mode, h, dst, k))
  }

  /** From `h` to `h'` objects were only added, and no old object changed kind or any key but the audit fields. */
  ghost predicate Untouched(h: Heap, h': Heap)
  {
    |h'| >= |h|
    && (forall b :: 0 <= b < |h| ==> h'[b].kind == h[b].kind)
    && (forall b, k :: 0 <= b < |h| && !IsAuditKey(k) ==>
          SlotOf(h'[b], k) == SlotOf(h[b], k) && ObjGet(h'[b], k) == ObjGet(h[b], k)
          && (k in h'[b].order <==> k in h[b].order))
  }

  /** From `h` to `h'` a copy into `dst` kept the kind of every old object and every key it must not write. */
  ghost predicate Preserves(mode: Mode, h: Heap, h': Heap, dst: Value)
  {
    |h'| >= |h|
    && (forall b :: 0 <= b < |h| ==> h'[b].kind == h[b].kind)
    && (forall b, k :: 0 <= b < |h| && Kept(mode, h, dst, b, k) ==>
          SlotOf(h'[b], k) == SlotOf(h[b], k) && ObjGet(h'[b], k) == ObjGet(h[b], k))
    && (forall b, k :: 0 <= b < |h| && !(dst.Ref? && b == dst.addr) && !IsAuditKey(k) ==>
          (k in h'[b].order <==> k in h[b].order))
  }

  // -------------------------------------------------------------------------
  // Single writes
  // -------------------------------------------------------------------------

  /** A successful write of a key other than an array's `length` changes no other slot, and no other read but an array's `length`. */
  lemma PutOther(h: Heap, a: Addr, key: string, x: Value)
    requires Put(h, a, key, x).Ok? && (key != "length" || !h[a].kind.ArrayObject?)
    ensures var h' := Put(h, a, key, x).value;
            h'[a].kind == h[a].kind
            && (forall k :: k != key ==> SlotOf(h'[a], k) == SlotOf(h[a], k))
            && (forall k :: k != key && (k != "length" || !h[a].kind.ArrayObject? || !IsIndexKey(key)) ==>
                  ObjGet(h'[a], k) == ObjGet(h[a], k))
            && (forall k :: k != key ==> (k in h'[a].order <==> k in h[a].order))
  {
    var o := h[a];
    var o' := Put(h, a, key, x).value[a];
    if key in o.slots {
      assert o' == o.(slots := o.slots[key := o.slots[key].(value := x)]);
    } else if o.kind.ArrayObject? && IsIndexAtLeast(key, o.length) {
      assert o' == AddSlot(o, key, x).(length := DigitsValue(key) + 1);
    } else {
      assert o' == AddSlot(o, key, x);
    }
  }

  /** A successful write into a plain object stores the value under its key. */
  lemma PutPlainStores(h: Heap, a: Addr, key: string, x: Value)
    requires Put(h, a, key, x).Ok? && h[a].kind.PlainObject?
    ensures ObjGet(Put(h, a, key, x).value[a], key) == x && key in Put(h, a, key, x).value[a].slots
  {
    var o := h[a];
    if key in o.slots {
      assert Put(h, a, key, x).value[a] == o.(slots := o.slots[key := o.slots[key].(value := x)]);
    } else {
      assert Put(h, a, key, x).value[a] == AddSlot(o, key, x);
    }
  }

  /** A write of an audit field leaves every other key of every object alone. */
  lemma AuditWriteUntouched(h: Heap, v: Value, key: string, x: Value)
    requires IsAuditKey(key) && PutValue(h, v, key, x).Ok?
    ensures Untouched(h, PutValue(h, v, key, x).value)
  {
    assert !IsIndexKey(key) by {
      assert !IsDigit(key[0]);
    }
    PutOther(h, v.addr, key, x);
  }

  lemma UntouchedTrans(h1: Heap, h2: Heap, h3: Heap)
    requires Untouched(h1, h2) && Untouched(h2, h3)
    ensures Untouched(h1, h3)
  {
  }

  /** Touching an audit record writes its two fields and nothing else. */
  lemma TouchUntouched(h: Heap, m: Value, now: real)
    requires Touch(h, m, now).Ok?
    ensures Untouched(h, Touch(h, m, now).value)
  {
    var h1 := PutValue(h, m, "modified", Number(Finite(now))).value;
    AuditWriteUntouched(h, m, "modified", Number(Finite(now)));
    var count := Member(h1, m, "updateCount").value;
    AuditWriteUntouched(h1, m, "updateCount", Number(Increment(ToNumber(h1, count))));
    UntouchedTrans(h, h1, Touch(h, m, now).value);
  }

  /** The bump at the end of a call writes the audit fields and nothing else. */
  lemma BumpUntouched(h: Heap, dst: Value, now: real)
    requires !IsNullish(dst) && Bump(h, dst, now).Ok?
    ensures Untouched(h, Bump(h, dst, now).value)
  {
    var audit := Member(h, dst, "_audit").value;
    if Truthy(audit) {
      TouchUntouched(h, Member(h, audit, "base").value, now);
    }
  }

  lemma UntouchedPreserves(mode: Mode, h: Heap, h': Heap, dst: Value)
    requires Untouched(h, h')
    ensures Preserves(mode, h, h', dst)
  {
  }

  /** Keys that stay put keep `dst` guarding what it guarded. */
  lemma GuardedStays(mode: Mode, h1: Heap, h2: Heap, dst: Value, k: string)
    requires Preserves(mode, h1, h2, dst) && dst.Ref? && dst.addr < |h1|
    requires Guarded(mode, h1, dst, k) && !IsAuditKey(k)
    ensures Guarded(mode, h2, dst, k)
  {
    assert Kept(mode, h1, dst, dst.addr, k);
    assert SlotOf(h2[dst.addr], k) == SlotOf(h1[dst.addr], k);
  }

  /** A key `dst` guards after writes that touched only audit fields, it guarded before them. */
  lemma GuardedBack(mode: Mode, h: Heap, h': Heap, dst: Value, k: string)
    requires Untouched(h, h') && (dst.Ref? ==> dst.addr < |h|)
    requires Guarded(mode, h', dst, k) && !IsAuditKey(k)
    ensures Guarded(mode, h, dst, k)
  {
    if dst.Ref? {
      assert SlotOf(h'[dst.addr], k) == SlotOf(h[dst.addr], k);
    }
  }

  lemma PreservesTrans(mode: Mode, h1: Heap, h2: Heap, h3: Heap, dst: Value)
    requires Preserves(mode, h1, h2, dst) && Preserves(mode, h2, h3, dst)
    ensures Preserves(mode, h1, h3, dst)
  {
    forall b, k | 0 <= b < |h1| && Kept(mode, h1, dst, b, k)
      ensures SlotOf(h3[b], k) == SlotOf(h1[b], k) && ObjGet(h3[b], k) == ObjGet(h1[b], k)
    {
      if dst.Ref? && b == dst.addr {
        GuardedStays(mode, h1, h2, dst, k);
      }
      assert Kept(mode, h2, dst, b, k);
    }
  }

  /** Writing a key `dst` does not guard keeps every key it does. */
  lemma WritePreserves(mode: Mode, h: Heap, dst: Value, key: string, x: Value)
    requires PutValue(h, dst, key, x).Ok?
    requires IsAuditKey(key) || !Guarded(mode, h, dst, key)
    requires IsArray(h, dst) && key == "length" ==> mode.overwrite
    ensures Preserves(mode, h, PutValue(h, dst, key, x).value, dst)
  {
    var h' := PutValue(h, dst, key, x).value;
    if IsArray(h, dst) && key == "length" {
      PutKeepsOthers(h, dst.addr, key, x);
    } else {
      PutOther(h, dst.addr, key, x);
      forall k | Kept(mode, h, dst, dst.addr, k)
        ensures SlotOf(h'[dst.addr], k) == SlotOf(h[dst.addr], k) && ObjGet(h'[dst.addr], k) == ObjGet(h[dst.addr], k)
      {
        assert k != key;
      }
    }
  }

  /** A copy into an object allocated after `h` leaves the objects of `h` as `Untouched` says. */
  lemma FreshUntouched(mode: Mode, h: Heap, h2: Heap, h3: Heap, into: Value)
    requires |h| <= |h2| && h2[..|h|] == h && into.Ref? && into.addr >= |h|
    requires Preserves(mode, h2, h3, into)
    ensures Untouched(h, h3)
  {
    forall b, k | 0 <= b < |h| && !IsAuditKey(k)
      ensures SlotOf(h3[b], k) == SlotOf(h[b], k) && ObjGet(h3[b], k) == ObjGet(h[b], k)
    {
      assert h2[b] == h[b];
      assert Kept(mode, h2, into, b, k);
    }
    forall b | 0 <= b < |h|
      ensures h3[b].kind == h[b].kind
    {
      assert h2[b] == h[b];
    }
  }

  // -------------------------------------------------------------------------
  // The frame of a whole call
  // -------------------------------------------------------------------------

  /**
   * A call into `dst` — whether it completes or throws — keeps every old
   * object's kind, every key of every other old object, and every key
   * `dst` guards, audit fields aside.
   */
  lemma {:induction false} MergeKeeps(mode: Mode, h: Heap, fr: Frame, dst: Value, srcs: seq<Arg>, now: real, fuel: nat)
    requires !IsNullish(dst) && (dst.Ref? ==> dst.addr < |h|)
    ensures Preserves(mode, h, Merge(mode, h, fr, dst, srcs, now, fuel).heap, dst)
    decreases fuel, 4, 0
  {
    var c := CopySources(mode, h, fr, dst, srcs, 0, now, fuel);
    SourcesKeep(mode, h, fr, dst, srcs, 0, now, fuel);
    if c.result.Ok? && Bump(c.heap, dst, now).Ok? {
      var h' := Bump(c.heap, dst, now).value;
      BumpUntouched(c.heap, dst, now);
      UntouchedPreserves(mode, c.heap, h', dst);
      PreservesTrans(mode, h, c.heap, h', dst);
    }
  }

  lemma {:induction false} SourcesKeep(mode: Mode, h: Heap, fr: Frame, dst: Value, srcs: seq<Arg>, i: nat, now: real,
                                       fuel: nat)
    requires !IsNullish(dst) && (dst.Ref? ==> dst.addr < |h|) && i <= |srcs|
    ensures Preserves(mode, h, CopySources(mode, h, fr, dst, srcs, i, now, fuel).heap, dst)
    decreases fuel, 3, |srcs| - i
  {
    if i < |srcs| {
      var c := CopyFrom(mode, h, fr, dst, srcs[i], now, fuel);
      FromKeeps(mode, h, fr, dst, srcs[i], now, fuel);
      if c.result.Ok? {
        SourcesKeep(mode, c.heap, fr, dst, srcs, i + 1, now, fuel);
        PreservesTrans(mode, h, c.heap, CopySources(mode, c.heap, fr, dst, srcs, i + 1, now, fuel).heap, dst);
      }
    }
  }

  lemma {:induction false} FromKeeps(mode: Mode, h: Heap, fr: Frame, dst: Value, src: Arg, now: real, fuel: nat)
    requires !IsNullish(dst) && (dst.Ref? ==> dst.addr < |h|)
    ensures Preserves(mode, h, CopyFrom(mode, h, fr, dst, src, now, fuel).heap, dst)
    decreases fuel, 2, 0
  {
    if src.Val? && IsObject(src.v) {
      KeysKeep(mode, h, fr, dst, src.v, KeysFor(h, src.v), 0, now, fuel);
    }
  }

  lemma {:induction false} KeysKeep(mode: Mode, h: Heap, fr: Frame, dst: Value, src: Value, ks: seq<string>, j: nat,
                                    now: real, fuel: nat)
    requires !IsNullish(dst) && (dst.Ref? ==> dst.addr < |h|) && j <= |ks|
    ensures Preserves(mode, h, CopyKeys(mode, h, fr, dst, src, ks, j, now, fuel).heap, dst)
    decreases fuel, 1, |ks| - j
  {
    if j < |ks| {
      var c := CopyKey(mode, h, fr, dst, src, ks[j], now, fuel);
      KeyKeeps(mode, h, fr, dst, src, ks[j], now, fuel);
      if c.result.Ok? {
        KeysKeep(mode, c.heap, fr, dst, src, ks, j + 1, now, fuel);
        PreservesTrans(mode, h, c.heap, CopyKeys(mode, c.heap, fr, dst, src, ks, j + 1, now, fuel).heap, dst);
      }
    }
  }

  lemma {:induction false} KeyKeeps(mode: Mode, h: Heap, fr: Frame, dst: Value, src: Value, key: string, now: real,
                                    fuel: nat)
    requires !IsNullish(dst) && (dst.Ref? ==> dst.addr < |h|)
    ensures Preserves(mode, h, CopyKey(mode, h, fr, dst, src, key, now, fuel).heap, dst)
    decreases fuel, 0, 1
  {
    var val := Elem(h, src, key);
    var dstVal := Elem(h, dst, key);
    if Delivered(mode, h, fr, dst, src, key) {
      CopyKeyDelivers(mode, h, fr, dst, src, key, now, fuel);
      DeliverKeeps(mode, h, fr, dst, src, key, val, dstVal, now, fuel);
    } else {
      CopyKeySkips(mode, h, fr, dst, src, key, now, fuel);
    }
  }

  /** The key passes the skips and the filter. */
  predicate Delivered(mode: Mode, h: Heap, fr: Frame, dst: Value, src: Value, key: string)
    requires !IsNullish(dst)
  {
    !(mode.ed == Dist && IsProtoKey(key)) && !(!mode.overwrite && HasOwn(h, dst, key).value)
    && Admits(mode, h, fr, key, Elem(h, src, key), src, Elem(h, dst, key), dst) == Ok(true)
  }

  /** A key that is delivered is one `dst` does not guard. */
  lemma CopyKeyDelivers(mode: Mode, h: Heap, fr: Frame, dst: Value, src: Value, key: string, now: real, fuel: nat)
    requires !IsNullish(dst) && Delivered(mode, h, fr, dst, src, key)
    ensures CopyKey(mode, h, fr, dst, src, key, now, fuel)
            == Deliver(mode, h, fr, dst, src, key, Elem(h, src, key), Elem(h, dst, key), now, fuel)
    ensures !Guarded(mode, h, dst, key) && (IsArray(h, dst) && key == "length" ==> mode.overwrite)
  {
  }

  /** A key that is skipped or refused leaves the heap as it was. */
  lemma CopyKeySkips(mode: Mode, h: Heap, fr: Frame, dst: Value, src: Value, key: string, now: real, fuel: nat)
    requires !IsNullish(dst) && !Delivered(mode, h, fr, dst, src, key)
    ensures CopyKey(mode, h, fr, dst, src, key, now, fuel).heap == h
  {
  }

  lemma {:induction false} DeliverKeeps(mode: Mode, h: Heap, fr: Frame, dst: Value, src: Value, key: string, val: Value,
                                        dstVal: Value, now: real, fuel: nat)
    requires !IsNullish(dst) && (dst.Ref? ==> dst.addr < |h|)
    requires !Guarded(mode, h, dst, key) && (IsArray(h, dst) && key == "length" ==> mode.overwrite)
    ensures Preserves(mode, h, Deliver(mode, h, fr, dst, src, key, val, dstVal, now, fuel).heap, dst)
    decreases fuel, 0, 0
  {
    if mode.deep && DeepCopied(h, val) && fuel > 0 {
      DeepCopyKeeps(mode, h, fr, src, key, val, dstVal, now, fuel - 1);
      DeepDeliverKeeps(mode, h, fr, dst, src, key, val, dstVal, now, fuel);
    } else if !(mode.deep && DeepCopied(h, val)) && PutValue(h, dst, key, val).Ok? {
      WritePreserves(mode, h, dst, key, val);
    }
  }

  /** The deep branch of `Deliver`, given what the nested copy kept. */
  lemma DeepDeliverKeeps(mode: Mode, h: Heap, fr: Frame, dst: Value, src: Value, key: string, val: Value,
                         dstVal: Value, now: real, fuel: nat)
    requires !IsNullish(dst) && (dst.Ref? ==> dst.addr < |h|)
    requires !Guarded(mode, h, dst, key) && (IsArray(h, dst) && key == "length" ==> mode.overwrite)
    requires mode.deep && DeepCopied(h, val) && fuel > 0
    requires Untouched(h, DeepCopy(mode, h, fr, src, key, val, dstVal, now, fuel - 1).heap)
    ensures Preserves(mode, h, Deliver(mode, h, fr, dst, src, key, val, dstVal, now, fuel).heap, dst)
  {
    var m := DeepCopy(mode, h, fr, src, key, val, dstVal, now, fuel - 1);
    UntouchedPreserves(mode, h, m.heap, dst);
    if m.result.Ok? && PutValue(m.heap, dst, key, m.result.value).Ok? {
      WriteAfterCopy(mode, h, m.heap, dst, key, m.result.value);
    }
  }

  /** The write that ends a deep copy still keeps what `dst` guarded before the nested call. */
  lemma WriteAfterCopy(mode: Mode, h: Heap, h2: Heap, dst: Value, key: string, x: Value)
    requires Untouched(h, h2) && (dst.Ref? ==> dst.addr < |h|)
    requires !Guarded(mode, h, dst, key) && (IsArray(h, dst) && key == "length" ==> mode.overwrite)
    requires PutValue(h2, dst, key, x).Ok?
    ensures Preserves(mode, h, PutValue(h2, dst, key, x).value, dst)
  {
    UntouchedPreserves(mode, h, h2, dst);
    if !IsAuditKey(key) && Guarded(mode, h2, dst, key) {
      GuardedBack(mode, h, h2, dst, key);
    }
    assert IsArray(h2, dst) == IsArray(h, dst);
    WritePreserves(mode, h2, dst, key, x);
    PreservesTrans(mode, h, h2, PutValue(h2, dst, key, x).value, dst);
  }

  /** A deep copy writes only into the containers it allocates, and into audit fields. */
  lemma {:induction false} DeepCopyKeeps(mode: Mode, h: Heap, fr: Frame, src: Value, key: string, val: Value,
                                         dstVal: Value, now: real, fuel: nat)
    ensures Untouched(h, DeepCopy(mode, h, fr, src, key, val, dstVal, now, fuel).heap)
    decreases fuel, 5, 0
  {
    var (h1, base) := if Truthy(dstVal) then (h, dstVal) else NewContainer(h, val);
    var (h2, into) := NewContainer(h1, val);
    var nested := Frame(fr.depth + 1, Str(key), src);
    MergeKeeps(Nested(mode), h2, nested, into, [Val(base), Val(val)], now, fuel);
    assert h2[..|h|] == h;
    FreshUntouched(Nested(mode), h, h2, Merge(Nested(mode), h2, nested, into, [Val(base), Val(val)], now, fuel).heap, into);
  }
}

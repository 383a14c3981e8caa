/**
 * What the property primitives of `JsCore` do to the heap: a successful
 * write stores its value under its key and leaves every other key alone,
 * a hidden definition leaves the visible keys alone, and a frozen object
 * survives every primitive unchanged.
 */
module HeapFacts {
  import opened JsCore

  /** The own slot for `key`, if any. */
  function SlotOf(o: Obj, key: string): Option<Slot>
  {
    if key in o.slots then Some(o.slots[key]) else None
  }

  /** `Object.isFrozen`: no new properties, and every property read-only and fixed. */
  predicate Frozen(o: Obj)
  {
    !o.extensible && !o.lengthWritable
    && forall k :: k in o.slots ==> !o.slots[k].writable && !o.slots[k].configurable
  }

  /** A write of `key` into `o` that `PutObj` accepts: the object takes new keys and the slot is writable. */
  predicate Writable(o: Obj, key: string)
  {
    o.extensible && (o.kind.PlainObject? || o.kind.ArrayObject?) && key != "length"
    && (key in o.slots ==> o.slots[key].writable)
    && (o.kind.ArrayObject? && IsIndexAtLeast(key, o.length) ==> o.lengthWritable)
  }

  /** An array `push` accepts. */
  predicate Appendable(o: Obj)
  {
    o.kind.ArrayObject? && o.extensible && o.lengthWritable
    && (NatToString(o.length) in o.slots ==> o.slots[NatToString(o.length)].writable)
  }

  lemma {:induction false} NatToStringIsIndex(n: nat)
    ensures IsIndexKey(NatToString(n))
    ensures n > 0 ==> NatToString(n)[0] != '0'
  {
    if n >= 10 {
      NatToStringIsIndex(n / 10);
    }
  }

  /** An index key is never one of the named keys the accessors use. */
  lemma IndexKeyIsNotNamed(n: nat)
    ensures NatToString(n) != "length" && NatToString(n) != "_audit" && NatToString(n) != ""
  {
    var s := NatToString(n);
    assert IsDigit(s[0]);
  }

  /** A write to a writable key succeeds, stores the value and leaves the other keys alone. */
  lemma PutStores(h: Heap, a: Addr, key: string, x: Value)
    requires a < |h| && Writable(h[a], key)
    ensures Put(h, a, key, x).Ok?
    ensures var h' := Put(h, a, key, x).value;
            |h'| == |h| && h'[a].kind == h[a].kind && h'[a].extensible == h[a].extensible
            && ObjGet(h'[a], key) == x
            && (forall k :: k != key && k != "length" ==> ObjGet(h'[a], k) == ObjGet(h[a], k))
            && (forall k :: k != key ==> SlotOf(h'[a], k) == SlotOf(h[a], k))
  {
    var o := h[a];
    if key in o.slots {
      assert PutObj(h, o, key, x) == Ok(o.(slots := o.slots[key := o.slots[key].(value := x)]));
    } else if o.kind.ArrayObject? && IsIndexAtLeast(key, o.length) {
      assert PutObj(h, o, key, x) == Ok(AddSlot(o, key, x).(length := DigitsValue(key) + 1));
    } else {
      assert PutObj(h, o, key, x) == Ok(AddSlot(o, key, x));
    }
  }

  /** A successful write leaves every key other than the one written (and `length`) alone. */
  lemma PutKeepsOthers(h: Heap, a: Addr, key: string, x: Value)
    requires Put(h, a, key, x).Ok?
    ensures var h' := Put(h, a, key, x).value;
            h'[a].kind == h[a].kind && h'[a].extensible == h[a].extensible
            && (forall k :: k != key && k != "length" && !IsIndexKey(k) ==> ObjGet(h'[a], k) == ObjGet(h[a], k))
            && (forall k :: k != key && !IsIndexKey(k) ==> SlotOf(h'[a], k) == SlotOf(h[a], k))
  {
    PutObjKeepsOthers(h, h[a], key, x);
  }

  /** The object-level half of `PutKeepsOthers`. */
  lemma PutObjKeepsOthers(h: Heap, o: Obj, key: string, x: Value)
    requires PutObj(h, o, key, x).Ok?
    ensures var o' := PutObj(h, o, key, x).value;
            o'.kind == o.kind && o'.extensible == o.extensible
            && (forall k :: k != key && k != "length" && !IsIndexKey(k) ==> ObjGet(o', k) == ObjGet(o, k))
            && (forall k :: k != key && !IsIndexKey(k) ==> SlotOf(o', k) == SlotOf(o, k))
  {
    var o' := PutObj(h, o, key, x).value;
    PutObjSlots(h, o, key, x);
    forall k | k != key && k != "length" && !IsIndexKey(k)
      ensures ObjGet(o', k) == ObjGet(o, k)
    {
      NamedKeyRead(o, o', k);
    }
  }

  /** A write changes no slot but that of its key, and index slots when it sets an array's `length`. */
  lemma PutObjSlots(h: Heap, o: Obj, key: string, x: Value)
    requires PutObj(h, o, key, x).Ok?
    ensures var o' := PutObj(h, o, key, x).value;
            forall k :: k != key && !IsIndexKey(k) ==> SlotOf(o', k) == SlotOf(o, k)
  {
    var o' := PutObj(h, o, key, x).value;
    if o.kind.ArrayObject? && key == "length" {
      var n := ArrayLengthOf(h, x).value;
      assert o'.slots == map k | k in o.slots && !IsIndexAtLeast(k, n) :: o.slots[k];
    } else if key in o.slots {
      assert o'.slots == o.slots[key := o.slots[key].(value := x)];
    } else {
      assert o'.slots == o.slots[key := Slot(x, true, true, true)];
    }
  }

  /** A key that is neither `length` nor an index reads the same from two objects of one kind that agree on its slot. */
  lemma NamedKeyRead(o: Obj, o': Obj, k: string)
    requires o'.kind == o.kind && k != "length" && !IsIndexKey(k) && SlotOf(o', k) == SlotOf(o, k)
    ensures ObjGet(o', k) == ObjGet(o, k)
  {
  }

  /** A key is listed by `EnumerableOrder` exactly when it is in the order given, enumerable, and of the asked sort. */
  lemma {:induction false} EnumerableOrderHas(o: Obj, order: seq<string>, indices: bool, k: string)
    ensures k in EnumerableOrder(o, order, indices)
            <==> k in order && k in o.slots && o.slots[k].enumerable && IsIndexKey(k) == indices
  {
    if order != [] {
      EnumerableOrderHas(o, order[1..], indices, k);
      assert order == [order[0]] + order[1..];
    }
  }

  /** Inserting an index key adds exactly that key. */
  lemma {:induction false} InsertIndexHas(x: string, sorted: seq<string>, k: string)
    requires IsIndexKey(x) && forall i :: 0 <= i < |sorted| ==> IsIndexKey(sorted[i])
    ensures k in InsertIndex(x, sorted) <==> k == x || k in sorted
    decreases |sorted|
  {
    if sorted != [] && DigitsValue(x) > DigitsValue(sorted[0]) {
      InsertIndexHas(x, sorted[1..], k);
      assert sorted == [sorted[0]] + sorted[1..];
    }
  }

  /** Sorting index keys keeps the same keys. */
  lemma {:induction false} SortIndexKeysHas(keys: seq<string>, k: string)
    requires forall i :: 0 <= i < |keys| ==> IsIndexKey(keys[i])
    ensures k in SortIndexKeys(keys) <==> k in keys
  {
    if keys != [] {
      SortIndexKeysHas(keys[1..], k);
      InsertIndexHas(keys[0], SortIndexKeys(keys[1..]), k);
      assert keys == [keys[0]] + keys[1..];
    }
  }

  /**
   * `Object.keys` lists a key exactly when it is an index of a boxed
   * string's text, or in the creation order with an enumerable slot.
   */
  lemma OwnKeysHas(h: Heap, a: Addr, k: string)
    ensures k in OwnKeys(h, a)
            <==> a < |h| && ((h[a].kind.BoxedString? && k in IndexKeysBelow(|h[a].kind.text|))
                             || (k in h[a].order && k in h[a].slots && h[a].slots[k].enumerable))
  {
    if a < |h| {
      var o := h[a];
      EnumerableOrderHas(o, o.order, true, k);
      EnumerableOrderHas(o, o.order, false, k);
      SortIndexKeysHas(EnumerableOrder(o, o.order, true), k);
    }
  }

  /** `push` on an appendable array succeeds and stores the value at the old length. */
  lemma PushStores(h: Heap, a: Addr, x: Value)
    requires a < |h| && Appendable(h[a])
    ensures Push(h, a, x).Ok?
    ensures var (h', n) := Push(h, a, x).value;
            n == h[a].length && |h'| == |h| && h'[a].kind == h[a].kind && h'[a].extensible
            && ObjGet(h'[a], NatToString(n)) == x
            && (forall k :: k != NatToString(n) && k != "length" ==> ObjGet(h'[a], k) == ObjGet(h[a], k))
            && (forall k :: k != NatToString(n) ==> SlotOf(h'[a], k) == SlotOf(h[a], k))
  {
    IndexKeyIsNotNamed(h[a].length);
  }

  /** A hidden definition leaves every other key of the object alone. */
  lemma DefineHiddenKeepsOthers(h: Heap, v: Value, key: string, x: Value, rw: bool)
    requires DefineHidden(h, v, key, x, rw).Ok?
    ensures var h' := DefineHidden(h, v, key, x, rw).value;
            h'[v.addr].kind == h[v.addr].kind && h'[v.addr].extensible == h[v.addr].extensible
            && h'[v.addr].length == h[v.addr].length
            && (forall k :: k != key ==> ObjGet(h'[v.addr], k) == ObjGet(h[v.addr], k))
            && (forall k :: k != key ==> SlotOf(h'[v.addr], k) == SlotOf(h[v.addr], k))
  {
  }

  // -------------------------------------------------------------------------
  // Frozen objects
  // -------------------------------------------------------------------------

  /** `h'` extends `h` and holds every frozen object of `h` unchanged. */
  predicate KeepsFrozen(h: Heap, h': Heap)
  {
    |h'| >= |h| && forall b :: 0 <= b < |h| && Frozen(h[b]) ==> h'[b] == h[b]
  }

  lemma KeepsFrozenTransitive(h1: Heap, h2: Heap, h3: Heap)
    requires KeepsFrozen(h1, h2) && KeepsFrozen(h2, h3)
    ensures KeepsFrozen(h1, h3)
  {
    forall b | 0 <= b < |h1| && Frozen(h1[b]) ensures h3[b] == h1[b] {
      assert h2[b] == h1[b];
    }
  }

  lemma AllocKeepsFrozen(h: Heap, o: Obj)
    ensures KeepsFrozen(h, Alloc(h, o).0)
  {
  }

  lemma PutKeepsFrozen(h: Heap, v: Value, key: string, x: Value)
    ensures PutValue(h, v, key, x).Ok? ==> KeepsFrozen(h, PutValue(h, v, key, x).value)
  {
  }

  lemma DeleteKeepsFrozen(h: Heap, v: Value, key: string)
    ensures DeleteValue(h, v, key).Ok? ==> KeepsFrozen(h, DeleteValue(h, v, key).value)
  {
  }

  lemma DefineHiddenKeepsFrozen(h: Heap, v: Value, key: string, x: Value, rw: bool)
    ensures DefineHidden(h, v, key, x, rw).Ok? ==> KeepsFrozen(h, DefineHidden(h, v, key, x, rw).value)
  {
  }

  lemma PushKeepsFrozen(h: Heap, a: Addr, x: Value)
    requires a < |h| && h[a].kind.ArrayObject?
    ensures Push(h, a, x).Ok? ==> KeepsFrozen(h, Push(h, a, x).value.0)
  {
  }
}

/**
 * `empty(obj)` (the same code in dist/utils.js and lib/utils.js): deletes
 * every own enumerable key except `_meta` and `_audit`, one after the
 * other, and then, if the object carries `_meta` or `_audit`, stamps its
 * `base` audit record (creating `_audit` first when it is missing).
 */
module EmptyStore {
  import opened JsCore
  import opened PropSpec
  import opened PropStore
  import opened HeapFacts
  import opened PropAudit

  /** The keys `empty` leaves in place. */
  predicate Kept(k: string) { k == "_meta" || k == "_audit" }

  /** The delete loop from `keys` on: strict-mode `delete obj[k]` for every key not kept, stopping at the first throw. */
  function DeleteKeys(st: State, obj: Value, keys: seq<string>): (r: Run<()>)
    ensures r.state.uidCounter == st.uidCounter && |r.state.heap| == |st.heap|
    decreases |keys|
  {
    if keys == [] then Run(st, Ok(()))
    else if Kept(keys[0]) then DeleteKeys(st, obj, keys[1..])
    else
      match DeleteValue(st.heap, obj, keys[0])
      case Throws(e) => Run(st, Throws(e))
      case Ok(h') =>
        assert |h'| == |st.heap| by {
          if obj.Ref? { assert h' == Delete(st.heap, obj.addr, keys[0]).value; }
        }
        DeleteKeys(State(h', st.uidCounter), obj, keys[1..])
  }

  /**
   * The stamping after the loop. The source reads `obj._audit.base`
   * without checking `_audit` first, so a missing `_audit` throws here.
   */
  function EmptyAudit(ed: Edition, st: State, obj: Value, now: real): Run<()>
  {
    match HasOwn(st.heap, obj, "_audit")
    case Throws(e) => Run(st, Throws(e))
    case Ok(has) =>
      var init := if has then Run(st, Ok(())) else InitAudit(ed, st, obj, now);
      if init.result.Throws? then init
      else TouchRecord(Lib, init.state, obj, now, "base")
  }

  /** `empty(obj)` with the clock reading `now`. */
  function Empty(ed: Edition, st: State, obj: Value, now: real): Run<()>
  {
    match KeysOf(st.heap, obj)
    case Throws(e) => Run(st, Throws(e))
    case Ok(keys) =>
      var d := DeleteKeys(st, obj, keys);
      if d.result.Throws? then d
      else
        var h := d.state.heap;
        if Truthy(Member(h, obj, "_meta").value) || Truthy(Member(h, obj, "_audit").value) then
          EmptyAudit(ed, d.state, obj, now)
        else d
  }

  /** The delete loop of `empty` run against `store`, in place. */
  method DeleteKeysInPlace(store: Store, obj: Value, keys: seq<string>) returns (r: Result<()>)
    modifies store
    ensures Run(store.Snapshot(), r) == DeleteKeys(old(store.Snapshot()), obj, keys)
  {
    ghost var d := DeleteKeys(store.Snapshot(), obj, keys);
    var i := 0;
    while i < |keys|
      invariant 0 <= i <= |keys|
      invariant DeleteKeys(store.Snapshot(), obj, keys[i..]) == d
    {
      assert keys[i..][1..] == keys[i + 1..];
      var k := keys[i];
      if !Kept(k) {
        var del := DeleteValue(store.heap, obj, k);
        if del.Throws? {
          return Throws(del.error);
        }
        store.heap := del.value;
      }
      i := i + 1;
    }
    assert keys[i..] == [];
    return Ok(());
  }

  /** `empty(obj)` run against `store`. */
  method EmptyInPlace(store: Store, ed: Edition, obj: Value, now: real) returns (r: Result<()>)
    modifies store
    ensures Run(store.Snapshot(), r) == Empty(ed, old(store.Snapshot()), obj, now)
  {
    var keys := KeysOf(store.heap, obj);
    if keys.Throws? {
      return Throws(keys.error);
    }
    r := DeleteKeysInPlace(store, obj, keys.value);
    if r.Throws? {
      return;
    }
    var h := store.heap;
    if Truthy(Member(h, obj, "_meta").value) || Truthy(Member(h, obj, "_audit").value) {
      var a := EmptyAudit(ed, store.Snapshot(), obj, now);
      store.heap, store.uidCounter := a.state.heap, a.state.uidCounter;
      r := a.result;
    }
  }

  // -------------------------------------------------------------------------
  // What empty does
  // -------------------------------------------------------------------------

  /** What a finished delete loop on the object at `a` did. */
  ghost predicate Deleted(h: Heap, h': Heap, a: Addr, keys: seq<string>)
    requires a < |h| && |h'| == |h|
  {
    (forall k :: k in keys && !Kept(k) ==> k !in h'[a].slots)
    && (forall k :: (k !in keys || Kept(k)) ==> SlotOf(h'[a], k) == SlotOf(h[a], k))
    && h'[a].kind == h[a].kind && h'[a].length == h[a].length && h'[a].extensible == h[a].extensible
    && (forall b :: 0 <= b < |h| && b != a ==> h'[b] == h[b])
  }

  /** A delete loop that finishes removes every key it visits except the kept ones, and nothing else. */
  lemma {:induction false} DeleteKeysRemoves(st: State, a: Addr, keys: seq<string>)
    requires a < |st.heap|
    ensures var d := DeleteKeys(st, Ref(a), keys);
            d.result.Ok? ==> Deleted(st.heap, d.state.heap, a, keys)
    decreases |keys|
  {
    var h := st.heap;
    if keys != [] {
      var rest := keys[1..];
      if Kept(keys[0]) {
        DeleteKeysRemoves(st, a, rest);
      } else if Delete(h, a, keys[0]).Ok? {
        var h' := Delete(h, a, keys[0]).value;
        DeleteKeysRemoves(State(h', st.uidCounter), a, rest);
        DeleteOne(h, a, keys[0]);
      }
    }
  }

  /** One successful delete removes its key and keeps the other slots, the kind, the length and the other objects. */
  lemma DeleteOne(h: Heap, a: Addr, key: string)
    requires Delete(h, a, key).Ok?
    ensures var h' := Delete(h, a, key).value;
            key !in h'[a].slots && h'[a].kind == h[a].kind && h'[a].length == h[a].length
            && h'[a].extensible == h[a].extensible && (forall b :: 0 <= b < |h| && b != a ==> h'[b] == h[b])
            && forall k :: k != key ==> SlotOf(h'[a], k) == SlotOf(h[a], k)
  {
  }

  /** Reading a key that is not an own slot of an object without string or length keys of its own yields undefined. */
  lemma AbsentReadsUndefined(o: Obj, k: string)
    requires k !in o.slots && !o.kind.BoxedString? && !(o.kind.ArrayObject? && k == "length")
    ensures ObjGet(o, k) == Undefined
  {
  }

  /** `_meta` and `_audit` are never built-in keys, so reading them reads their slots. */
  lemma MarkerRead(o: Obj)
    ensures ObjGet(o, "_meta") == SlotValue(o, "_meta") && ObjGet(o, "_audit") == SlotValue(o, "_audit")
  {
  }

  /**
   * On an object with neither a truthy `_meta` nor a truthy `_audit`,
   * `empty` is the delete loop alone: no audit record is created or
   * stamped, and the counter is untouched.
   */
  lemma EmptyWithoutMarkers(ed: Edition, st: State, a: Addr, now: real)
    requires a < |st.heap|
    requires !Truthy(SlotValue(st.heap[a], "_meta")) && !Truthy(SlotValue(st.heap[a], "_audit"))
    ensures var keys := OwnKeys(st.heap, a);
            Empty(ed, st, Ref(a), now) == DeleteKeys(st, Ref(a), keys)
  {
    var keys := OwnKeys(st.heap, a);
    var d := DeleteKeys(st, Ref(a), keys);
    DeleteKeysRemoves(st, a, keys);
    if d.result.Ok? {
      MarkerRead(d.state.heap[a]);
      MarkerRead(st.heap[a]);
      assert SlotOf(d.state.heap[a], "_meta") == SlotOf(st.heap[a], "_meta");
      assert SlotOf(d.state.heap[a], "_audit") == SlotOf(st.heap[a], "_audit");
    }
  }

  /** The visited keys of a plain object or array read undefined after a finished loop. */
  lemma DeletedReadUndefined(h: Heap, h': Heap, a: Addr, keys: seq<string>)
    requires a < |h| && |h'| == |h| && Deleted(h, h', a, keys)
    requires h[a].kind.PlainObject? || h[a].kind.ArrayObject?
    ensures forall k :: k in keys && !Kept(k) && k != "length" ==> ObjGet(h'[a], k) == Undefined
  {
  }

  /** After a finished loop, `empty` stamps exactly when `_meta` or `_audit` of the object is truthy. */
  lemma EmptyAfterLoop(ed: Edition, st: State, a: Addr, now: real)
    requires a < |st.heap|
    ensures var d := DeleteKeys(st, Ref(a), OwnKeys(st.heap, a));
            d.result.Ok? ==>
              Empty(ed, st, Ref(a), now)
              == if Truthy(SlotValue(st.heap[a], "_meta")) || Truthy(SlotValue(st.heap[a], "_audit"))
                 then EmptyAudit(ed, d.state, Ref(a), now) else d
  {
    var keys := OwnKeys(st.heap, a);
    var d := DeleteKeys(st, Ref(a), keys);
    DeleteKeysRemoves(st, a, keys);
    if d.result.Ok? {
      MarkerRead(d.state.heap[a]);
      MarkerRead(st.heap[a]);
      assert SlotOf(d.state.heap[a], "_meta") == SlotOf(st.heap[a], "_meta");
      assert SlotOf(d.state.heap[a], "_audit") == SlotOf(st.heap[a], "_audit");
    }
  }

  /** What stamping the existing record `t` leaves behind: `modified` is the clock and `updateCount` one more than `n`. */
  predicate Bumped(r: Run<()>, counter: nat, t: Addr, n: Num, now: real)
  {
    r.result.Ok? && r.state.uidCounter == counter
    && Lookup(r.state.heap, t, "updateCount") == Number(Increment(n))
    && Lookup(r.state.heap, t, "modified") == Number(Finite(now))
  }

  /** With `_audit` present, the stamping is the audit of the `base` record, and leaves the object itself alone. */
  lemma EmptyAuditExisting(ed: Edition, H: Heap, counter: nat, a: Addr, now: real, t: Addr, n: Num)
    requires a < |H| && AuditTarget(H, a, "base") == Some(t) && t < |H| && t != a
    requires Writable(H[t], "modified") && Writable(H[t], "updateCount") && ObjGet(H[t], "updateCount") == Number(n)
    ensures var r := EmptyAudit(ed, State(H, counter), Ref(a), now);
            Bumped(r, counter, t, n, now) && a < |r.state.heap| && r.state.heap[a] == H[a]
  {
    assert EmptyAudit(ed, State(H, counter), Ref(a), now) == Audit(Lib, false, State(H, counter), Ref(a), now, "base");
    AuditBumpsExisting(Lib, false, H, counter, Ref(a), now, "base", t, n);
    AuditKeeps(Lib, false, H, counter, Ref(a), now, "base");
  }

  /**
   * What stamping a `base` record that did not exist leaves behind: `_audit`
   * of the object at `a` is the holder at `|H| + 2`, whose `base` is the
   * record at `|H|`, which counts one update made at `now`.
   */
  predicate FreshBaseStamped(r: Run<()>, H: Heap, a: Addr, now: real)
  {
    r.result.Ok?
    && Lookup(r.state.heap, a, "_audit") == Ref(|H| + 2)
    && Lookup(r.state.heap, |H| + 2, "base") == Ref(|H|)
    && Lookup(r.state.heap, |H|, "updateCount") == Number(Finite(1.0))
    && Lookup(r.state.heap, |H|, "modified") == Number(Finite(now))
  }

  /** Without `_audit`, the stamping creates the records and stamps the new `base` record once. */
  lemma EmptyAuditFresh(ed: Edition, H: Heap, counter: nat, a: Addr, now: real)
    requires a < |H| && "_audit" !in H[a].slots && H[a].extensible
    requires H[a].kind.PlainObject? || H[a].kind.ArrayObject?
    ensures FreshBaseStamped(EmptyAudit(ed, State(H, counter), Ref(a), now), H, a, now)
  {
    InitAuditCreates(ed, H, counter, Ref(a), now);
    var init := InitAudit(ed, State(H, counter), Ref(a), now);
    assert init.state.uidCounter == counter;
    TouchFreshRecord(Lib, H, init.state.heap, counter, a, now, "base");
  }

  /** `_audit` of the object at `a` holds `base` record `t`, both apart from the object itself. */
  predicate BaseRecordApart(h: Heap, a: Addr, holder: Addr, t: Addr)
    requires a < |h|
  {
    holder < |h| && t < |h| && holder != a && t != a
    && SlotOf(h[a], "_audit").Some? && SlotOf(h[a], "_audit").value.value == Ref(holder)
    && ObjGet(h[holder], "base") == Ref(t)
  }

  /**
   * On an object that has `_audit` with a `base` record that counts in a
   * number and takes both keys, a finished `empty` stamps that record:
   * `modified` is the clock and `updateCount` goes up by exactly one; and
   * every own enumerable key but the kept ones reads undefined.
   */
  lemma EmptyBumpsBase(ed: Edition, st: State, a: Addr, now: real, holder: Addr, t: Addr, n: Num)
    requires a < |st.heap| && BaseRecordApart(st.heap, a, holder, t)
    requires st.heap[a].kind.PlainObject? || st.heap[a].kind.ArrayObject?
    requires Writable(st.heap[t], "modified") && Writable(st.heap[t], "updateCount")
    requires ObjGet(st.heap[t], "updateCount") == Number(n)
    ensures var r := Empty(ed, st, Ref(a), now);
            var keys := OwnKeys(st.heap, a);
            DeleteKeys(st, Ref(a), keys).result.Ok? ==>
              Bumped(r, st.uidCounter, t, n, now)
              && forall k :: k in keys && !Kept(k) && k != "length" ==> Lookup(r.state.heap, a, k) == Undefined
  {
    var keys := OwnKeys(st.heap, a);
    var d := DeleteKeys(st, Ref(a), keys);
    DeleteKeysRemoves(st, a, keys);
    EmptyAfterLoop(ed, st, a, now);
    if d.result.Ok? {
      var D := d.state.heap;
      DeletedReadUndefined(st.heap, D, a, keys);
      assert SlotOf(D[a], "_audit") == SlotOf(st.heap[a], "_audit");
      assert D[holder] == st.heap[holder] && D[t] == st.heap[t];
      assert AuditTarget(D, a, "base") == Some(t);
      assert d.state == State(D, st.uidCounter);
      EmptyAuditExisting(ed, D, st.uidCounter, a, now, t, n);
    }
  }

  /**
   * On an extensible plain object or array with a truthy `_meta` but no
   * `_audit`, a finished `empty` creates `_audit` and its `base` record,
   * which then counts one update made at `now`.
   */
  lemma EmptyCreatesAudit(ed: Edition, st: State, a: Addr, now: real)
    requires a < |st.heap| && "_audit" !in st.heap[a].slots && st.heap[a].extensible
    requires st.heap[a].kind.PlainObject? || st.heap[a].kind.ArrayObject?
    requires Truthy(SlotValue(st.heap[a], "_meta"))
    ensures var d := DeleteKeys(st, Ref(a), OwnKeys(st.heap, a));
            d.result.Ok? ==> FreshBaseStamped(Empty(ed, st, Ref(a), now), d.state.heap, a, now)
  {
    var keys := OwnKeys(st.heap, a);
    var d := DeleteKeys(st, Ref(a), keys);
    DeleteKeysRemoves(st, a, keys);
    EmptyAfterLoop(ed, st, a, now);
    if d.result.Ok? {
      var D := d.state.heap;
      assert SlotOf(D[a], "_audit") == SlotOf(st.heap[a], "_audit");
      assert d.state == State(D, st.uidCounter);
      EmptyAuditFresh(ed, D, st.uidCounter, a, now);
    }
  }
}

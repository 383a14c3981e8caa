/**
 * Two places where `prop` does not do what its surroundings evidently
 * intend. For each, a lemma exhibits the behaviour as written on a
 * concrete object, and a corrected definition carries the intended
 * property.
 */
module PropFindings {
  import opened JsCore
  import opened PathSyntax
  import opened PropSpec
  import opened HeapFacts
  import opened PropReads
  import opened PropAudit
  import opened PropMeta

  // -------------------------------------------------------------------------
  // A single-segment remove clears the key "undefined"
  // -------------------------------------------------------------------------

  /** `{a: 1}` */
  function OneKeyObject(): Obj
  {
    ObjectLiteral([("a", Number(Finite(1.0)))])
  }

  /**
   * As written: `remove(obj, 'a')` on `{a: 1}` yields 1, but `a` is still 1
   * afterwards; what was written is a new property named "undefined".
   */
  lemma SingleRemoveMissesKey(ed: Edition)
    ensures var r := Prop(ed, Remove, Plain, State([OneKeyObject()], 1), Ref(0), Str("a"), Undefined, 0.0);
            r.result == Ok(Number(Finite(1.0)))
            && Lookup(r.state.heap, 0, "a") == Number(Finite(1.0))
            && "undefined" in r.state.heap[0].slots
  {
    var o := OneKeyObject();
    assert o == AddSlot(EmptyObject, "a", Number(Finite(1.0)));
    assert !IsCompound("a") by { assert "a"[0] == 'a'; }
    var r := Prop(ed, Remove, Plain, State([o], 1), Ref(0), Str("a"), Undefined, 0.0);
    assert r.state.heap == Put([o], 0, "undefined", Undefined).value;
    PutKeepsOthers([o], 0, "undefined", Undefined);
  }

  /** Corrected: the single-segment `remove` clears the key it read. */
  function IntendedSingleRemove(ed: Edition, h: Heap, context: Value, key: string, force: Value): (r: StepResult)
    ensures r.Stop? && |r.heap| == |h|
  {
    SingleKey(ed, Remove, h, context, key, force, key)
  }

  /**
   * The corrected `remove` on a key the object lets it clear yields the
   * value the key held, leaves the key reading undefined (deleted exactly
   * when the flag is `true`), and keeps every other named key and every
   * other object as it was.
   */
  lemma IntendedSingleRemoveClears(ed: Edition, h: Heap, a: Addr, key: string, force: Value)
    requires a < |h| && Writable(h[a], key) && (key in h[a].slots ==> h[a].slots[key].configurable)
    ensures var r := IntendedSingleRemove(ed, h, Ref(a), key, force);
            r.result == Ok(ObjGet(h[a], key))
            && (forall b :: 0 <= b < |h| && b != a ==> r.heap[b] == h[b])
            && ObjGet(r.heap[a], key) == Undefined
            && (StrictEquals(force, Bool(true)) <==> key !in r.heap[a].slots)
            && (forall k :: k != key && k != "length" && !IsIndexKey(k) ==> ObjGet(r.heap[a], k) == ObjGet(h[a], k))
  {
    var p := ObjGet(h[a], key);
    SingleRemove(ed, h, Ref(a), key, force, key);
    ClearEffect(ed, h, a, key, force, p);
    if !StrictEquals(force, Bool(true)) {
      PutStores(h, a, key, Undefined);
    }
  }

  // -------------------------------------------------------------------------
  // A compound meta `set` stamps `_audit.meta`, which `initAudit` never creates
  // -------------------------------------------------------------------------

  /**
   * As written, the audit of a meta command on an object whose `_audit`
   * was just created throws: the record `meta` does not exist (it is
   * named `_meta`). The write itself has already happened.
   */
  lemma MetaAuditThrows(ed: Edition, H: Heap, counter: nat, node: Value, now: real)
    requires node.Ref? && node.addr < |H| && "_audit" !in H[node.addr].slots && H[node.addr].extensible
    requires H[node.addr].kind.PlainObject? || H[node.addr].kind.ArrayObject?
    ensures Audit(ed, true, State(H, counter), node, now, AuditRecordKey(true)).result.Throws?
  {
    AuditInitialises(ed, true, H, counter, node, now, AuditRecordKey(true));
  }

  /** Corrected: the meta commands stamp the record `initAudit` names `_meta`. */
  function IntendedAuditRecordKey(isMeta: bool): (r: string)
    ensures r == "_meta" <==> isMeta
    ensures r == "base" <==> !isMeta
  {
    if isMeta then "_meta" else "base"
  }

  /**
   * With the corrected key, the audit of a meta command on an object
   * without `_audit` succeeds and stamps the `_meta` record: one update,
   * modified now.
   */
  lemma IntendedMetaAuditStamps(ed: Edition, H: Heap, counter: nat, node: Value, now: real)
    requires node.Ref? && node.addr < |H| && "_audit" !in H[node.addr].slots && H[node.addr].extensible
    requires H[node.addr].kind.PlainObject? || H[node.addr].kind.ArrayObject?
    ensures var a := Audit(ed, true, State(H, counter), node, now, IntendedAuditRecordKey(true));
            a.result.Ok?
            && Lookup(a.state.heap, node.addr, "_audit") == Ref(|H| + 2)
            && Lookup(a.state.heap, |H| + 2, "_meta") == Ref(|H| + 1)
            && Lookup(a.state.heap, |H| + 1, "updateCount") == Number(Finite(1.0))
            && Lookup(a.state.heap, |H| + 1, "modified") == Number(Finite(now))
  {
    AuditInitialises(ed, true, H, counter, node, now, IntendedAuditRecordKey(true));
  }

  /** A meta record is a plain extensible object holding `_UID` and `_aliases` only. */
  lemma MetaRecordShape(uid: string, aliases: Addr)
    ensures var o := MetaRecord(uid, aliases);
            o.kind.PlainObject? && o.extensible && o.slots.Keys == {"_UID", "_aliases"}
  {
    var e := [("_UID", Str(uid)), ("_aliases", Ref(aliases))];
    assert e[..1] == [("_UID", Str(uid))];
    assert ObjectLiteral(e[..1]) == AddSlot(EmptyObject, "_UID", Str(uid));
  }

  /** A call on a compound path, once its context is set up and accepted, is the walk and its finish. */
  lemma CompoundCall(ed: Edition, op: Op, scope: Scope, st: State, node: Value, path: Value, extra: Value, now: real)
    requires !(ed == Lib && !IsObject(node))
    requires var setup := Context(ed, scope, st, node);
             setup.result.Ok? && !RefusesContext(ed, setup.state.heap, setup.result.value)
             && ToString(setup.state.heap, path) != "" && IsCompound(ToString(setup.state.heap, path))
    ensures var setup := Context(ed, scope, st, node);
            var h := setup.state.heap;
            Prop(ed, op, scope, st, node, path, extra, now)
            == Finish(ed, op, scope, setup.state.uidCounter, node, extra, now,
                      Walk(ed, op, Tokenize(ToString(h, path)), 0, extra, Cursor(h, setup.result.value, Undefined, ScopePrefix(scope))))
  {
  }

  /** Two keys `a.b` a walk from a new meta record writes as fresh properties. */
  predicate FreshPair(a: string, b: string)
  {
    PlainKey(a) && PlainKey(b) && a != "_UID" && a != "_aliases" && a != "length" && b != "length"
  }

  /**
   * As written, end to end: `setMeta(obj, 'a.b', v)` (for example with
   * the keys `a` and `b`) throws on every object without `_meta` and
   * `_audit` that takes new keys, in both editions, after writing the
   * value into the new meta record.
   */
  lemma SetMetaThrows(ed: Edition, st: State, node: Value, a: string, b: string, v: Value, now: real)
    requires MetaFree(st.heap, node) && "_audit" !in st.heap[node.addr].slots && FreshPair(a, b)
    ensures Prop(ed, Set, Meta, st, node, Str(a + "." + b), v, now).result.Throws?
  {
    var H := Context(ed, Meta, st, node).state.heap;
    MetaSetCall(ed, st, node, a, b, v, now);
    MetaSetWalk(ed, st, node, a, b, v);
    var w := Walk(ed, Set, [a, b], 0, v, Cursor(H, Ref(|st.heap| + 1), Undefined, ["_meta"]));
    MetaFinishThrows(ed, st.uidCounter + 1, node, v, now, w);
  }

  /** `setMeta(obj, 'a.b', v)` on such an object: the walk from the new meta record, then the finish. */
  lemma MetaSetCall(ed: Edition, st: State, node: Value, a: string, b: string, v: Value, now: real)
    requires MetaFree(st.heap, node) && PlainKey(a) && PlainKey(b)
    ensures var h := st.heap;
            var H := Context(ed, Meta, st, node).state.heap;
            Prop(ed, Set, Meta, st, node, Str(a + "." + b), v, now)
            == Finish(ed, Set, Meta, st.uidCounter + 1, node, v, now,
                      Walk(ed, Set, [a, b], 0, v, Cursor(H, Ref(|h| + 1), Undefined, ["_meta"])))
  {
    var h := st.heap;
    MetaContextCreates(ed, st, node);
    var H := Context(ed, Meta, st, node).state.heap;
    assert !RefusesContext(ed, H, Ref(|h| + 1)) by { assert H[|h| + 1].kind.PlainObject?; }
    DottedTokens(a, b);
    CompoundCall(ed, Set, Meta, st, node, Str(a + "." + b), v, now);
  }

  /** The walk of `a.b` from a new meta record ends normally and leaves the node's object alone. */
  lemma MetaSetWalk(ed: Edition, st: State, node: Value, a: string, b: string, v: Value)
    requires MetaFree(st.heap, node) && "_audit" !in st.heap[node.addr].slots && FreshPair(a, b)
    ensures var H := Context(ed, Meta, st, node).state.heap;
            var w := Walk(ed, Set, [a, b], 0, v, Cursor(H, Ref(|st.heap| + 1), Undefined, ["_meta"]));
            w.Next? && node.addr < |w.cursor.heap| && "_audit" !in w.cursor.heap[node.addr].slots
            && w.cursor.heap[node.addr].extensible
            && (w.cursor.heap[node.addr].kind.PlainObject? || w.cursor.heap[node.addr].kind.ArrayObject?)
  {
    var h := st.heap;
    MetaContextCreates(ed, st, node);
    var H := Context(ed, Meta, st, node).state.heap;
    assert SlotOf(H[node.addr], "_audit") == SlotOf(h[node.addr], "_audit");
    var c1 := MetaWalkFirst(ed, H, |h| + 1, Uid(st.uidCounter), |h|, a, b, v);
    MetaWalkSecond(ed, c1, a, b, v);
  }

  /** A walk that ended normally on such a node, finished as a meta `set`, throws in the audit. */
  lemma MetaFinishThrows(ed: Edition, counter: nat, node: Value, v: Value, now: real, w: StepResult)
    requires w.Next? && node.Ref? && node.addr < |w.cursor.heap| && "_audit" !in w.cursor.heap[node.addr].slots
    requires w.cursor.heap[node.addr].extensible
    requires w.cursor.heap[node.addr].kind.PlainObject? || w.cursor.heap[node.addr].kind.ArrayObject?
    ensures Finish(ed, Set, Meta, counter, node, v, now, w).result.Throws?
  {
    MetaAuditThrows(ed, w.cursor.heap, counter, node, now);
  }

  /** The first step of `a.b` from a meta record: `a` becomes a fresh object at the end of the heap. */
  lemma MetaWalkFirst(ed: Edition, H: Heap, m: Addr, uid: string, aliases: Addr, a: string, b: string, v: Value)
    returns (c1: Cursor)
    requires m < |H| && H[m] == MetaRecord(uid, aliases) && FreshPair(a, b)
    ensures Step(ed, Set, [a, b], 0, v, Cursor(H, Ref(m), Undefined, ["_meta"])) == Next(c1)
    ensures c1.context == Ref(|H|) && |c1.heap| == |H| + 1 && c1.heap[|H|] == EmptyObject
    ensures forall x :: 0 <= x < |H| && x != m ==> c1.heap[x] == H[x]
  {
    MetaRecordShape(uid, aliases);
    assert Member(H, Ref(m), a) == Ok(Undefined);
    var H1 := H + [EmptyObject];
    PutStores(H1, m, a, Ref(|H|));
    var H2 := Put(H1, m, a, Ref(|H|)).value;
    c1 := Cursor(H2, Ref(|H|), Ref(|H|), ["_meta", a]);
  }

  /** The second step of `a.b`: `b` is written into the fresh object, and the walk ends. */
  lemma MetaWalkSecond(ed: Edition, c1: Cursor, a: string, b: string, v: Value)
    requires c1.context.Ref? && c1.context.addr < |c1.heap| && c1.heap[c1.context.addr] == EmptyObject
    requires FreshPair(a, b)
    ensures var w := Walk(ed, Set, [a, b], 1, v, c1);
            w.Next? && |w.cursor.heap| == |c1.heap|
            && forall x :: 0 <= x < |c1.heap| && x != c1.context.addr ==> w.cursor.heap[x] == c1.heap[x]
  {
    var n := c1.context.addr;
    assert Member(c1.heap, Ref(n), b) == Ok(Undefined);
    PutStores(c1.heap, n, b, v);
  }
}

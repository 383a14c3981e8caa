/**
 * The meta scope of the accessors: `getMeta`, `setMeta` and `removeMeta`
 * resolve their path inside the hidden `_meta` record of the node, which
 * `initMeta` creates on first use, reads included, drawing a fresh UID.
 */
module PropMeta {
  import opened JsCore
  import opened PathSyntax
  import opened PropSpec
  import opened HeapFacts
  import opened PropReads

  /** The `_UID` of a meta record is the UID it was created with. */
  lemma MetaRecordRead(uid: string, aliases: Addr)
    ensures ObjGet(MetaRecord(uid, aliases), "_UID") == Str(uid)
    ensures ObjGet(MetaRecord(uid, aliases), "_aliases") == Ref(aliases)
  {
    var e := [("_UID", Str(uid)), ("_aliases", Ref(aliases))];
    assert e[..1] == [("_UID", Str(uid))];
    var o1 := AddSlot(EmptyObject, "_UID", Str(uid));
    assert ObjectLiteral(e[..1]) == o1;
    assert MetaRecord(uid, aliases) == AddSlot(o1, "_aliases", Ref(aliases));
  }

  /** A `get` on a path string leaves the state alone. */
  lemma GetOnPathKeeps(ed: Edition, scope: Scope, st: State, node: Value, context: Value, fullPath: string, d: Value,
                       now: real)
    ensures OnPath(ed, Get, scope, st, node, context, fullPath, d, now).state == st
  {
    if fullPath != "" && IsCompound(fullPath) {
      GetWalkResolves(ed, Tokenize(fullPath), 0, d, Cursor(st.heap, context, Undefined, ScopePrefix(scope)));
    }
  }

  /** A `get` from a known context leaves the state alone. */
  lemma GetInContextKeeps(ed: Edition, scope: Scope, st: State, node: Value, context: Value, path: Value, d: Value,
                          now: real)
    ensures InContext(ed, Get, scope, st, node, context, path, d, now).state == st
  {
    if !RefusesContext(ed, st.heap, context) {
      GetOnPathKeeps(ed, scope, st, node, context, ToString(st.heap, path), d, now);
    }
  }

  /** A `get` changes the state only while it sets up its context. */
  lemma GetOnlySetsUp(ed: Edition, scope: Scope, st: State, node: Value, path: Value, d: Value, now: real)
    requires !(ed == Lib && !IsObject(node))
    ensures Prop(ed, Get, scope, st, node, path, d, now).state == Context(ed, scope, st, node).state
  {
    var setup := Context(ed, scope, st, node);
    if setup.result.Ok? {
      GetInContextKeeps(ed, scope, setup.state, node, setup.result.value, path, d, now);
    }
  }

  /** An object `initMeta` can extend: no `_meta` yet, and new keys allowed. */
  predicate MetaFree(h: Heap, node: Value)
  {
    node.Ref? && node.addr < |h| && "_meta" !in h[node.addr].slots && h[node.addr].extensible
    && (h[node.addr].kind.PlainObject? || h[node.addr].kind.ArrayObject?)
  }

  /**
   * On an object without `_meta`, the meta scope creates it: an aliases
   * record and the meta record holding the UID of the current counter,
   * which then moves on by one; `_meta` is hidden.
   */
  lemma MetaContextCreates(ed: Edition, st: State, node: Value)
    requires MetaFree(st.heap, node)
    ensures var h := st.heap;
            var setup := Context(ed, Meta, st, node);
            var H := setup.state.heap;
            setup.result == Ok(Ref(|h| + 1)) && setup.state.uidCounter == st.uidCounter + 1
            && |H| == |h| + 2 && H[|h|] == EmptyObject && H[|h| + 1] == MetaRecord(Uid(st.uidCounter), |h|)
            && SlotOf(H[node.addr], "_meta") == Some(Slot(Ref(|h| + 1), false, HiddenWritable(ed), HiddenWritable(ed)))
            && (forall b :: 0 <= b < |h| && b != node.addr ==> H[b] == h[b])
            && H[node.addr].kind == h[node.addr].kind && H[node.addr].extensible == h[node.addr].extensible
            && (forall k :: k != "_meta" ==> SlotOf(H[node.addr], k) == SlotOf(h[node.addr], k))
  {
    var h := st.heap;
    var h2 := h + [EmptyObject] + [MetaRecord(Uid(st.uidCounter), |h|)];
    DefineHiddenKeepsOthers(h2, node, "_meta", Ref(|h| + 1), HiddenWritable(ed));
  }

  /**
   * `getMeta` on an object without `_meta` creates it even though it only
   * reads: the counter moves on by one and the new record's `_UID` is
   * 'U' followed by the old counter.
   */
  lemma GetMetaDrawsUid(ed: Edition, st: State, node: Value, path: Value, d: Value, now: real)
    requires MetaFree(st.heap, node)
    ensures var s := Prop(ed, Get, Meta, st, node, path, d, now);
            var meta := Lookup(s.state.heap, node.addr, "_meta");
            s.state.uidCounter == st.uidCounter + 1
            && meta.Ref? && Lookup(s.state.heap, meta.addr, "_UID") == Str(Uid(st.uidCounter))
  {
    MetaContextCreates(ed, st, node);
    GetOnlySetsUp(ed, Meta, st, node, path, d, now);
    var H := Context(ed, Meta, st, node).state.heap;
    assert SlotValue(H[node.addr], "_meta") == Ref(|st.heap| + 1);
    MetaRecordRead(Uid(st.uidCounter), |st.heap|);
  }

  /** Once the node has `_meta`, `getMeta` changes nothing: no new UID. */
  lemma GetMetaAgainKeepsState(ed: Edition, st: State, node: Value, path: Value, d: Value, now: real)
    requires node.Ref? && node.addr < |st.heap| && "_meta" in st.heap[node.addr].slots
    ensures Prop(ed, Get, Meta, st, node, path, d, now).state == st
  {
    GetOnlySetsUp(ed, Meta, st, node, path, d, now);
  }

  /** Two `getMeta` calls in a row on a fresh object draw one UID only. */
  lemma GetMetaTwiceDrawsOnce(ed: Edition, st: State, node: Value, path: Value, d: Value, now: real,
                              path2: Value, d2: Value, now2: real)
    requires MetaFree(st.heap, node)
    ensures var s := Prop(ed, Get, Meta, st, node, path, d, now);
            var s2 := Prop(ed, Get, Meta, s.state, node, path2, d2, now2);
            s2.state == s.state && s2.state.uidCounter == st.uidCounter + 1
  {
    MetaContextCreates(ed, st, node);
    GetOnlySetsUp(ed, Meta, st, node, path, d, now);
    var s := Prop(ed, Get, Meta, st, node, path, d, now);
    assert "_meta" in s.state.heap[node.addr].slots;
    GetMetaAgainKeepsState(ed, s.state, node, path2, d2, now2);
  }
}

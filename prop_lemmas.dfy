/**
 * Properties of whole calls of `get`, `set` and `remove` on the node
 * itself (no meta scope): `set` then `get` on the same path finds the
 * value, and the path `set` returns leads to it too.
 */
module PropLemmas {
  import opened JsCore
  import opened PathSyntax
  import opened PropSpec
  import opened HeapFacts
  import opened PropWalk
  import opened PropAudit
  import opened PropReads

  /**
   * The node's audit record, if it has one, is an object of its own: the
   * path walk neither passes through `_audit` nor through its `base`
   * record, the one a plain-scope call stamps.
   */
  predicate AuditApart(h: Heap, node: Addr, visits: seq<Addr>)
    requires node < |h|
  {
    match SlotOf(h[node], "_audit")
    case None => true
    case Some(s) =>
      s.value.Ref? ==>
        s.value.addr < |h| && s.value.addr !in visits
        && var m := ObjGet(h[s.value.addr], "base");
           m.Ref? ==> m.addr < |h| && m.addr !in visits
  }

  /** After the walk, the record the audit stamps is still one the walk did not visit. */
  lemma TargetApart(h: Heap, H: Heap, node: Addr, visits: seq<Addr>)
    requires node < |h| && WalkFrame(h, H, visits) && AuditApart(h, node, visits)
    ensures node < |H|
    ensures match AuditTarget(H, node, "base") case None => true case Some(t) => t < |h| && t !in visits
  {
    assert SlotOf(H[node], "_audit") == SlotOf(h[node], "_audit");
    match SlotOf(h[node], "_audit")
    case None =>
    case Some(s) =>
      if s.value.Ref? && s.value.addr < |h| {
        assert H[s.value.addr] == h[s.value.addr];
      }
  }

  /** What a successful audit after a safe walk leaves for a `get` to observe. */
  lemma AuditAgrees(ed: Edition, h: Heap, H: Heap, counter: nat, node: Value, now: real, visits: seq<Addr>)
    requires node.Ref? && node.addr < |h| && WalkFrame(h, H, visits) && AuditApart(h, node.addr, visits)
    ensures var a := Audit(ed, false, State(H, counter), node, now, "base");
            a.result.Ok? ==> Agrees(a.state.heap, H, visits, |h|)
  {
    TargetApart(h, H, node.addr, visits);
    AuditKeeps(ed, false, H, counter, node, now, "base");
  }

  /** A call on a compound path from an unboxed object runs the walk and then finishes. */
  lemma PlainCompound(ed: Edition, op: Op, st: State, node: Value, path: string, extra: Value, now: real)
    requires node.Ref? && node.addr < |st.heap| && !IsBoxed(st.heap, node) && IsCompound(path)
    ensures Prop(ed, op, Plain, st, node, Str(path), extra, now)
            == Finish(ed, op, Plain, st.uidCounter, node, extra, now,
                      Walk(ed, op, Tokenize(path), 0, extra, Cursor(st.heap, node, Undefined, [])))
  {
    assert Prop(ed, op, Plain, st, node, Str(path), extra, now)
        == InContext(ed, op, Plain, st, node, node, Str(path), extra, now);
    assert InContext(ed, op, Plain, st, node, node, Str(path), extra, now)
        == OnPath(ed, op, Plain, st, node, node, path, extra, now);
  }

  /** What a compound `set` on the node itself yields: the path of the segments it wrote. */
  lemma SetReturnsPath(ed: Edition, st: State, node: Value, path: string, value: Value, now: real)
    requires node.Ref? && !IsBoxed(st.heap, node) && IsCompound(path)
    requires SetSafe(st.heap, node, Tokenize(path), 0) && TokensOk(Tokenize(path), 0)
    ensures var s := Prop(ed, Set, Plain, st, node, Str(path), value, now);
            s.result.Ok? ==> s.result.value == Str(RenderPath(Segments(Tokenize(path), 0)))
  {
    var parts := Tokenize(path);
    PlainCompound(ed, Set, st, node, path, value, now);
    SetWalkPath(ed, st.heap, node, parts, 0, value, Undefined, []);
    var w := Walk(ed, Set, parts, 0, value, Cursor(st.heap, node, Undefined, []));
    assert w.cursor.finalPath == Segments(parts, 0);
    FinishedSet(ed, Plain, st.uidCounter, node, value, now, w.cursor);
  }

  /** A `set` whose walk ran to the end completes, if at all, with the path it recorded. */
  lemma FinishedSet(ed: Edition, scope: Scope, counter: nat, node: Value, value: Value, now: real, c: Cursor)
    ensures var r := Finish(ed, Set, scope, counter, node, value, now, Next(c));
            r.result.Ok? ==> r.result.value == Str(RenderPath(c.finalPath))
  {
  }

  /**
   * `set` on a compound path, then `get` on the same path: the `get` finds
   * the value that was set (or the default, when that value is absent),
   * and changes nothing.
   */
  lemma SetThenGet(ed: Edition, st: State, node: Value, path: string, value: Value, extra: Value, now: real,
                   now2: real)
    requires node.Ref? && !IsBoxed(st.heap, node) && IsCompound(path)
    requires SetSafe(st.heap, node, Tokenize(path), 0) && TokensOk(Tokenize(path), 0)
    requires AuditApart(st.heap, node.addr, Visits(st.heap, node, Tokenize(path), 0))
    ensures var s := Prop(ed, Set, Plain, st, node, Str(path), value, now);
            s.result.Ok? ==>
              Prop(ed, Get, Plain, s.state, node, Str(path), extra, now2)
              == Run(s.state, Ok(if IsAbsent(s.state.heap, value) then extra else value))
  {
    var h := st.heap;
    var parts := Tokenize(path);
    var visits := Visits(h, node, parts, 0);
    PlainCompound(ed, Set, st, node, path, value, now);
    SetWalkShape(ed, h, node, parts, 0, value, Undefined, []);
    var H := Walk(ed, Set, parts, 0, value, Cursor(h, node, Undefined, [])).cursor.heap;
    var a := Audit(ed, false, State(H, st.uidCounter), node, now, "base");
    AuditAgrees(ed, h, H, st.uidCounter, node, now, visits);
    if a.result.Ok? {
      var H2 := a.state.heap;
      SetReadBack(ed, h, node, parts, 0, value, Undefined, [], extra, H2, Undefined, []);
      PlainCompound(ed, Get, State(H2, st.uidCounter), node, path, extra, now2);
    }
  }

  /** A call on a one-key path from an unboxed object is the single-key command, with the uid counter kept. */
  lemma PlainSingle(ed: Edition, op: Op, st: State, node: Value, key: string, extra: Value, now: real)
    requires node.Ref? && !IsBoxed(st.heap, node) && key != "" && !IsCompound(key)
    ensures var r := SingleKey(ed, op, st.heap, node, key, extra, UnsetPartKey);
            Prop(ed, op, Plain, st, node, Str(key), extra, now) == Run(State(r.heap, st.uidCounter), r.result)
  {
    assert Prop(ed, op, Plain, st, node, Str(key), extra, now)
        == InContext(ed, op, Plain, st, node, node, Str(key), extra, now);
    assert InContext(ed, op, Plain, st, node, node, Str(key), extra, now)
        == OnPath(ed, op, Plain, st, node, node, key, extra, now);
  }

  /**
   * `set` of a one-key path on the node itself: the plain assignment of
   * the key, whose outcome is the call's; the key itself is returned, and
   * no audit record is stamped (the call returns before the audit).
   */
  lemma SingleSetAssigns(ed: Edition, st: State, node: Value, key: string, value: Value, now: real)
    requires node.Ref? && !IsBoxed(st.heap, node) && key != "" && !IsCompound(key)
    requires ed == Lib || IsExtensible(st.heap, node)
    ensures Prop(ed, Set, Plain, st, node, Str(key), value, now)
            == match Put(st.heap, node.addr, key, value)
               case Ok(h') => Run(State(h', st.uidCounter), Ok(Str(key)))
               case Throws(e) => Run(st, Throws(e))
  {
    PlainSingle(ed, Set, st, node, key, value, now);
  }

  /**
   * `set` of a one-key path on an object that takes the key: it returns
   * the key, the key reads the value, every other key of the object and
   * every other object are unchanged, and no identifier is drawn.
   */
  lemma SingleSetStores(ed: Edition, st: State, node: Value, key: string, value: Value, now: real)
    requires node.Ref? && node.addr < |st.heap| && Writable(st.heap[node.addr], key)
    requires key != "" && !IsCompound(key)
    ensures var s := Prop(ed, Set, Plain, st, node, Str(key), value, now);
            var a := node.addr;
            s.result == Ok(Str(key)) && s.state.uidCounter == st.uidCounter
            && |s.state.heap| == |st.heap| && ObjGet(s.state.heap[a], key) == value
            && (forall k :: k != key && k != "length" ==> ObjGet(s.state.heap[a], k) == ObjGet(st.heap[a], k))
            && (forall b :: 0 <= b < |st.heap| && b != a ==> s.state.heap[b] == st.heap[b])
  {
    PutStores(st.heap, node.addr, key, value);
    SingleSetAssigns(ed, st, node, key, value, now);
  }

  /** Dist `set` of a one-key path on a non-extensible (for one, a frozen) object returns the key and changes nothing. */
  lemma SingleSetRefused(st: State, node: Value, key: string, value: Value, now: real)
    requires node.Ref? && node.addr < |st.heap| && !IsBoxed(st.heap, node) && !st.heap[node.addr].extensible
    requires key != "" && !IsCompound(key)
    ensures Prop(Dist, Set, Plain, st, node, Str(key), value, now) == Run(st, Ok(Str(key)))
  {
    PlainSingle(Dist, Set, st, node, key, value, now);
  }

  /** `set` of a one-key path, then `get` of it: the value set, or the default when that value is absent. */
  lemma SingleSetThenGet(ed: Edition, st: State, node: Value, key: string, value: Value, extra: Value, now: real,
                         now2: real)
    requires node.Ref? && node.addr < |st.heap| && Writable(st.heap[node.addr], key)
    requires key != "" && !IsCompound(key)
    ensures var s := Prop(ed, Set, Plain, st, node, Str(key), value, now);
            s.result == Ok(Str(key))
            && Prop(ed, Get, Plain, s.state, node, Str(key), extra, now2)
               == Run(s.state, Ok(if IsAbsent(s.state.heap, value) then extra else value))
  {
    SingleSetStores(ed, st, node, key, value, now);
    var s := Prop(ed, Set, Plain, st, node, Str(key), value, now);
    GetReads(ed, s.state, node, key, extra, now2);
    assert PathKeys(key) == [key];
    ReadOneKey(s.state.heap, node, key, extra);
  }

  /**
   * A compound `set` on the node itself whose `_audit.base` record exists,
   * lies apart from the path and counts in a number: it returns the path it
   * wrote, draws no identifier, and stamps the record with the clock,
   * adding exactly one to its `updateCount`.
   */
  lemma SetBumpsBase(ed: Edition, st: State, node: Value, path: string, value: Value, now: real, t: Addr, n: Num)
    requires node.Ref? && node.addr < |st.heap| && !IsBoxed(st.heap, node) && IsCompound(path)
    requires SetSafe(st.heap, node, Tokenize(path), 0) && TokensOk(Tokenize(path), 0)
    requires AuditApart(st.heap, node.addr, Visits(st.heap, node, Tokenize(path), 0))
    requires AuditTarget(st.heap, node.addr, "base") == Some(t) && t < |st.heap|
    requires Writable(st.heap[t], "modified") && Writable(st.heap[t], "updateCount")
    requires ObjGet(st.heap[t], "updateCount") == Number(n)
    ensures var s := Prop(ed, Set, Plain, st, node, Str(path), value, now);
            s.result == Ok(Str(RenderPath(Segments(Tokenize(path), 0)))) && s.state.uidCounter == st.uidCounter
            && Lookup(s.state.heap, t, "updateCount") == Number(Increment(n))
            && Lookup(s.state.heap, t, "modified") == Number(Finite(now))
  {
    var parts := Tokenize(path);
    PlainCompound(ed, Set, st, node, path, value, now);
    var w := Walk(ed, Set, parts, 0, value, Cursor(st.heap, node, Undefined, []));
    WalkKeepsBase(ed, st.heap, node, parts, value, t);
    FinishBumps(ed, st.uidCounter, node, value, now, w.cursor, t, n);
  }

  /** A safe `set` walk from the node completes with the path of its tokens and leaves the `base` record alone. */
  lemma WalkKeepsBase(ed: Edition, h: Heap, node: Value, parts: seq<string>, value: Value, t: Addr)
    requires node.Ref? && node.addr < |h| && SetSafe(h, node, parts, 0) && TokensOk(parts, 0)
    requires AuditApart(h, node.addr, Visits(h, node, parts, 0))
    requires AuditTarget(h, node.addr, "base") == Some(t) && t < |h|
    ensures var w := Walk(ed, Set, parts, 0, value, Cursor(h, node, Undefined, []));
            w.Next? && w.cursor.finalPath == Segments(parts, 0) && node.addr < |w.cursor.heap|
            && AuditTarget(w.cursor.heap, node.addr, "base") == Some(t) && w.cursor.heap[t] == h[t]
  {
    SetWalkShape(ed, h, node, parts, 0, value, Undefined, []);
    SetWalkPath(ed, h, node, parts, 0, value, Undefined, []);
    var H := Walk(ed, Set, parts, 0, value, Cursor(h, node, Undefined, [])).cursor.heap;
    TargetKept(h, H, node.addr, Visits(h, node, parts, 0), t);
  }

  /** The finish of a `set` whose node has a stampable `base` record: the recorded path, and the record stamped once. */
  lemma FinishBumps(ed: Edition, counter: nat, node: Value, value: Value, now: real, c: Cursor, t: Addr, n: Num)
    requires node.Ref? && node.addr < |c.heap| && AuditTarget(c.heap, node.addr, "base") == Some(t) && t < |c.heap|
    requires Writable(c.heap[t], "modified") && Writable(c.heap[t], "updateCount")
    requires ObjGet(c.heap[t], "updateCount") == Number(n)
    ensures var r := Finish(ed, Set, Plain, counter, node, value, now, Next(c));
            r.result == Ok(Str(RenderPath(c.finalPath))) && r.state.uidCounter == counter
            && Lookup(r.state.heap, t, "updateCount") == Number(Increment(n))
            && Lookup(r.state.heap, t, "modified") == Number(Finite(now))
  {
    AuditBumpsExisting(ed, false, c.heap, counter, node, now, "base", t, n);
    FinishedSetState(ed, counter, node, value, now, c);
    FinishedSet(ed, Plain, counter, node, value, now, c);
    AuditCounterKept(ed, c.heap, counter, node, now);
  }

  /** A walk that kept clear of the audit record leaves the node's `base` record where it was, as it was. */
  lemma TargetKept(h: Heap, H: Heap, node: Addr, visits: seq<Addr>, t: Addr)
    requires node < |h| && WalkFrame(h, H, visits) && AuditApart(h, node, visits)
    requires AuditTarget(h, node, "base") == Some(t) && t < |h|
    ensures node < |H| && AuditTarget(H, node, "base") == Some(t) && H[t] == h[t]
  {
    var s := SlotOf(h[node], "_audit").value;
    assert SlotOf(H[node], "_audit") == Some(s);
    assert H[s.value.addr] == h[s.value.addr];
  }

  /** The audit of a node with `_audit` draws no identifier. */
  lemma AuditCounterKept(ed: Edition, H: Heap, counter: nat, node: Value, now: real)
    requires node.Ref? && node.addr < |H| && "_audit" in H[node.addr].slots
    ensures Audit(ed, false, State(H, counter), node, now, "base").state.uidCounter == counter
  {
  }

  /** Tokens whose keys need no escaping, starting with a plain key: what `set` records for them renders faithfully. */
  predicate PlainTokens(parts: seq<string>)
  {
    |parts| >= 2 && !IsBracketed(parts[0]) && forall j :: 0 <= j < |parts| ==> PlainKey(KeyOf(parts[j]))
  }

  /** The segments recorded for plain tokens read back as themselves. */
  lemma RenderedSegmentsTokenize(parts: seq<string>)
    requires PlainTokens(parts)
    ensures var segs := Segments(parts, 0);
            IsCompound(RenderPath(segs)) && Tokenize(RenderPath(segs)) == segs && SameKeys(segs, parts)
  {
    var segs := Segments(parts, 0);
    SegmentsAt(parts, 0);
    assert segs[0] == parts[0];
    forall j | 1 <= j < |segs| ensures SegmentOfPlainKey(segs[j]) {
      var k := KeyOf(parts[j]);
      if IsBracketed(parts[j]) {
        assert segs[j] == "[" + k + "]";
        assert segs[j][1..|segs[j]| - 1] == k;
      }
    }
    TokenizeRenderPath(segs);
    SegmentsKeys(parts);
  }

  /**
   * The path a `set` returns addresses the same keys as the path it was
   * given: a `get` along either finds the same thing.
   */
  lemma ReturnedPathReadsAlike(ed: Edition, st: State, node: Value, path: string, extra: Value, now: real)
    requires node.Ref? && node.addr < |st.heap| && !IsBoxed(st.heap, node) && IsCompound(path)
    requires PlainTokens(Tokenize(path))
    ensures Prop(ed, Get, Plain, st, node, Str(RenderPath(Segments(Tokenize(path), 0))), extra, now)
            == Prop(ed, Get, Plain, st, node, Str(path), extra, now)
  {
    var parts := Tokenize(path);
    var segs := Segments(parts, 0);
    RenderedSegmentsTokenize(parts);
    PlainCompound(ed, Get, st, node, path, extra, now);
    PlainCompound(ed, Get, st, node, RenderPath(segs), extra, now);
    GetWalkKeys(ed, segs, parts, 0, extra, Cursor(st.heap, node, Undefined, []));
  }

  /**
   * `set` returns a path, and a `get` along that returned path finds the
   * value that was set (or the default, when that value is absent).
   */
  lemma SetThenGetReturnedPath(ed: Edition, st: State, node: Value, path: string, value: Value, extra: Value,
                               now: real, now2: real)
    requires node.Ref? && !IsBoxed(st.heap, node) && IsCompound(path)
    requires SetSafe(st.heap, node, Tokenize(path), 0) && TokensOk(Tokenize(path), 0) && PlainTokens(Tokenize(path))
    requires AuditApart(st.heap, node.addr, Visits(st.heap, node, Tokenize(path), 0))
    ensures var s := Prop(ed, Set, Plain, st, node, Str(path), value, now);
            s.result.Ok? ==>
              s.result.value.Str?
              && Prop(ed, Get, Plain, s.state, node, s.result.value, extra, now2)
                 == Run(s.state, Ok(if IsAbsent(s.state.heap, value) then extra else value))
  {
    var s := Prop(ed, Set, Plain, st, node, Str(path), value, now);
    SetReturnsPath(ed, st, node, path, value, now);
    SetThenGet(ed, st, node, path, value, extra, now, now2);
    if s.result.Ok? {
      KindsAfterSet(ed, st, node, path, value, now);
      ReturnedPathReadsAlike(ed, s.state, node, path, extra, now2);
    }
  }

  /** A successful `set` keeps the node where it was, and keeps it unboxed. */
  lemma KindsAfterSet(ed: Edition, st: State, node: Value, path: string, value: Value, now: real)
    requires node.Ref? && !IsBoxed(st.heap, node) && IsCompound(path)
    requires SetSafe(st.heap, node, Tokenize(path), 0) && TokensOk(Tokenize(path), 0)
    ensures var s := Prop(ed, Set, Plain, st, node, Str(path), value, now);
            s.result.Ok? ==> node.addr < |s.state.heap| && !IsBoxed(s.state.heap, node)
  {
    var h := st.heap;
    var parts := Tokenize(path);
    PlainCompound(ed, Set, st, node, path, value, now);
    SetWalkShape(ed, h, node, parts, 0, value, Undefined, []);
    var H := Walk(ed, Set, parts, 0, value, Cursor(h, node, Undefined, [])).cursor.heap;
    AuditKeeps(ed, false, H, st.uidCounter, node, now, "base");
  }

  /** An array under `key` that takes one more element. */
  predicate AppendableAt(h: Heap, node: Addr, key: string)
  {
    node < |h| && var arr := Lookup(h, node, key); arr.Ref? && arr.addr < |h| && Appendable(h[arr.addr])
  }

  /** The walk of `set(node, 'key[]', value)`: through the array, then a push. */
  lemma AppendWalk(ed: Edition, h: Heap, node: Value, key: string, value: Value)
    requires node.Ref? && PlainKey(key) && AppendableAt(h, node.addr, key)
    ensures var arr := Lookup(h, node.addr, key).addr;
            var pushed := Push(h, arr, value).value;
            Push(h, arr, value).Ok?
            && Walk(ed, Set, [key, "[]"], 0, value, Cursor(h, node, Undefined, []))
               == Next(Cursor(pushed.0, value, value, [key, Segment(NatToString(h[arr].length), true)]))
  {
    var arr := Lookup(h, node.addr, key);
    var parts := [key, "[]"];
    PushStores(h, arr.addr, value);
    StepMoves(ed, parts, 0, value, Cursor(h, node, Undefined, []));
    WalkOn(ed, Set, parts, 0, value, Cursor(h, node, Undefined, []));
    assert KeyOf("[]") == "";
  }

  /**
   * `set(node, 'key[]', value)` on an array under `key` appends: the
   * returned path names the index written, which is the old length.
   */
  lemma SetAppendsPath(ed: Edition, st: State, node: Value, key: string, value: Value, now: real)
    requires node.Ref? && !IsBoxed(st.heap, node) && PlainKey(key) && AppendableAt(st.heap, node.addr, key)
    ensures var n := st.heap[Lookup(st.heap, node.addr, key).addr].length;
            var s := Prop(ed, Set, Plain, st, node, Str(key + "[]"), value, now);
            s.result.Ok? ==> s.result.value == Str(key + "[" + NatToString(n) + "]")
  {
    var h := st.heap;
    var arr := Lookup(h, node.addr, key).addr;
    var n := h[arr].length;
    AppendTokens(key);
    NatToStringIsIndex(n);
    AppendRender(key, NatToString(n));
    PlainCompound(ed, Set, st, node, key + "[]", value, now);
    AppendWalk(ed, h, node, key, value);
    var H := Push(h, arr, value).value.0;
    FinishedSet(ed, Plain, st.uidCounter, node, value, now, Cursor(H, value, value, [key, Segment(NatToString(n), true)]));
  }

  /**
   * After `set(node, 'key[]', value)` the array holds the value at its old
   * length and has grown by one.
   */
  lemma SetAppendsStores(ed: Edition, st: State, node: Value, key: string, value: Value, now: real)
    requires node.Ref? && !IsBoxed(st.heap, node) && PlainKey(key) && AppendableAt(st.heap, node.addr, key)
    requires AuditApart(st.heap, node.addr, [node.addr, Lookup(st.heap, node.addr, key).addr])
    ensures var arr := Lookup(st.heap, node.addr, key).addr;
            var n := st.heap[arr].length;
            var s := Prop(ed, Set, Plain, st, node, Str(key + "[]"), value, now);
            s.result.Ok? ==>
              Lookup(s.state.heap, arr, NatToString(n)) == value
              && Lookup(s.state.heap, arr, "length") == Number(Finite((n + 1) as real))
  {
    var h := st.heap;
    var arr := Lookup(h, node.addr, key).addr;
    AppendRun(ed, st, node, key, value, now);
    var H := Push(h, arr, value).value.0;
    AppendFrame(h, H, node.addr, arr, value);
    TargetApart(h, H, node.addr, [node.addr, arr]);
    AuditKeeps(ed, false, H, st.uidCounter, node, now, "base");
    var c := Cursor(H, value, value, [key, Segment(NatToString(h[arr].length), true)]);
    FinishedSetState(ed, st.uidCounter, node, value, now, c);
    var H2 := Audit(ed, false, State(H, st.uidCounter), node, now, "base").state.heap;
    if Audit(ed, false, State(H, st.uidCounter), node, now, "base").result.Ok? {
      AuditFrameRead(H, H2, AuditTarget(H, node.addr, "base"), arr, NatToString(h[arr].length));
      AuditFrameRead(H, H2, AuditTarget(H, node.addr, "base"), arr, "length");
    }
  }

  /** `set(node, 'key[]', value)` is the push of the value onto the array, then the audit. */
  lemma AppendRun(ed: Edition, st: State, node: Value, key: string, value: Value, now: real)
    requires node.Ref? && !IsBoxed(st.heap, node) && PlainKey(key) && AppendableAt(st.heap, node.addr, key)
    ensures var h := st.heap;
            var arr := Lookup(h, node.addr, key).addr;
            Push(h, arr, value).Ok?
            && Prop(ed, Set, Plain, st, node, Str(key + "[]"), value, now)
               == Finish(ed, Set, Plain, st.uidCounter, node, value, now,
                         Next(Cursor(Push(h, arr, value).value.0, value, value,
                                     [key, Segment(NatToString(h[arr].length), true)])))
  {
    AppendTokens(key);
    PlainCompound(ed, Set, st, node, key + "[]", value, now);
    AppendWalk(ed, st.heap, node, key, value);
  }

  /** A `set` on the node itself whose walk ran to the end leaves the heap of its audit. */
  lemma FinishedSetState(ed: Edition, counter: nat, node: Value, value: Value, now: real, c: Cursor)
    ensures var r := Finish(ed, Set, Plain, counter, node, value, now, Next(c));
            var a := Audit(ed, false, State(c.heap, counter), node, now, "base");
            r.state == a.state && (r.result.Ok? <==> a.result.Ok?)
  {
  }

  lemma AuditFrameRead(H: Heap, H2: Heap, t: Option<Addr>, b: Addr, k: string)
    requires AuditFrame(H, H2, t) && b < |H| && t != Some(b) && k != "_audit"
    ensures b < |H2| && ObjGet(H2[b], k) == ObjGet(H[b], k)
  {
  }

  /** A push into the array is a walk that visits the node and the array. */
  lemma AppendFrame(h: Heap, H: Heap, node: Addr, arr: Addr, value: Value)
    requires arr < |h| && node < |h| && Appendable(h[arr]) && H == Push(h, arr, value).value.0
    ensures WalkFrame(h, H, [node, arr])
    ensures ObjGet(H[arr], NatToString(h[arr].length)) == value
    ensures ObjGet(H[arr], "length") == Number(Finite((h[arr].length + 1) as real))
    ensures NatToString(h[arr].length) != "_audit"
  {
    PushStores(h, arr, value);
    IndexKeyIsNotNamed(h[arr].length);
  }
}

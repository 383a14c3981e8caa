/**
 * No accessor changes a frozen object, in either edition, in any scope:
 * `Dist` skips the write explicitly, and `Lib` attempts it and the write
 * itself fails; either way the frozen object is still the same object
 * afterwards.
 */
module PropFrozen {
  import opened JsCore
  import opened PathSyntax
  import opened PropSpec
  import opened HeapFacts

  lemma ClearKeepsFrozen(ed: Edition, h: Heap, context: Value, part: string, force: Value, prop: Value)
    ensures KeepsFrozen(h, Clear(ed, h, context, part, force, prop).heap)
  {
    DeleteKeepsFrozen(h, context, part);
    PutKeepsFrozen(h, context, part, Undefined);
  }

  lemma AttachKeepsFrozen(ed: Edition, h: Heap, context: Value, part: string, isIndex: bool, made: Value,
                          finalPath: seq<string>)
    ensures KeepsFrozen(h, Attach(ed, h, context, part, isIndex, made, finalPath).HeapAfter())
  {
    if IsArray(h, context) && part == "" {
      if ed == Lib || IsExtensible(h, context) {
        PushKeepsFrozen(h, context.addr, made);
      }
    } else if part != "" {
      PutKeepsFrozen(h, context, part, made);
    }
  }

  lemma SetStepKeepsFrozen(ed: Edition, parts: seq<string>, i: nat, value: Value, c: Cursor, prop: Value)
    requires i < |parts|
    ensures KeepsFrozen(c.heap, SetStep(ed, parts, i, value, c, prop).HeapAfter())
  {
    var h := c.heap;
    var isLast := i + 1 == |parts|;
    var part := KeyOf(parts[i]);
    if isLast || NeedsContainer(h, prop) {
      var nextIsArray := !isLast && IsBracketed(parts[i + 1]);
      if isLast {
        AttachKeepsFrozen(ed, h, c.context, part, IsBracketed(parts[i]), value, c.finalPath);
      } else {
        var (h1, a) := Alloc(h, if nextIsArray then EmptyArray else EmptyObject);
        AllocKeepsFrozen(h, if nextIsArray then EmptyArray else EmptyObject);
        AttachKeepsFrozen(ed, h1, c.context, part, IsBracketed(parts[i]), Ref(a), c.finalPath);
        KeepsFrozenTransitive(h, h1, SetStep(ed, parts, i, value, c, prop).HeapAfter());
      }
    }
  }

  lemma StepKeepsFrozen(ed: Edition, op: Op, parts: seq<string>, i: nat, extra: Value, c: Cursor)
    requires i < |parts|
    ensures KeepsFrozen(c.heap, Step(ed, op, parts, i, extra, c).HeapAfter())
  {
    var part := KeyOf(parts[i]);
    match Member(c.heap, c.context, part)
    case Throws(_) =>
    case Ok(prop) =>
      if op == Remove && i + 1 == |parts| {
        ClearKeepsFrozen(ed, c.heap, c.context, part, extra, prop);
      } else if op == Set {
        SetStepKeepsFrozen(ed, parts, i, extra, c, prop);
      }
  }

  lemma {:induction false} WalkKeepsFrozen(ed: Edition, op: Op, parts: seq<string>, i: nat, extra: Value, c: Cursor)
    ensures KeepsFrozen(c.heap, Walk(ed, op, parts, i, extra, c).HeapAfter())
    decreases |parts| - i
  {
    if i < |parts| {
      StepKeepsFrozen(ed, op, parts, i, extra, c);
      var s := Step(ed, op, parts, i, extra, c);
      if s.Next? {
        WalkKeepsFrozen(ed, op, parts, i + 1, extra, s.cursor);
        KeepsFrozenTransitive(c.heap, s.cursor.heap, Walk(ed, op, parts, i, extra, c).HeapAfter());
      }
    }
  }

  /** The first half of `initMeta`: the `_meta` record of the node, created if missing. */
  lemma MetaRecordKeepsFrozen(ed: Edition, st: State, node: Value)
    ensures KeepsFrozen(st.heap, InitMeta(ed, st, node, None).state.heap)
  {
    if HasOwn(st.heap, node, "_meta") == Ok(false) {
      var (h1, aliases) := Alloc(st.heap, EmptyObject);
      var (h2, meta) := Alloc(h1, MetaRecord(Uid(st.uidCounter), aliases));
      DefineHiddenKeepsFrozen(h2, node, "_meta", Ref(meta), HiddenWritable(ed));
      KeepsFrozenTransitive(st.heap, h2, InitMeta(ed, st, node, None).state.heap);
    }
  }

  lemma InitMetaKeepsFrozen(ed: Edition, st: State, node: Value, namespace: Option<string>)
    ensures KeepsFrozen(st.heap, InitMeta(ed, st, node, namespace).state.heap)
  {
    MetaRecordKeepsFrozen(ed, st, node);
    var first := InitMeta(ed, st, node, None);
    if !(first.result.Throws? || namespace.None? || namespace.value == "") {
      var h := first.state.heap;
      var ns := namespace.value;
      match Member(h, node, "_meta")
      case Throws(_) =>
      case Ok(meta) =>
        if HasOwn(h, meta, ns) == Ok(false) {
          var (h1, record) := Alloc(h, EmptyObject);
          DefineHiddenKeepsFrozen(h1, meta, ns, Ref(record), HiddenWritable(ed));
          KeepsFrozenTransitive(h, h1, InitMeta(ed, st, node, namespace).state.heap);
        }
      KeepsFrozenTransitive(st.heap, h, InitMeta(ed, st, node, namespace).state.heap);
    }
  }

  lemma ContextKeepsFrozen(ed: Edition, scope: Scope, st: State, node: Value)
    ensures KeepsFrozen(st.heap, Context(ed, scope, st, node).state.heap)
  {
    match scope
    case Plain =>
    case Meta => InitMetaKeepsFrozen(ed, st, node, None);
    case MetaNS(ns) => InitMetaKeepsFrozen(ed, st, node, Some(ns));
  }

  lemma InitAuditKeepsFrozen(ed: Edition, st: State, node: Value, now: real)
    ensures KeepsFrozen(st.heap, InitAudit(ed, st, node, now).state.heap)
  {
    if !(ed == Dist && Truthy(node) && !IsExtensible(st.heap, node)) {
      var (h1, base) := Alloc(st.heap, AuditRecord(now));
      var (h2, meta) := Alloc(h1, AuditRecord(now));
      var (h3, audit) := Alloc(h2, ObjectLiteral([("base", Ref(base)), ("_meta", Ref(meta))]));
      DefineHiddenKeepsFrozen(h3, node, "_audit", Ref(audit), HiddenWritable(ed));
      KeepsFrozenTransitive(st.heap, h3, InitAudit(ed, st, node, now).state.heap);
    }
  }

  lemma TouchKeepsFrozen(h: Heap, m: Value, now: real)
    ensures Touch(h, m, now).Ok? ==> KeepsFrozen(h, Touch(h, m, now).value)
  {
    PutKeepsFrozen(h, m, "modified", Number(Finite(now)));
    match PutValue(h, m, "modified", Number(Finite(now)))
    case Throws(_) =>
    case Ok(h1) =>
      match Member(h1, m, "updateCount")
      case Throws(_) =>
      case Ok(count) =>
        PutKeepsFrozen(h1, m, "updateCount", Number(Increment(ToNumber(h1, count))));
        if Touch(h, m, now).Ok? {
          KeepsFrozenTransitive(h, h1, Touch(h, m, now).value);
        }
  }

  lemma TouchRecordKeepsFrozen(ed: Edition, st: State, node: Value, now: real, recordKey: string)
    ensures KeepsFrozen(st.heap, TouchRecord(ed, st, node, now, recordKey).state.heap)
  {
    var h := st.heap;
    match Member(h, node, "_audit")
    case Throws(_) =>
    case Ok(audit) =>
      match Member(h, audit, recordKey)
      case Throws(_) =>
      case Ok(m) => TouchKeepsFrozen(h, m, now);
  }

  lemma AuditKeepsFrozen(ed: Edition, isMeta: bool, st: State, node: Value, now: real, recordKey: string)
    ensures KeepsFrozen(st.heap, Audit(ed, isMeta, st, node, now, recordKey).state.heap)
  {
    if HasOwn(st.heap, node, "_audit") == Ok(false) {
      InitAuditKeepsFrozen(ed, st, node, now);
      var init := InitAudit(ed, st, node, now);
      if init.result.Ok? {
        TouchRecordKeepsFrozen(ed, init.state, node, now, recordKey);
        KeepsFrozenTransitive(st.heap, init.state.heap, Audit(ed, isMeta, st, node, now, recordKey).state.heap);
      }
    } else if HasOwn(st.heap, node, "_audit") == Ok(true) {
      TouchRecordKeepsFrozen(ed, st, node, now, recordKey);
    }
  }

  lemma FinishKeepsFrozen(ed: Edition, op: Op, scope: Scope, counter: nat, node: Value, extra: Value, now: real,
                          w: StepResult)
    ensures KeepsFrozen(w.HeapAfter(), Finish(ed, op, scope, counter, node, extra, now, w).state.heap)
  {
    if w.Next? && op != Get {
      AuditKeepsFrozen(ed, scope != Plain, State(w.cursor.heap, counter), node, now, AuditRecordKey(scope != Plain));
    }
  }

  lemma SingleKeyKeepsFrozen(ed: Edition, op: Op, h: Heap, context: Value, key: string, extra: Value,
                             clearedKey: string)
    ensures KeepsFrozen(h, SingleKey(ed, op, h, context, key, extra, clearedKey).heap)
  {
    DeleteKeepsFrozen(h, context, clearedKey);
    PutKeepsFrozen(h, context, clearedKey, Undefined);
    PutKeepsFrozen(h, context, key, extra);
  }

  /**
   * Every accessor, in both editions and every scope, leaves every frozen
   * object of the heap as it was (and only ever adds objects).
   */
  lemma PropKeepsFrozen(ed: Edition, op: Op, scope: Scope, st: State, node: Value, path: Value, extra: Value,
                        now: real)
    ensures KeepsFrozen(st.heap, Prop(ed, op, scope, st, node, path, extra, now).state.heap)
  {
    if !(ed == Lib && !IsObject(node)) {
      ContextKeepsFrozen(ed, scope, st, node);
      var setup := Context(ed, scope, st, node);
      var h := setup.state.heap;
      var r := Prop(ed, op, scope, st, node, path, extra, now);
      if setup.result.Ok? && !RefusesContext(ed, h, setup.result.value) {
        var fullPath := ToString(h, path);
        if fullPath != "" {
          var context := setup.result.value;
          if !IsCompound(fullPath) {
            SingleKeyKeepsFrozen(ed, op, h, context, fullPath, extra, UnsetPartKey);
          } else {
            var w := Walk(ed, op, Tokenize(fullPath), 0, extra, Cursor(h, context, Undefined, ScopePrefix(scope)));
            WalkKeepsFrozen(ed, op, Tokenize(fullPath), 0, extra, Cursor(h, context, Undefined, ScopePrefix(scope)));
            FinishKeepsFrozen(ed, op, scope, setup.state.uidCounter, node, extra, now, w);
            KeepsFrozenTransitive(h, w.HeapAfter(), r.state.heap);
          }
          KeepsFrozenTransitive(st.heap, h, r.state.heap);
        }
      }
    }
  }
}

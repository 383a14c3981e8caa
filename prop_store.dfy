/**
 * The accessors as the source runs them: one loop over the path tokens
 * that reassigns `context`, writes into the heap in place and grows
 * `finalPath`, proved to compute exactly what `PropSpec.Prop` describes.
 */
module PropStore {
  import opened JsCore
  import opened PathSyntax
  import opened PropSpec

  /** The mutable world the accessors work on: the object heap and the counter behind `uid()`. */
  class Store {
    var heap: Heap
    var uidCounter: nat

    constructor (h: Heap, counter: nat)
      ensures heap == h && uidCounter == counter
    {
      heap := h;
      uidCounter := counter;
    }

    function Snapshot(): State
      reads this
    {
      State(heap, uidCounter)
    }

    /** Takes on the heap and counter of `st`. */
    method Load(st: State)
      modifies this
      ensures Snapshot() == st
    {
      heap, uidCounter := st.heap, st.uidCounter;
    }
  }

  /**
   * `prop(cmd, node, [namespace,] path, extra)` run against `store`: the
   * new heap and counter and the completion are those of the specification.
   */
  method Prop(store: Store, ed: Edition, op: Op, scope: Scope, node: Value, path: Value, extra: Value,
              now: real) returns (r: Result<Value>)
    modifies store
    ensures Run(store.Snapshot(), r) == PropSpec.Prop(ed, op, scope, old(store.Snapshot()), node, path, extra, now)
  {
    ghost var st := store.Snapshot();
    if ed == Lib && !IsObject(node) {
      return Ok(Undefined);
    }
    assert PropSpec.Prop(ed, op, scope, st, node, path, extra, now) == Scoped(ed, op, scope, st, node, path, extra, now);
    r := ScopedInPlace(store, ed, op, scope, node, path, extra, now);
  }

  /** `prop` past the `lib` guard: the context of the scope, created in the store if missing, then the rest. */
  method ScopedInPlace(store: Store, ed: Edition, op: Op, scope: Scope, node: Value, path: Value, extra: Value,
                       now: real) returns (r: Result<Value>)
    modifies store
    ensures Run(store.Snapshot(), r) == Scoped(ed, op, scope, old(store.Snapshot()), node, path, extra, now)
  {
    ghost var st := store.Snapshot();
    var setup := Context(ed, scope, store.Snapshot(), node);
    store.Load(setup.state);
    if setup.result.Throws? {
      return Throws(setup.result.error);
    }
    assert Scoped(ed, op, scope, st, node, path, extra, now)
        == InContext(ed, op, scope, setup.state, node, setup.result.value, path, extra, now);
    r := InContextInPlace(store, ed, op, scope, node, setup.result.value, path, extra, now);
  }

  /** `prop` once `context` is known: the guard on it, then the path. */
  method InContextInPlace(store: Store, ed: Edition, op: Op, scope: Scope, node: Value, context: Value, path: Value,
                          extra: Value, now: real) returns (r: Result<Value>)
    modifies store
    ensures Run(store.Snapshot(), r) == InContext(ed, op, scope, old(store.Snapshot()), node, context, path, extra, now)
  {
    ghost var st := store.Snapshot();
    if RefusesContext(ed, store.heap, context) {
      return if op == Set then Throws(Raised(EmptyContextMessage)) else Ok(extra);
    }
    var fullPath := ToString(store.heap, path);
    assert InContext(ed, op, scope, st, node, context, path, extra, now)
        == OnPath(ed, op, scope, st, node, context, fullPath, extra, now);
    r := OnPathInPlace(store, ed, op, scope, node, context, fullPath, extra, now);
  }

  /** The command on the path string: nothing, one plain key written in place, or the loop over the tokens. */
  method OnPathInPlace(store: Store, ed: Edition, op: Op, scope: Scope, node: Value, context: Value,
                       fullPath: string, extra: Value, now: real) returns (r: Result<Value>)
    modifies store
    ensures Run(store.Snapshot(), r) == OnPath(ed, op, scope, old(store.Snapshot()), node, context, fullPath, extra, now)
  {
    ghost var st := store.Snapshot();
    if fullPath == "" {
      return Ok(if op == Set then Str("") else if op == Remove then Undefined else extra);
    }
    if !IsCompound(fullPath) {
      var single := SingleKey(ed, op, store.heap, context, fullPath, extra, UnsetPartKey);
      store.heap := single.heap;
      return single.result;
    }
    var parts := Tokenize(fullPath);
    var walked := WalkInPlace(store, ed, op, parts, extra, context, ScopePrefix(scope));
    assert OnPath(ed, op, scope, st, node, context, fullPath, extra, now)
        == Finish(ed, op, scope, st.uidCounter, node, extra, now, walked);
    r := FinishInPlace(store, ed, op, scope, node, extra, now, walked);
  }

  /** The end of `prop` after the loop: the completion, and the audit bookkeeping of `set` and `remove`. */
  method FinishInPlace(store: Store, ed: Edition, op: Op, scope: Scope, node: Value, extra: Value, now: real,
                       walked: StepResult)
    returns (r: Result<Value>)
    requires store.heap == walked.HeapAfter()
    modifies store
    ensures Run(store.Snapshot(), r) == Finish(ed, op, scope, old(store.uidCounter), node, extra, now, walked)
  {
    if walked.Stop? {
      return walked.result;
    }
    if op == Get {
      var last := walked.cursor.last;
      return Ok(if IsAbsent(store.heap, last) then extra else last);
    }
    r := AuditedInPlace(store, ed, op, scope, node, extra, now, walked.cursor);
  }

  /** The end of a `set` or `remove` whose loop ran to the end: the audit, then the completion. */
  method AuditedInPlace(store: Store, ed: Edition, op: Op, scope: Scope, node: Value, extra: Value, now: real,
                        c: Cursor)
    returns (r: Result<Value>)
    requires store.heap == c.heap && op != Get
    modifies store
    ensures Run(store.Snapshot(), r) == Finish(ed, op, scope, old(store.uidCounter), node, extra, now, Next(c))
  {
    var audited := AuditInPlace(store, ed, scope != Plain, node, now, AuditRecordKey(scope != Plain));
    r := Complete(op, c, audited);
  }

  /**
   * The audit bookkeeping, in place: `initAudit` when the node has no
   * `_audit`, then `modified` and `updateCount` of the audit record.
   */
  method AuditInPlace(store: Store, ed: Edition, isMeta: bool, node: Value, now: real, recordKey: string)
    returns (r: Result<()>)
    modifies store
    ensures Run(store.Snapshot(), r) == Audit(ed, isMeta, old(store.Snapshot()), node, now, recordKey)
  {
    var audit := Audit(ed, isMeta, store.Snapshot(), node, now, recordKey);
    store.heap := audit.state.heap;
    r := audit.result;
  }

  /**
   * The loop of `prop`: runs the walk over `parts` from `context`, writing
   * into `store.heap` as it goes; either a step ends the call (a `Stop`,
   * with its completion) or the tokens run out (a `Next` holding the last
   * `prop` and `finalPath`).
   */
  method WalkInPlace(store: Store, ed: Edition, op: Op, parts: seq<string>, extra: Value, context0: Value,
                     prefix: seq<string>)
    returns (w: StepResult)
    modifies store
    ensures store.uidCounter == old(store.uidCounter)
    ensures w == Walk(ed, op, parts, 0, extra, Cursor(old(store.heap), context0, Undefined, prefix))
    ensures store.heap == w.HeapAfter()
  {
    var c := Cursor(store.heap, context0, Undefined, prefix);
    ghost var start := c;
    var i := 0;
    while i < |parts|
      invariant 0 <= i <= |parts|
      invariant store.uidCounter == old(store.uidCounter)
      invariant c.heap == store.heap
      invariant Walk(ed, op, parts, i, extra, c) == Walk(ed, op, parts, 0, extra, start)
      decreases |parts| - i
    {
      var s := StepInPlace(store, ed, op, parts, i, extra, c);
      assert Walk(ed, op, parts, i, extra, c) == if s.Stop? then s else Walk(ed, op, parts, i + 1, extra, s.cursor);
      if s.Stop? {
        return s;
      }
      c := s.cursor;
      i := i + 1;
    }
    return Next(c);
  }

  /** One iteration of the loop of `prop`, for token `parts[i]`. */
  method StepInPlace(store: Store, ed: Edition, op: Op, parts: seq<string>, i: nat, extra: Value, c: Cursor)
    returns (s: StepResult)
    requires i < |parts| && c.heap == store.heap
    modifies store
    ensures store.uidCounter == old(store.uidCounter)
    ensures s == Step(ed, op, parts, i, extra, c)
    ensures store.heap == s.HeapAfter()
  {
    var context, last, finalPath := c.context, c.last, c.finalPath;
    var part := KeyOf(parts[i]);
    var read := Member(store.heap, context, part);
    if read.Throws? {
      return Stop(store.heap, Throws(read.error));
    }
    var prop := read.value;
    if op == Remove && i + 1 == |parts| {
      s := ClearInPlace(store, ed, context, part, extra, prop);
    } else if op == Set {
      s := SetStepInPlace(store, ed, parts, i, extra, Cursor(store.heap, context, last, finalPath), prop);
    } else if IsAbsent(store.heap, prop) {
      s := Stop(store.heap, Ok(extra));
    } else {
      s := Next(Cursor(store.heap, prop, prop, finalPath));
    }
  }

  /** `remove` at the last token, in place. */
  method ClearInPlace(store: Store, ed: Edition, context: Value, part: string, force: Value, prop: Value)
    returns (s: StepResult)
    modifies store
    ensures store.uidCounter == old(store.uidCounter)
    ensures s == Clear(ed, old(store.heap), context, part, force, prop)
    ensures store.heap == s.HeapAfter()
  {
    if ed == Dist && Truthy(context) && !IsExtensible(store.heap, context) {
      return Stop(store.heap, Ok(prop));
    }
    var cleared :=
      if StrictEquals(force, Bool(true)) then DeleteValue(store.heap, context, part)
      else PutValue(store.heap, context, part, Undefined);
    if cleared.Throws? {
      return Stop(store.heap, Throws(cleared.error));
    }
    store.heap := cleared.value;
    return Stop(store.heap, Ok(prop));
  }

  /** The `set` branch of one iteration, after `prop = context[part]`. */
  method SetStepInPlace(store: Store, ed: Edition, parts: seq<string>, i: nat, value: Value, c: Cursor,
                        prop: Value)
    returns (s: StepResult)
    requires i < |parts| && c.heap == store.heap
    modifies store
    ensures store.uidCounter == old(store.uidCounter)
    ensures s == SetStep(ed, parts, i, value, c, prop)
    ensures store.heap == s.HeapAfter()
  {
    var isLast := i + 1 == |parts|;
    var isIndex := IsBracketed(parts[i]);
    var part := KeyOf(parts[i]);
    if isLast || NeedsContainer(store.heap, prop) {
      var made := value;
      if !isLast {
        var nextIsArray := IsBracketed(parts[i + 1]);
        var grown := Alloc(store.heap, if nextIsArray then EmptyArray else EmptyObject);
        store.heap := grown.0;
        made := Ref(grown.1);
      }
      s := AttachInPlace(store, ed, c.context, part, isIndex, made, c.finalPath);
    } else {
      s := Next(Cursor(store.heap, prop, prop, c.finalPath + (if part != "" then [Segment(part, isIndex)] else [])));
    }
  }

  /** Stores or appends `made` in the context, in place. */
  method AttachInPlace(store: Store, ed: Edition, context: Value, part: string, isIndex: bool, made: Value,
                       finalPath: seq<string>)
    returns (s: StepResult)
    modifies store
    ensures store.uidCounter == old(store.uidCounter)
    ensures s == Attach(ed, old(store.heap), context, part, isIndex, made, finalPath)
    ensures store.heap == s.HeapAfter()
  {
    if IsArray(store.heap, context) && part == "" {
      if ed == Lib || IsExtensible(store.heap, context) {
        var pushed := Push(store.heap, context.addr, made);
        if pushed.Throws? {
          return Stop(store.heap, Throws(pushed.error));
        }
        store.heap := pushed.value.0;
        var index := NatToString(pushed.value.1);
        return Next(Cursor(store.heap, made, made, finalPath + [Segment(index, true)]));
      }
      return Next(Cursor(store.heap, context, made, finalPath));
    } else if part != "" {
      if ed == Lib || IsExtensible(store.heap, context) {
        var put := PutValue(store.heap, context, part, made);
        if put.Throws? {
          return Stop(store.heap, Throws(put.error));
        }
        store.heap := put.value;
      }
      return Next(Cursor(store.heap, made, made, finalPath + [Segment(part, isIndex)]));
    }
    return Next(Cursor(store.heap, context, made, finalPath));
  }
}

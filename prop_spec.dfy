/**
 * The path accessors `get`, `set` and `remove` and their `…Meta` and
 * `…MetaNS` variants, as one interpreter over the object heap: the setup
 * that picks the context (the node itself, its `_meta` record, or a
 * namespace inside `_meta`), the walk along the path tokens, and the audit
 * bookkeeping after a compound `set`. Both editions are modelled: `Dist`
 * (dist/utils.js, with its frozen-container checks) and `Lib`
 * (lib/utils.js, without them).
 */
module PropSpec {
  import opened JsCore
  import opened PathSyntax

  datatype Edition = Dist | Lib

  /** The operation, taken from the first letter of the command name. */
  datatype Op = Get | Set | Remove

  /** Which object the path is resolved against. */
  datatype Scope = Plain | Meta | MetaNS(namespace: string)

  /** What a call can change besides the heap: the counter behind `uid()`. */
  datatype State = State(heap: Heap, uidCounter: nat)

  /** The state after a call, together with its completion. */
  datatype Run<T> = Run(state: State, result: Result<T>)

  /** The error `set` raises on a context that is not an object. */
  const EmptyContextMessage: string := "Attempt to set on and empty context"

  /** `uid()` for a given counter value. */
  function Uid(counter: nat): (r: string)
    ensures |r| >= 2 && r[0] == 'U' && AllDigits(r[1..])
  {
    "U" + NatToString(counter)
  }

  /** Whether the hidden properties this edition defines are writable and configurable. */
  predicate HiddenWritable(ed: Edition) { ed == Dist }

  /** A value `get` replaces by the default: null, undefined, NaN or ±Infinity (boxed or not). */
  predicate IsAbsent(h: Heap, v: Value)
  {
    IsNullish(v) || IsNonFiniteNumber(h, v)
  }

  /** A value `set` replaces by a fresh container when the path goes on through it. */
  predicate NeedsContainer(h: Heap, v: Value)
  {
    IsNullish(v) || !IsObject(v) || IsBoxed(h, v)
  }

  // -------------------------------------------------------------------------
  // Setup: the meta record and the context
  // -------------------------------------------------------------------------

  /** `{_UID: uid, _aliases: aliases}` */
  function MetaRecord(uid: string, aliases: Addr): Obj
  {
    ObjectLiteral([("_UID", Str(uid)), ("_aliases", Ref(aliases))])
  }

  /**
   * `initMeta(node[, namespace])`: creates the hidden `_meta` record (with a
   * fresh UID) if the node has none, then, for a non-empty namespace, the
   * hidden namespace record inside it; yields the innermost record.
   */
  function InitMeta(ed: Edition, st: State, node: Value, namespace: Option<string>): (r: Run<Value>)
    ensures |r.state.heap| >= |st.heap|
  {
    match HasOwn(st.heap, node, "_meta")
    case Throws(e) => Run(st, Throws(e))
    case Ok(has) =>
      var first :=
        if has then Run(st, Member(st.heap, node, "_meta"))
        else
          var (h1, aliases) := Alloc(st.heap, EmptyObject);
          var (h2, meta) := Alloc(h1, MetaRecord(Uid(st.uidCounter), aliases));
          var st2 := State(h2, st.uidCounter + 1);
          match DefineHidden(h2, node, "_meta", Ref(meta), HiddenWritable(ed))
          case Throws(e) => Run(st2, Throws(e))
          case Ok(h3) => Run(State(h3, st2.uidCounter), Ok(Ref(meta)));
      if first.result.Throws? || namespace.None? || namespace.value == "" then first
      else
        var h := first.state.heap;
        var ns := namespace.value;
        match Member(h, node, "_meta")
        case Throws(e) => Run(first.state, Throws(e))
        case Ok(meta) =>
          match HasOwn(h, meta, ns)
          case Throws(e) => Run(first.state, Throws(e))
          case Ok(hasNs) =>
            if hasNs then Run(first.state, Member(h, first.result.value, ns))
            else
              var (h1, record) := Alloc(h, EmptyObject);
              match DefineHidden(h1, meta, ns, Ref(record), HiddenWritable(ed))
              case Throws(e) => Run(State(h1, first.state.uidCounter), Throws(e))
              case Ok(h2) => Run(State(h2, first.state.uidCounter), Ok(Ref(record)))
  }

  /** The context a command resolves its path against. */
  function Context(ed: Edition, scope: Scope, st: State, node: Value): (r: Run<Value>)
    ensures |r.state.heap| >= |st.heap|
  {
    match scope
    case Plain => Run(st, Ok(node))
    case Meta =>
      (match HasOwn(st.heap, node, "_meta")
       case Throws(e) => Run(st, Throws(e))
       case Ok(has) => if has then Run(st, Member(st.heap, node, "_meta")) else InitMeta(ed, st, node, None))
    case MetaNS(ns) =>
      match HasOwn(st.heap, node, "_meta")
      case Throws(e) => Run(st, Throws(e))
      case Ok(has) =>
        if !has then InitMeta(ed, st, node, Some(ns))
        else
          match Member(st.heap, node, "_meta")
          case Throws(e) => Run(st, Throws(e))
          case Ok(meta) =>
            match HasOwn(st.heap, meta, ns)
            case Throws(e) => Run(st, Throws(e))
            case Ok(hasNs) => if hasNs then Run(st, Member(st.heap, meta, ns)) else InitMeta(ed, st, node, Some(ns))
  }

  /** The segments the returned path starts with. */
  function ScopePrefix(scope: Scope): seq<string>
  {
    match scope
    case Plain => []
    case Meta => ["_meta"]
    case MetaNS(ns) => ["_meta", ns]
  }

  // -------------------------------------------------------------------------
  // The walk
  // -------------------------------------------------------------------------

  /** The loop variables of the walk: the heap, `context`, `prop` and `finalPath`. */
  datatype Cursor = Cursor(heap: Heap, context: Value, last: Value, finalPath: seq<string>)

  /** A step either hands the loop on, or ends the call with a completion. */
  datatype StepResult = Next(cursor: Cursor) | Stop(heap: Heap, result: Result<Value>)
  {
    /** The heap after the step. */
    function HeapAfter(): Heap
    {
      if Stop? then heap else cursor.heap
    }
  }

  /**
   * One iteration of the walk, for token `parts[i]`; `extra` is the argument
   * after the path (the value for `set`, the default for `get`, the force
   * flag for `remove`).
   */
  function Step(ed: Edition, op: Op, parts: seq<string>, i: nat, extra: Value, c: Cursor): (r: StepResult)
    requires i < |parts|
    ensures r.Next? ==> |r.cursor.heap| >= |c.heap|
    ensures r.Stop? ==> |r.heap| >= |c.heap|
  {
    var h := c.heap;
    var isLast := i + 1 == |parts|;
    var isIndex := IsBracketed(parts[i]);
    var part := KeyOf(parts[i]);
    match Member(h, c.context, part)
    case Throws(e) => Stop(h, Throws(e))
    case Ok(prop) =>
      if op == Remove && isLast then Clear(ed, h, c.context, part, extra, prop)
      else if op == Set then
        SetStep(ed, parts, i, extra, c, prop)
      else if IsAbsent(h, prop) then Stop(h, Ok(extra))
      else Next(c.(context := prop, last := prop))
  }

  /**
   * `remove` at the last token: unless `Dist` finds the context frozen, the
   * property is deleted when the flag is exactly `true` and set to
   * undefined otherwise; the completion is the value read before.
   */
  function Clear(ed: Edition, h: Heap, context: Value, part: string, force: Value, prop: Value): (r: StepResult)
    ensures r.Stop? && |r.heap| == |h|
  {
    if ed == Dist && Truthy(context) && !IsExtensible(h, context) then Stop(h, Ok(prop))
    else
      var cleared :=
        if StrictEquals(force, Bool(true)) then DeleteValue(h, context, part)
        else PutValue(h, context, part, Undefined);
      match cleared
      case Throws(e) => Stop(h, Throws(e))
      case Ok(h') => Stop(h', Ok(prop))
  }

  /** The `set` branch of a step, after `prop = context[part]`. */
  function SetStep(ed: Edition, parts: seq<string>, i: nat, value: Value, c: Cursor, prop: Value): (r: StepResult)
    requires i < |parts|
    ensures r.Next? ==> |r.cursor.heap| >= |c.heap|
    ensures r.Stop? ==> |r.heap| >= |c.heap|
  {
    var h := c.heap;
    var isLast := i + 1 == |parts|;
    var isIndex := IsBracketed(parts[i]);
    var part := KeyOf(parts[i]);
    if isLast || NeedsContainer(h, prop) then
      var nextIsArray := !isLast && IsBracketed(parts[i + 1]);
      var (h1, made) :=
        if isLast then (h, value)
        else
          var (h', a) := Alloc(h, if nextIsArray then EmptyArray else EmptyObject);
          (h', Ref(a));
      Attach(ed, h1, c.context, part, isIndex, made, c.finalPath)
    else
      Next(Cursor(h, prop, prop, c.finalPath + (if part != "" then [Segment(part, isIndex)] else [])))
  }

  /**
   * Stores `made` (the value, or a fresh container) under `part` of the
   * context, or appends it when the context is an array and `part` is
   * empty; `Dist` skips the write on a frozen context.
   */
  function Attach(ed: Edition, h: Heap, context: Value, part: string, isIndex: bool, made: Value,
                  finalPath: seq<string>): (r: StepResult)
    ensures r.Next? ==> |r.cursor.heap| >= |h|
    ensures r.Stop? ==> |r.heap| >= |h|
  {
    if IsArray(h, context) && part == "" then
      if ed == Lib || IsExtensible(h, context) then
        match Push(h, context.addr, made)
        case Throws(e) => Stop(h, Throws(e))
        case Ok((h2, index)) => Next(Cursor(h2, made, made, finalPath + [Segment(NatToString(index), true)]))
      else Next(Cursor(h, context, made, finalPath))
    else if part != "" then
      var grown := finalPath + [Segment(part, isIndex)];
      if ed == Lib || IsExtensible(h, context) then
        match PutValue(h, context, part, made)
        case Throws(e) => Stop(h, Throws(e))
        case Ok(h2) => Next(Cursor(h2, made, made, grown))
      else Next(Cursor(h, made, made, grown))
    else Next(Cursor(h, context, made, finalPath))
  }

  /** The walk from token `i` on: it stops with a completion, or runs out of tokens. */
  function Walk(ed: Edition, op: Op, parts: seq<string>, i: nat, extra: Value, c: Cursor): (r: StepResult)
    ensures r.Next? ==> |r.cursor.heap| >= |c.heap|
    ensures r.Stop? ==> |r.heap| >= |c.heap|
    decreases |parts| - i
  {
    if i >= |parts| then Next(c)
    else
      match Step(ed, op, parts, i, extra, c)
      case Stop(h, r) => Stop(h, r)
      case Next(c') => Walk(ed, op, parts, i + 1, extra, c')
  }

  // -------------------------------------------------------------------------
  // Audit
  // -------------------------------------------------------------------------

  /** `{created: t, modified: t, updateCount: 0}` */
  function AuditRecord(now: real): Obj
  {
    ObjectLiteral([("created", Number(Finite(now))), ("modified", Number(Finite(now))),
                   ("updateCount", Number(Finite(0.0)))])
  }

  /** `initAudit(node)`: defines the hidden `_audit` holding a `base` and a `_meta` record. */
  function InitAudit(ed: Edition, st: State, node: Value, now: real): (r: Run<()>)
    ensures |r.state.heap| >= |st.heap| && r.state.uidCounter == st.uidCounter
  {
    if ed == Dist && Truthy(node) && !IsExtensible(st.heap, node) then Run(st, Ok(()))
    else
      var (h1, base) := Alloc(st.heap, AuditRecord(now));
      var (h2, meta) := Alloc(h1, AuditRecord(now));
      var (h3, audit) := Alloc(h2, ObjectLiteral([("base", Ref(base)), ("_meta", Ref(meta))]));
      match DefineHidden(h3, node, "_audit", Ref(audit), HiddenWritable(ed))
      case Throws(e) => Run(State(h3, st.uidCounter), Throws(e))
      case Ok(h4) => Run(State(h4, st.uidCounter), Ok(()))
  }

  /** `m.modified = now; m.updateCount++` on the audit record `m`. */
  function Touch(h: Heap, m: Value, now: real): (r: Result<Heap>)
    ensures r.Ok? ==> |r.value| == |h|
  {
    match PutValue(h, m, "modified", Number(Finite(now)))
    case Throws(e) => Throws(e)
    case Ok(h1) =>
      match Member(h1, m, "updateCount")
      case Throws(e) => Throws(e)
      case Ok(count) => PutValue(h1, m, "updateCount", Number(Increment(ToNumber(h1, count))))
  }

  /**
   * The key of the audit record the source touches: `meta` for the meta
   * commands, although `initAudit` names that record `_meta`.
   */
  function AuditRecordKey(isMeta: bool): string
  {
    if isMeta then "meta" else "base"
  }

  /** The audit bookkeeping at the end of a compound `set`. */
  function Audit(ed: Edition, isMeta: bool, st: State, node: Value, now: real, recordKey: string): (r: Run<()>)
    ensures |r.state.heap| >= |st.heap| && r.state.uidCounter == st.uidCounter
  {
    match HasOwn(st.heap, node, "_audit")
    case Throws(e) => Run(st, Throws(e))
    case Ok(has) =>
      var init := if has then Run(st, Ok(())) else InitAudit(ed, st, node, now);
      if init.result.Throws? then init
      else TouchRecord(ed, init.state, node, now, recordKey)
  }

  /** After `initAudit`: stamps the record `node._audit[recordKey]` (`Dist` skips a falsy `_audit`). */
  function TouchRecord(ed: Edition, st: State, node: Value, now: real, recordKey: string): (r: Run<()>)
    ensures |r.state.heap| == |st.heap| && r.state.uidCounter == st.uidCounter
  {
    var h := st.heap;
    match Member(h, node, "_audit")
    case Throws(e) => Run(st, Throws(e))
    case Ok(audit) =>
      if ed == Dist && !Truthy(audit) then Run(st, Ok(()))
      else
        match Member(h, audit, recordKey)
        case Throws(e) => Run(st, Throws(e))
        case Ok(m) =>
          match Touch(h, m, now)
          case Throws(e) => Run(st, Throws(e))
          case Ok(h') => Run(State(h', st.uidCounter), Ok(()))
  }

  // -------------------------------------------------------------------------
  // A whole call
  // -------------------------------------------------------------------------

  /** A path without '.' or '[': one property of the context. */
  function SingleKey(ed: Edition, op: Op, h: Heap, context: Value, key: string, extra: Value,
                     clearedKey: string): (r: StepResult)
    ensures r.Stop? && |r.heap| == |h|
  {
    if op == Remove then
      match Member(h, context, key)
      case Throws(e) => Stop(h, Throws(e))
      case Ok(prop) =>
        if ed == Dist && Truthy(context) && !IsExtensible(h, context) then Stop(h, Ok(prop))
        else
          var cleared :=
            if StrictEquals(extra, Bool(true)) then DeleteValue(h, context, clearedKey)
            else PutValue(h, context, clearedKey, Undefined);
          match cleared
          case Throws(e) => Stop(h, Throws(e))
          case Ok(h') => Stop(h', Ok(prop))
    else if op == Set then
      if ed == Dist && !IsExtensible(h, context) then Stop(h, Ok(Str(key)))
      else
        match PutValue(h, context, key, extra)
        case Throws(e) => Stop(h, Throws(e))
        case Ok(h') => Stop(h', Ok(Str(key)))
    else
      match Member(h, context, key)
      case Throws(e) => Stop(h, Throws(e))
      case Ok(prop) => Stop(h, Ok(if IsAbsent(h, prop) then extra else prop))
  }

  /**
   * The key a single-segment `remove` clears: the source uses the variable
   * `part`, which only the compound branch assigns, so it is `undefined`
   * and the key written is "undefined".
   */
  const UnsetPartKey: string := "undefined"

  /** Whether `set` must refuse the context (only `Dist` checks). */
  predicate RefusesContext(ed: Edition, h: Heap, context: Value)
  {
    ed == Dist && (!IsObject(context) || IsBoxed(h, context))
  }

  /**
   * `prop(cmd, node, [namespace,] path, extra)`: the command `op` in
   * `scope`, with the clock reading `now` for the audit.
   */
  function Prop(ed: Edition, op: Op, scope: Scope, st: State, node: Value, path: Value, extra: Value,
                now: real): (r: Run<Value>)
    ensures |r.state.heap| >= |st.heap|
  {
    if ed == Lib && !IsObject(node) then Run(st, Ok(Undefined))
    else Scoped(ed, op, scope, st, node, path, extra, now)
  }

  /** `prop` past the `lib` guard on the node: the context of the scope, then the rest of the call from it. */
  function Scoped(ed: Edition, op: Op, scope: Scope, st: State, node: Value, path: Value, extra: Value,
                  now: real): (r: Run<Value>)
    ensures |r.state.heap| >= |st.heap|
  {
    var setup := Context(ed, scope, st, node);
    if setup.result.Throws? then Run(setup.state, Throws(setup.result.error))
    else InContext(ed, op, scope, setup.state, node, setup.result.value, path, extra, now)
  }

  /** The rest of `prop` once `context` is known: the guard on it, then the path as a string. */
  function InContext(ed: Edition, op: Op, scope: Scope, st: State, node: Value, context: Value, path: Value,
                     extra: Value, now: real): (r: Run<Value>)
    ensures |r.state.heap| >= |st.heap|
  {
    if RefusesContext(ed, st.heap, context) then
      Run(st, if op == Set then Throws(Raised(EmptyContextMessage)) else Ok(extra))
    else OnPath(ed, op, scope, st, node, context, ToString(st.heap, path), extra, now)
  }

  /** The command on the path string `fullPath`: nothing to do, one plain key, or the walk over the tokens. */
  function OnPath(ed: Edition, op: Op, scope: Scope, st: State, node: Value, context: Value, fullPath: string,
                  extra: Value, now: real): (r: Run<Value>)
    ensures |r.state.heap| >= |st.heap|
  {
    var h := st.heap;
    if fullPath == "" then
      Run(st, Ok(if op == Set then Str("") else if op == Remove then Undefined else extra))
    else if !IsCompound(fullPath) then
      var r := SingleKey(ed, op, h, context, fullPath, extra, UnsetPartKey);
      Run(State(r.heap, st.uidCounter), r.result)
    else
      Finish(ed, op, scope, st.uidCounter, node, extra, now,
             Walk(ed, op, Tokenize(fullPath), 0, extra, Cursor(h, context, Undefined, ScopePrefix(scope))))
  }

  /**
   * The end of a call on a compound path, once the walk `w` has run: a
   * stopped walk ends the call; otherwise `get` yields the last value (or
   * the default), and `set` and `remove` do the audit bookkeeping and yield
   * the path written and the value removed.
   */
  function Finish(ed: Edition, op: Op, scope: Scope, counter: nat, node: Value, extra: Value, now: real,
                  w: StepResult): (r: Run<Value>)
    ensures |r.state.heap| >= |w.HeapAfter()|
  {
    match w
    case Stop(h', r) => Run(State(h', counter), r)
    case Next(c) =>
      if op == Get then
        Run(State(c.heap, counter), Ok(if IsAbsent(c.heap, c.last) then extra else c.last))
      else
        var audit := Audit(ed, scope != Plain, State(c.heap, counter), node, now, AuditRecordKey(scope != Plain));
        Run(audit.state, Complete(op, c, audit.result))
  }

  /** The completion of a `set` or `remove` after the audit: the path written, or the value removed. */
  function Complete(op: Op, c: Cursor, audited: Result<()>): Result<Value>
  {
    if audited.Throws? then Throws(audited.error)
    else Ok(if op == Set then Str(RenderPath(c.finalPath)) else c.last)
  }
}

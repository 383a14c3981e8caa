/**
 * `get` and `remove` against a reference reading of the path: follow the
 * keys one by one from the context, stopping at the first value that is
 * null, undefined, NaN or infinite.
 */
module PropReads {
  import opened JsCore
  import opened PathSyntax
  import opened PropSpec
  import opened HeapFacts

  /** The key of every token. */
  function Keys(parts: seq<string>): (r: seq<string>)
    ensures |r| == |parts| && forall j :: 0 <= j < |parts| ==> r[j] == KeyOf(parts[j])
  {
    seq(|parts|, j requires 0 <= j < |parts| => KeyOf(parts[j]))
  }

  /** The keys a path addresses: its tokens' keys, or the whole path when it is a single key. */
  function PathKeys(path: string): (r: seq<string>)
    ensures |r| >= 1
  {
    if IsCompound(path) then Keys(Tokenize(path)) else [path]
  }

  /**
   * Follows `keys` from `v`: `None` when a value on the way (after at least
   * one key) is absent, the value reached otherwise; reading a key of null
   * or undefined throws.
   */
  function Resolve(h: Heap, v: Value, keys: seq<string>): (r: Result<Option<Value>>)
    ensures keys != [] && r.Ok? && r.value.Some? ==> !IsAbsent(h, r.value.value)
    decreases |keys|
  {
    if keys == [] then Ok(Some(v))
    else
      match Member(h, v, keys[0])
      case Throws(e) => Throws(e)
      case Ok(p) => if IsAbsent(h, p) then Ok(None) else Resolve(h, p, keys[1..])
  }

  /** The value at the end of `keys`, or the default `d` when the way is cut short. */
  function ReadPath(h: Heap, v: Value, keys: seq<string>, d: Value): Result<Value>
  {
    match Resolve(h, v, keys)
    case Throws(e) => Throws(e)
    case Ok(None) => Ok(d)
    case Ok(Some(x)) => Ok(x)
  }

  /** The `get` walk from token `i` is the reference reading of the remaining keys. */
  lemma {:induction false} GetWalkResolves(ed: Edition, parts: seq<string>, i: nat, d: Value, c: Cursor)
    requires i < |parts|
    ensures var w := Walk(ed, Get, parts, i, d, c);
            match Resolve(c.heap, c.context, Keys(parts)[i..])
            case Throws(e) => w == Stop(c.heap, Throws(e))
            case Ok(None) => w == Stop(c.heap, Ok(d))
            case Ok(Some(x)) => w == Next(c.(context := x, last := x))
    decreases |parts| - i
  {
    var keys := Keys(parts)[i..];
    assert keys[0] == KeyOf(parts[i]);
    assert keys[1..] == Keys(parts)[i + 1..];
    match Member(c.heap, c.context, KeyOf(parts[i]))
    case Throws(_) =>
    case Ok(p) =>
      if !IsAbsent(c.heap, p) {
        var c' := c.(context := p, last := p);
        assert Step(ed, Get, parts, i, d, c) == Next(c');
        assert Resolve(c.heap, c.context, keys) == Resolve(c.heap, p, keys[1..]);
        if i + 1 < |parts| {
          assert Walk(ed, Get, parts, i, d, c) == Walk(ed, Get, parts, i + 1, d, c');
          GetWalkResolves(ed, parts, i + 1, d, c');
        }
      }
  }

  /** Reading a single key: the value, or the default when it is absent. */
  lemma ReadOneKey(h: Heap, v: Value, k: string, d: Value)
    ensures ReadPath(h, v, [k], d)
            == match Member(h, v, k) case Throws(e) => Throws(e) case Ok(p) => Ok(if IsAbsent(h, p) then d else p)
  {
    assert [k][0] == k && [k][1..] == [];
    match Member(h, v, k)
    case Throws(_) =>
    case Ok(p) => assert Resolve(h, p, []) == Ok(Some(p));
  }

  /** On a compound path, the `get` walk and its finish read the path's keys. */
  lemma GetCompoundReads(ed: Edition, st: State, node: Value, path: string, d: Value, now: real)
    requires IsCompound(path)
    ensures Finish(ed, Get, Plain, st.uidCounter, node, d, now,
                   Walk(ed, Get, Tokenize(path), 0, d, Cursor(st.heap, node, Undefined, [])))
            == Run(st, ReadPath(st.heap, node, PathKeys(path), d))
  {
    var parts := Tokenize(path);
    assert Keys(parts)[0..] == Keys(parts);
    GetWalkResolves(ed, parts, 0, d, Cursor(st.heap, node, Undefined, []));
  }

  /**
   * `get(node, path, d)` on the node itself: `Lib` yields undefined for a
   * node that is not an object, `Dist` yields the default for a node that
   * is not an object or is a boxed primitive, an empty path yields the
   * default, and otherwise the result is the value at the end of the
   * path's keys, or the default as soon as a value on the way or at the end
   * is null, undefined, NaN or infinite. Nothing changes.
   */
  lemma GetReads(ed: Edition, st: State, node: Value, path: string, d: Value, now: real)
    ensures Prop(ed, Get, Plain, st, node, Str(path), d, now)
            == Run(st, if ed == Lib && !IsObject(node) then Ok(Undefined)
                       else if RefusesContext(ed, st.heap, node) || path == "" then Ok(d)
                       else ReadPath(st.heap, node, PathKeys(path), d))
  {
    if !(ed == Lib && !IsObject(node)) {
      assert Prop(ed, Get, Plain, st, node, Str(path), d, now)
          == InContext(ed, Get, Plain, st, node, node, Str(path), d, now);
      if !RefusesContext(ed, st.heap, node) {
        assert InContext(ed, Get, Plain, st, node, node, Str(path), d, now)
            == OnPath(ed, Get, Plain, st, node, node, path, d, now);
        if path != "" {
          GetOnPathReads(ed, st, node, path, d, now);
        }
      }
    }
  }

  /** A `get` on a non-empty path string from the node itself reads the path's keys. */
  lemma GetOnPathReads(ed: Edition, st: State, node: Value, path: string, d: Value, now: real)
    requires path != ""
    ensures OnPath(ed, Get, Plain, st, node, node, path, d, now) == Run(st, ReadPath(st.heap, node, PathKeys(path), d))
  {
    if IsCompound(path) {
      GetCompoundReads(ed, st, node, path, d, now);
    } else {
      ReadOneKey(st.heap, node, path, d);
    }
  }

  // -------------------------------------------------------------------------
  // remove
  // -------------------------------------------------------------------------

  /**
   * The reference `remove` along `keys`: read the parent along all keys but
   * the last, then clear the last key there; a parent cut short yields the
   * flag, as the source does.
   */
  function RemoveAlong(ed: Edition, h: Heap, v: Value, keys: seq<string>, force: Value): (r: StepResult)
    requires |keys| >= 1
    ensures r.Stop? && |r.heap| == |h|
  {
    var k := keys[|keys| - 1];
    match Resolve(h, v, keys[..|keys| - 1])
    case Throws(e) => Stop(h, Throws(e))
    case Ok(None) => Stop(h, Ok(force))
    case Ok(Some(x)) =>
      match Member(h, x, k)
      case Throws(e) => Stop(h, Throws(e))
      case Ok(p) => Clear(ed, h, x, k, force, p)
  }

  /** The `remove` walk from token `i` is the reference `remove` along the remaining keys. */
  lemma {:induction false} RemoveWalkResolves(ed: Edition, parts: seq<string>, i: nat, force: Value, c: Cursor)
    requires i < |parts|
    ensures Walk(ed, Remove, parts, i, force, c) == RemoveAlong(ed, c.heap, c.context, Keys(parts)[i..], force)
    decreases |parts| - i
  {
    var keys := Keys(parts)[i..];
    if i + 1 == |parts| {
      RemoveAlongLast(ed, c.heap, c.context, keys, force);
    } else {
      RemoveAlongStep(ed, c.heap, c.context, keys, force);
      assert keys[0] == KeyOf(parts[i]);
      assert keys[1..] == Keys(parts)[i + 1..];
      match Member(c.heap, c.context, KeyOf(parts[i]))
      case Throws(_) =>
      case Ok(p) =>
        if !IsAbsent(c.heap, p) {
          var c' := c.(context := p, last := p);
          assert Step(ed, Remove, parts, i, force, c) == Next(c');
          RemoveWalkResolves(ed, parts, i + 1, force, c');
        }
    }
  }

  /** The reference `remove` along one key clears it in `v`. */
  lemma RemoveAlongLast(ed: Edition, h: Heap, v: Value, keys: seq<string>, force: Value)
    requires |keys| == 1
    ensures RemoveAlong(ed, h, v, keys, force)
            == match Member(h, v, keys[0])
               case Throws(e) => Stop(h, Throws(e))
               case Ok(p) => Clear(ed, h, v, keys[0], force, p)
  {
    assert keys[..0] == [];
  }

  /** The reference `remove` along several keys reads the first one, then goes on from there. */
  lemma RemoveAlongStep(ed: Edition, h: Heap, v: Value, keys: seq<string>, force: Value)
    requires |keys| >= 2
    ensures RemoveAlong(ed, h, v, keys, force)
            == match Member(h, v, keys[0])
               case Throws(e) => Stop(h, Throws(e))
               case Ok(p) => if IsAbsent(h, p) then Stop(h, Ok(force)) else RemoveAlong(ed, h, p, keys[1..], force)
  {
    var parent := keys[..|keys| - 1];
    assert parent[0] == keys[0];
    assert parent[1..] == keys[1..][..|keys| - 2];
    assert keys[1..][|keys| - 2] == keys[|keys| - 1];
  }

  /**
   * `remove(node, path, force)` on the node itself, for a compound path:
   * the reference `remove` along the path's keys; the audit is never
   * reached, because the walk always stops at the last token.
   */
  lemma RemoveCompound(ed: Edition, st: State, node: Value, path: string, force: Value, now: real)
    requires !(ed == Lib && !IsObject(node)) && !RefusesContext(ed, st.heap, node) && IsCompound(path)
    ensures var r := RemoveAlong(ed, st.heap, node, PathKeys(path), force);
            Prop(ed, Remove, Plain, st, node, Str(path), force, now) == Run(State(r.heap, st.uidCounter), r.result)
  {
    var parts := Tokenize(path);
    assert Keys(parts)[0..] == Keys(parts);
    RemoveWalkResolves(ed, parts, 0, force, Cursor(st.heap, node, Undefined, []));
  }

  /**
   * What clearing key `k` of the object at `a` does: it completes with the
   * value read before; `Dist` leaves a non-extensible object as it is;
   * otherwise the key then reads undefined, and its slot is gone exactly
   * when the flag is `true` (strictly) and holds undefined otherwise; no
   * other object and no other key changes.
   */
  lemma ClearEffect(ed: Edition, h: Heap, a: Addr, k: string, force: Value, p: Value)
    requires a < |h| && k != "length"
    ensures var r := Clear(ed, h, Ref(a), k, force, p);
            r.result.Ok? ==>
              r.result.value == p && |r.heap| == |h|
              && (forall b :: 0 <= b < |h| && b != a ==> r.heap[b] == h[b])
              && if ed == Dist && !h[a].extensible then r.heap == h
                 else
                   ObjGet(r.heap[a], k) == Undefined
                   && (StrictEquals(force, Bool(true)) <==> k !in r.heap[a].slots)
                   && (forall k' :: k' != k && k' != "length" && !IsIndexKey(k') ==> ObjGet(r.heap[a], k') == ObjGet(h[a], k'))
  {
    var r := Clear(ed, h, Ref(a), k, force, p);
    if r.result.Ok? && !(ed == Dist && !h[a].extensible) {
      if StrictEquals(force, Bool(true)) {
        assert r.heap == Delete(h, a, k).value;
      } else {
        assert r.heap == Put(h, a, k, Undefined).value;
        PutKeepsOthers(h, a, k, Undefined);
      }
    }
  }

  /** The keys of a path but the last: where `remove` finds the parent. */
  function ParentKeys(path: string): seq<string>
  {
    var keys := PathKeys(path);
    keys[..|keys| - 1]
  }

  /** The last key of a path: the one `remove` clears. */
  function LastKey(path: string): string
  {
    var keys := PathKeys(path);
    keys[|keys| - 1]
  }

  /**
   * `remove` on a compound path whose parent is the object at `a`: it
   * completes with the value the key held before and changes nothing but
   * that object and not the counter (no audit); `Dist` leaves a
   * non-extensible parent as it is; otherwise the key then reads undefined,
   * and it is deleted exactly when the flag is `true` (strictly).
   */
  lemma RemoveClearsParent(ed: Edition, st: State, node: Value, path: string, force: Value, now: real, a: Addr)
    requires !(ed == Lib && !IsObject(node)) && !RefusesContext(ed, st.heap, node) && IsCompound(path)
    requires Resolve(st.heap, node, ParentKeys(path)) == Ok(Some(Ref(a))) && a < |st.heap| && LastKey(path) != "length"
    ensures var k := LastKey(path);
            var s := Prop(ed, Remove, Plain, st, node, Str(path), force, now);
            s.result.Ok? ==>
              s.result.value == Lookup(st.heap, a, k) && s.state.uidCounter == st.uidCounter
              && |s.state.heap| == |st.heap|
              && (forall b :: 0 <= b < |st.heap| && b != a ==> s.state.heap[b] == st.heap[b])
              && if ed == Dist && !st.heap[a].extensible then s.state.heap == st.heap
                 else ObjGet(s.state.heap[a], k) == Undefined
                      && (StrictEquals(force, Bool(true)) <==> k !in s.state.heap[a].slots)
  {
    RemoveCompound(ed, st, node, path, force, now);
    ClearEffect(ed, st.heap, a, LastKey(path), force, Lookup(st.heap, a, LastKey(path)));
  }

  /**
   * `remove` on a compound path whose parent cannot be reached (a value on
   * the way is absent) changes nothing and completes with the flag
   * argument itself, since the source returns the argument after the path.
   */
  lemma RemoveCutShort(ed: Edition, st: State, node: Value, path: string, force: Value, now: real)
    requires !(ed == Lib && !IsObject(node)) && !RefusesContext(ed, st.heap, node) && IsCompound(path)
    requires Resolve(st.heap, node, ParentKeys(path)) == Ok(None)
    ensures Prop(ed, Remove, Plain, st, node, Str(path), force, now) == Run(st, Ok(force))
  {
    RemoveCompound(ed, st, node, path, force, now);
  }

  /**
   * `remove` on a single key reads the key, then clears `clearedKey`
   * (which the source leaves at the unset variable's name).
   */
  lemma SingleRemove(ed: Edition, h: Heap, ctx: Value, key: string, force: Value, clearedKey: string)
    ensures SingleKey(ed, Remove, h, ctx, key, force, clearedKey)
            == match Member(h, ctx, key)
               case Throws(e) => Stop(h, Throws(e))
               case Ok(p) => Clear(ed, h, ctx, clearedKey, force, p)
  {
  }

  /**
   * Dist `get` and `remove` on a root that is not an object, or is a boxed
   * primitive, yield the argument after the path; `set` throws 'Attempt
   * to set on and empty context'. Nothing changes.
   */
  lemma DistRefusesRoot(op: Op, st: State, node: Value, path: Value, extra: Value, now: real)
    requires !IsObject(node) || IsBoxed(st.heap, node)
    ensures Prop(Dist, op, Plain, st, node, path, extra, now)
            == Run(st, if op == Set then Throws(Raised(EmptyContextMessage)) else Ok(extra))
  {
  }

  /** Lib on a root that is not an object: every command, in every scope, yields undefined and changes nothing. */
  lemma LibIgnoresNonObject(op: Op, scope: Scope, st: State, node: Value, path: Value, extra: Value, now: real)
    requires !IsObject(node)
    ensures Prop(Lib, op, scope, st, node, path, extra, now) == Run(st, Ok(Undefined))
  {
  }
}

/**
 * The collection helpers of dist/data.js and lib/data.js: `extract`,
 * `toLookup`, `clone` and the `TranslatorEngine` methods `filter`,
 * `stripKeys`/`stripValues`, `wrap` and `extract`. Each builds a fresh
 * result from its input without changing the input; the loops that build
 * the results are methods proved to compute the specification functions.
 */
module DataCollections {
  import opened JsCore
  import opened HeapFacts
  import opened PropSpec
  import opened PropReads
  import opened Predicates

  // -------------------------------------------------------------------------
  // Reading: `get(v, path)` and `v[k]`
  // -------------------------------------------------------------------------

  /** The keys a `get` path addresses, split once: none for the empty path. */
  function Route(h: Heap, path: Value): Option<seq<string>>
  {
    var p := ToString(h, path);
    if p == "" then None else Some(PathKeys(p))
  }

  /**
   * `get(v, path)` with no default, for the path's keys `route`: undefined
   * for a value the edition's `prop` refuses or an empty path, else the
   * value at the end of the keys, or undefined when the way is cut short.
   */
  function ReadRoute(ed: Edition, h: Heap, v: Value, route: Option<seq<string>>): Value
  {
    if ed == Lib && !IsObject(v) then Undefined
    else if RefusesContext(ed, h, v) then Undefined
    else match route
      case None => Undefined
      case Some(keys) =>
        match ReadPath(h, v, keys, Undefined)
        case Ok(x) => x
        case Throws(_) => Undefined
  }

  /** `get(v, path)` with no default. */
  function Read(ed: Edition, h: Heap, v: Value, path: Value): Value
  {
    ReadRoute(ed, h, v, Route(h, path))
  }

  /** Following keys from a value that is not null or undefined never throws. */
  lemma {:induction false} ResolvePresent(h: Heap, v: Value, keys: seq<string>)
    requires !IsNullish(v)
    ensures Resolve(h, v, keys).Ok?
    decreases |keys|
  {
    if keys != [] {
      var p := Member(h, v, keys[0]);
      if !IsAbsent(h, p.value) {
        ResolvePresent(h, p.value, keys[1..]);
      }
    }
  }

  /** `Read` is exactly the `get` of the accessors, which neither throws nor changes anything. */
  lemma ReadIsGet(ed: Edition, st: State, v: Value, path: Value, now: real)
    ensures Prop(ed, Get, Plain, st, v, path, Undefined, now) == Run(st, Ok(Read(ed, st.heap, v, path)))
  {
    if !(ed == Lib && !IsObject(v)) {
      PlainScope(ed, Get, st, v, path, Undefined, now);
      ReadInContext(ed, st, v, path, now);
    }
  }

  /** `get` from the node itself, past the `lib` guard, reads along the route of the path. */
  lemma ReadInContext(ed: Edition, st: State, v: Value, path: Value, now: real)
    requires !(ed == Lib && !IsObject(v))
    ensures InContext(ed, Get, Plain, st, v, v, path, Undefined, now) == Run(st, Ok(ReadRoute(ed, st.heap, v, Route(st.heap, path))))
  {
    if !RefusesContext(ed, st.heap, v) {
      var p := ToString(st.heap, path);
      assert InContext(ed, Get, Plain, st, v, v, path, Undefined, now)
          == OnPath(ed, Get, Plain, st, v, v, p, Undefined, now);
      if p != "" {
        ReadOnPath(ed, st, v, p, now);
      }
    }
  }

  /** `get` on a non-empty path string, from a context it accepts, reads the path's keys and never throws. */
  lemma ReadOnPath(ed: Edition, st: State, v: Value, p: string, now: real)
    requires !(ed == Lib && !IsObject(v)) && !RefusesContext(ed, st.heap, v) && p != ""
    ensures OnPath(ed, Get, Plain, st, v, v, p, Undefined, now) == Run(st, Ok(ReadRoute(ed, st.heap, v, Some(PathKeys(p)))))
  {
    GetOnPathReads(ed, st, v, p, Undefined, now);
    ResolvePresent(st.heap, v, PathKeys(p));
  }

  /** In the plain scope the context is the node itself. */
  lemma PlainScope(ed: Edition, op: Op, st: State, node: Value, path: Value, extra: Value, now: real)
    requires !(ed == Lib && !IsObject(node))
    ensures Prop(ed, op, Plain, st, node, path, extra, now) == InContext(ed, op, Plain, st, node, node, path, extra, now)
  {
    assert Context(ed, Plain, st, node) == Run(st, Ok(node));
  }

  /** `v[k]`, for a value that is not null or undefined. */
  function Elem(h: Heap, v: Value, k: string): Value
  {
    match Member(h, v, k)
    case Ok(x) => x
    case Throws(_) => Undefined
  }

  /**
   * The own enumerable keys of a value that is not null or undefined, in
   * the order both `Object.keys` and `for…in` (filtered by
   * `hasOwnProperty`) visit them.
   */
  function KeysFor(h: Heap, v: Value): seq<string>
  {
    match KeysOf(h, v)
    case Ok(ks) => ks
    case Throws(_) => []
  }

  /** Concatenation is associative (stated apart, where no term of the model is in sight). */
  lemma ConcatAssoc<T>(p: seq<T>, q: seq<T>, x: seq<T>)
    ensures (p + q) + x == p + (q + x)
  {
  }

  // -------------------------------------------------------------------------
  // extract(key, ...args)
  // -------------------------------------------------------------------------

  /** `get(arg[k], key)` for each key `k` of `ks` in turn. */
  function Picks(ed: Edition, h: Heap, route: Option<seq<string>>, arg: Value, ks: seq<string>): (r: seq<Value>)
    ensures |r| == |ks|
    decreases |ks|
  {
    if ks == [] then []
    else Picks(ed, h, route, arg, ks[..|ks| - 1]) + [ReadRoute(ed, h, Elem(h, arg, ks[|ks| - 1]), route)]
  }

  /** What `extract` pushes for one argument: nothing for a falsy one, else `get(arg[j], key)` per own key `j`. */
  function ExtractOne(ed: Edition, h: Heap, route: Option<seq<string>>, arg: Value): (r: seq<Value>)
    ensures |r| == if Truthy(arg) then |KeysFor(h, arg)| else 0
  {
    if !Truthy(arg) then [] else Picks(ed, h, route, arg, KeysFor(h, arg))
  }

  /** Entry `j` of `Picks` reads key `j`. */
  lemma {:induction false} PicksAt(ed: Edition, h: Heap, route: Option<seq<string>>, arg: Value, ks: seq<string>, j: nat)
    requires j < |ks|
    ensures Picks(ed, h, route, arg, ks)[j] == ReadRoute(ed, h, Elem(h, arg, ks[j]), route)
    decreases |ks|
  {
    if j < |ks| - 1 {
      var ks' := ks[..|ks| - 1];
      PicksAt(ed, h, route, arg, ks', j);
      assert ks'[j] == ks[j];
    }
  }

  /** `extract(key, ...args)`, with `route` the keys of `key`: the entries of every argument in turn. */
  function Extract(ed: Edition, h: Heap, route: Option<seq<string>>, args: seq<Value>): seq<Value>
    decreases |args|
  {
    if args == [] then []
    else Extract(ed, h, route, args[..|args| - 1]) + ExtractOne(ed, h, route, args[|args| - 1])
  }

  /** With one truthy argument, `extract` reads along the route from each of its own values in key order. */
  lemma ExtractSingle(ed: Edition, h: Heap, route: Option<seq<string>>, d: Value)
    requires Truthy(d)
    ensures Extract(ed, h, route, [d]) == Picks(ed, h, route, d, KeysFor(h, d))
  {
    assert [d][..0] == [];
    assert Extract(ed, h, route, [d]) == Extract(ed, h, route, []) + ExtractOne(ed, h, route, d);
  }

  /** `extract(key, ...args)`: the loops over the arguments and over the own keys of each truthy one. */
  method ExtractAll(ed: Edition, h: Heap, key: Value, args: seq<Value>) returns (r: seq<Value>)
    ensures r == Extract(ed, h, Route(h, key), args)
  {
    var route := Route(h, key);
    r := ExtractAlong(ed, h, route, args);
  }

  /** The outer loop of `extract` once the path is split into `route`: one argument at a time. */
  method ExtractAlong(ed: Edition, h: Heap, route: Option<seq<string>>, args: seq<Value>) returns (r: seq<Value>)
    ensures r == Extract(ed, h, route, args)
  {
    r := [];
    var i := 0;
    while i < |args|
      invariant 0 <= i <= |args|
      invariant r == Extract(ed, h, route, args[..i])
    {
      var arg := args[i];
      var picked: seq<Value> := [];
      if Truthy(arg) {
        picked := PickAll(ed, h, route, arg, KeysFor(h, arg));
      }
      ExtractStep(ed, h, route, args, i);
      r := r + picked;
      i := i + 1;
    }
    assert args[..i] == args;
  }

  /** `extract` over one more argument appends that argument's picks. */
  lemma ExtractStep(ed: Edition, h: Heap, route: Option<seq<string>>, args: seq<Value>, i: nat)
    requires i < |args|
    ensures Extract(ed, h, route, args[..i + 1]) == Extract(ed, h, route, args[..i]) + ExtractOne(ed, h, route, args[i])
  {
    assert args[..i + 1][..i] == args[..i];
  }

  /** The inner loop of `extract`: reads `route` off each element of `arg` in turn. */
  method PickAll(ed: Edition, h: Heap, route: Option<seq<string>>, arg: Value, ks: seq<string>) returns (r: seq<Value>)
    ensures r == Picks(ed, h, route, arg, ks)
  {
    r := [];
    var j := 0;
    while j < |ks|
      invariant 0 <= j <= |ks|
      invariant r == Picks(ed, h, route, arg, ks[..j])
    {
      assert ks[..j + 1][..j] == ks[..j];
      r := r + [ReadRoute(ed, h, Elem(h, arg, ks[j]), route)];
      j := j + 1;
    }
    assert ks[..j] == ks;
  }

  /** `extract(key, ...a, ...b)` is `extract(key, ...a)` followed by `extract(key, ...b)`. */
  lemma {:induction false} ExtractJoin(ed: Edition, h: Heap, route: Option<seq<string>>, a: seq<Value>, b: seq<Value>)
    ensures Extract(ed, h, route, a + b) == Extract(ed, h, route, a) + Extract(ed, h, route, b)
    decreases |b|
  {
    if b == [] {
      assert a + b == a;
    } else {
      var b' := b[..|b| - 1];
      var x := ExtractOne(ed, h, route, b[|b| - 1]);
      assert (a + b)[..|a + b| - 1] == a + b';
      assert (a + b)[|a + b| - 1] == b[|b| - 1];
      ExtractJoin(ed, h, route, a, b');
      var p, q := Extract(ed, h, route, a), Extract(ed, h, route, b');
      calc {
        Extract(ed, h, route, a + b);
        Extract(ed, h, route, a + b') + x;
        (p + q) + x;
        { ConcatAssoc(p, q, x); }
        p + (q + x);
        p + Extract(ed, h, route, b);
      }
    }
  }

  /** The entries of the arguments around `arg`, with those of `arg` between. */
  lemma ExtractAround(ed: Edition, h: Heap, route: Option<seq<string>>, before: seq<Value>, arg: Value,
                      after: seq<Value>)
    ensures Extract(ed, h, route, before + [arg] + after)
            == Extract(ed, h, route, before) + (ExtractOne(ed, h, route, arg) + Extract(ed, h, route, after))
  {
    ExtractJoin(ed, h, route, before + [arg], after);
    ExtractJoin(ed, h, route, before, [arg]);
    assert [arg][..0] == [];
    var x := ExtractOne(ed, h, route, arg);
    assert Extract(ed, h, route, [arg]) == x;
    ConcatAssoc(Extract(ed, h, route, before), x, Extract(ed, h, route, after));
  }

  /**
   * One entry per own key of each truthy argument, in order: the entry for
   * key `j` of argument `arg` is `get(arg[j], key)` (with `route` the keys
   * of `key`) and sits after the entries of all earlier arguments.
   */
  lemma ExtractEntry(ed: Edition, h: Heap, route: Option<seq<string>>, before: seq<Value>, arg: Value,
                     after: seq<Value>, j: nat)
    requires Truthy(arg) && j < |KeysFor(h, arg)|
    ensures var r := Extract(ed, h, route, before + [arg] + after);
            var n := |Extract(ed, h, route, before)|;
            |r| > n + j && r[n + j] == ReadRoute(ed, h, Elem(h, arg, KeysFor(h, arg)[j]), route)
  {
    OneAt(ed, h, route, arg, j);
    ExtractAround(ed, h, route, before, arg, after);
    IndexAfter(Extract(ed, h, route, before + [arg] + after), Extract(ed, h, route, before),
               ExtractOne(ed, h, route, arg), Extract(ed, h, route, after), j,
               ReadRoute(ed, h, Elem(h, arg, KeysFor(h, arg)[j]), route));
  }

  /** The picks of a truthy argument are read off its own keys in order. */
  lemma OneAt(ed: Edition, h: Heap, route: Option<seq<string>>, arg: Value, j: nat)
    requires Truthy(arg) && j < |KeysFor(h, arg)|
    ensures |ExtractOne(ed, h, route, arg)| > j
    ensures ExtractOne(ed, h, route, arg)[j] == ReadRoute(ed, h, Elem(h, arg, KeysFor(h, arg)[j]), route)
  {
    PicksAt(ed, h, route, arg, KeysFor(h, arg), j);
  }

  /** Element `j` of `q` sits at `|p| + j` in `r == p + (q + x)`. */
  lemma IndexAfter<T>(r: seq<T>, p: seq<T>, q: seq<T>, x: seq<T>, j: nat, v: T)
    requires r == p + (q + x) && j < |q| && q[j] == v
    ensures |r| > |p| + j && r[|p| + j] == v
  {
  }

  /** A falsy argument adds no entry. */
  lemma ExtractSkipsFalsy(ed: Edition, h: Heap, route: Option<seq<string>>, before: seq<Value>, arg: Value,
                          after: seq<Value>)
    requires !Truthy(arg)
    ensures Extract(ed, h, route, before + [arg] + after)
            == Extract(ed, h, route, before) + Extract(ed, h, route, after)
  {
    ExtractAround(ed, h, route, before, arg, after);
    assert ExtractOne(ed, h, route, arg) + Extract(ed, h, route, after) == Extract(ed, h, route, after);
  }

  // -------------------------------------------------------------------------
  // toLookup(key, data)
  // -------------------------------------------------------------------------

  /** How `toLookup` finds the id of an element: `get(v, key)` for a truthy `key`, else `'' + v`. */
  datatype IdRule = ByPath(route: Option<seq<string>>) | ByText

  function RuleOf(h: Heap, key: Value): IdRule
  {
    if Truthy(key) then ByPath(Route(h, key)) else ByText
  }

  /** The id `toLookup` files `v` under. */
  function IdOf(ed: Edition, h: Heap, rule: IdRule, v: Value): Value
  {
    match rule
    case ByPath(route) => ReadRoute(ed, h, v, route)
    case ByText => Str(ToString(h, v))
  }

  /** The writes `obj[id] = v` of `toLookup` for the keys `ks` of `data`, in order; falsy ids are skipped. */
  function LookupEntries(ed: Edition, h: Heap, rule: IdRule, data: Value, ks: seq<string>): seq<(string, Value)>
    decreases |ks|
  {
    if ks == [] then []
    else
      var v := Elem(h, data, ks[|ks| - 1]);
      var id := IdOf(ed, h, rule, v);
      LookupEntries(ed, h, rule, data, ks[..|ks| - 1]) + if Truthy(id) then [(ToString(h, id), v)] else []
  }

  /** `toLookup(key, data)` with the id rule of `key`: a fresh object, empty for falsy data. */
  function ToLookup(ed: Edition, h: Heap, rule: IdRule, data: Value): Obj
  {
    if !Truthy(data) then EmptyObject
    else ObjectLiteral(LookupEntries(ed, h, rule, data, KeysFor(h, data)))
  }

  /** The loop of `toLookup`, filling a fresh object. */
  method ToLookupLoop(ed: Edition, h: Heap, key: Value, data: Value) returns (obj: Obj)
    ensures obj == ToLookup(ed, h, RuleOf(h, key), data)
  {
    var rule := RuleOf(h, key);
    obj := FileAll(ed, h, rule, data);
  }

  /** The loop of `toLookup` once the id rule is known. */
  method FileAll(ed: Edition, h: Heap, rule: IdRule, data: Value) returns (obj: Obj)
    ensures obj == ToLookup(ed, h, rule, data)
  {
    if !Truthy(data) {
      return EmptyObject;
    }
    var ks := KeysFor(h, data);
    obj := EmptyObject;
    var i := 0;
    while i < |ks|
      invariant 0 <= i <= |ks|
      invariant obj == ObjectLiteral(LookupEntries(ed, h, rule, data, ks[..i]))
    {
      var v := Elem(h, data, ks[i]);
      var id := IdOf(ed, h, rule, v);
      FileStep(ed, h, rule, data, ks, i);
      if Truthy(id) {
        obj := AddSlot(obj, ToString(h, id), v);
      }
      i := i + 1;
    }
    assert ks[..i] == ks;
  }

  /** Filing one more element adds its slot when its id is truthy and changes nothing otherwise. */
  lemma FileStep(ed: Edition, h: Heap, rule: IdRule, data: Value, ks: seq<string>, i: nat)
    requires i < |ks|
    ensures var v := Elem(h, data, ks[i]);
            var id := IdOf(ed, h, rule, v);
            var o := ObjectLiteral(LookupEntries(ed, h, rule, data, ks[..i]));
            ObjectLiteral(LookupEntries(ed, h, rule, data, ks[..i + 1]))
            == if Truthy(id) then AddSlot(o, ToString(h, id), v) else o
  {
    assert ks[..i + 1][..i] == ks[..i];
    var v := Elem(h, data, ks[i]);
    var id := IdOf(ed, h, rule, v);
    var es := LookupEntries(ed, h, rule, data, ks[..i]);
    if Truthy(id) {
      assert (es + [(ToString(h, id), v)])[..|es|] == es;
    } else {
      assert es + [] == es;
    }
  }

  /** Whether the element at key `k` of `data` is filed under `id`. */
  predicate Files(ed: Edition, h: Heap, rule: IdRule, data: Value, k: string, id: string)
  {
    var x := IdOf(ed, h, rule, Elem(h, data, k));
    Truthy(x) && ToString(h, x) == id
  }

  /** The position in `ks` of the last element filed under `id`, or -1. */
  function LastFiled(ed: Edition, h: Heap, rule: IdRule, data: Value, ks: seq<string>, id: string): (i: int)
    ensures -1 <= i < |ks|
    ensures i >= 0 ==> Files(ed, h, rule, data, ks[i], id)
    ensures forall j :: i < j < |ks| ==> !Files(ed, h, rule, data, ks[j], id)
    decreases |ks|
  {
    if ks == [] then -1
    else if Files(ed, h, rule, data, ks[|ks| - 1], id) then |ks| - 1
    else LastFiled(ed, h, rule, data, ks[..|ks| - 1], id)
  }

  /** The object written by the writes `ks` of `toLookup` holds `id` exactly when an element is filed under it, with the last such element as its value. */
  lemma {:induction false} LookupEntriesFile(ed: Edition, h: Heap, rule: IdRule, data: Value, ks: seq<string>, id: string)
    ensures var o := ObjectLiteral(LookupEntries(ed, h, rule, data, ks));
            var i := LastFiled(ed, h, rule, data, ks, id);
            (id in o.slots <==> i >= 0) && (i >= 0 ==> o.slots[id].value == Elem(h, data, ks[i]))
    decreases |ks|
  {
    if ks != [] {
      var n := |ks| - 1;
      var ks' := ks[..n];
      LookupEntriesFile(ed, h, rule, data, ks', id);
      FileStep(ed, h, rule, data, ks, n);
      assert ks[..n + 1] == ks;
      var v := Elem(h, data, ks[n]);
      var x := IdOf(ed, h, rule, v);
      FiledSlot(ObjectLiteral(LookupEntries(ed, h, rule, data, ks')), Truthy(x), ToString(h, x), v, id);
      assert Files(ed, h, rule, data, ks[n], id) <==> Truthy(x) && ToString(h, x) == id;
      var i' := LastFiled(ed, h, rule, data, ks', id);
      if i' >= 0 {
        assert ks[i'] == ks'[i'];
      }
    }
  }

  /** Whether a write `o[key] = v`, made only when `t`, leaves `id` present, and with which value. */
  lemma FiledSlot(o: Obj, t: bool, key: string, v: Value, id: string)
    ensures var o' := if t then AddSlot(o, key, v) else o;
            (id in o'.slots <==> (t && key == id) || id in o.slots)
            && (id in o'.slots ==> o'.slots[id].value == if t && key == id then v else o.slots[id].value)
  {
  }

  /**
   * `toLookup(key, data)` holds an id exactly when some element of `data`
   * has that truthy id under the rule of `key` (`get(v, key)`, or `'' + v`
   * for a falsy key); the value there is the last such element, so falsy
   * ids are skipped and a later duplicate overwrites an earlier one. Falsy
   * data gives `{}`.
   */
  lemma ToLookupLastWins(ed: Edition, h: Heap, rule: IdRule, data: Value, id: string)
    ensures var o := ToLookup(ed, h, rule, data);
            var ks := KeysFor(h, data);
            var i := LastFiled(ed, h, rule, data, ks, id);
            o.kind == PlainObject
            && (id in o.slots <==> Truthy(data) && i >= 0)
            && (Truthy(data) && i >= 0 ==> o.slots[id].value == Elem(h, data, ks[i]))
  {
    if Truthy(data) {
      LookupEntriesFile(ed, h, rule, data, KeysFor(h, data), id);
    }
  }

  // -------------------------------------------------------------------------
  // Fresh objects and arrays
  // -------------------------------------------------------------------------

  /** A callback `f(element, key, collection)`, given the heap it reads. */
  type Callback = (Heap, Value, Value, Value) -> Value

  /** The entries `(k, d[k])` for the keys `k` of `ks` on which `f(d[k], k, d)` is exactly `true`. */
  function SelectEntries(h: Heap, d: Value, f: Callback, ks: seq<string>): seq<(string, Value)>
    decreases |ks|
  {
    if ks == [] then []
    else
      var k := ks[|ks| - 1];
      var v := Elem(h, d, k);
      SelectEntries(h, d, f, ks[..|ks| - 1]) + if f(h, v, Str(k), d) == Bool(true) then [(k, v)] else []
  }

  /**
   * The object the entries `SelectEntries(h, d, f, ks)` build holds exactly
   * the keys of `ks` that `f` accepts, each with its value in `d`.
   */
  lemma {:induction false} SelectedObject(h: Heap, d: Value, f: Callback, ks: seq<string>, k: string)
    ensures var o := ObjectLiteral(SelectEntries(h, d, f, ks));
            (k in o.slots <==> k in ks && f(h, Elem(h, d, k), Str(k), d) == Bool(true))
            && (k in o.slots ==> o.slots[k].value == Elem(h, d, k))
    decreases |ks|
  {
    if ks != [] {
      var ks' := ks[..|ks| - 1];
      var last := ks[|ks| - 1];
      var es := SelectEntries(h, d, f, ks');
      SelectedObject(h, d, f, ks', k);
      if f(h, Elem(h, d, last), Str(last), d) == Bool(true) {
        assert (es + [(last, Elem(h, d, last))])[..|es|] == es;
      } else {
        assert es + [] == es;
      }
      assert ks == ks' + [last];
    }
  }

  /** The loop of the object branch of `filter`, filling a fresh object with the accepted entries. */
  method SelectLoop(h: Heap, d: Value, f: Callback, ks: seq<string>) returns (obj: Obj)
    ensures obj == ObjectLiteral(SelectEntries(h, d, f, ks))
  {
    obj := EmptyObject;
    var i := 0;
    while i < |ks|
      invariant 0 <= i <= |ks|
      invariant obj == ObjectLiteral(SelectEntries(h, d, f, ks[..i]))
    {
      var k := ks[i];
      var v := Elem(h, d, k);
      SelectStep(h, d, f, ks, i);
      if f(h, v, Str(k), d) == Bool(true) {
        obj := AddSlot(obj, k, v);
      }
      i := i + 1;
    }
    assert ks[..i] == ks;
  }

  /** Selecting over one more key adds its entry when `f` accepts it and changes nothing otherwise. */
  lemma SelectStep(h: Heap, d: Value, f: Callback, ks: seq<string>, i: nat)
    requires i < |ks|
    ensures var k := ks[i];
            var v := Elem(h, d, k);
            var o := ObjectLiteral(SelectEntries(h, d, f, ks[..i]));
            ObjectLiteral(SelectEntries(h, d, f, ks[..i + 1]))
            == if f(h, v, Str(k), d) == Bool(true) then AddSlot(o, k, v) else o
  {
    assert ks[..i + 1][..i] == ks[..i];
    var k := ks[i];
    var v := Elem(h, d, k);
    var es := SelectEntries(h, d, f, ks[..i]);
    if f(h, v, Str(k), d) == Bool(true) {
      assert (es + [(k, v)])[..|es|] == es;
    } else {
      assert es + [] == es;
    }
  }

  /** Whether `k` is an array index below `n`. */
  predicate IndexBelow(k: string, n: nat)
  {
    IsIndexKey(k) && DigitsValue(k) < n
  }

  /** A fresh dense array holding `vals`, as repeated `push` builds it. */
  function ArrayLiteral(vals: seq<Value>): (o: Obj)
    ensures o.kind == ArrayObject && o.extensible && o.lengthWritable && o.length == |vals|
    decreases |vals|
  {
    if vals == [] then EmptyArray
    else AddSlot(ArrayLiteral(vals[..|vals| - 1]), NatToString(|vals| - 1), vals[|vals| - 1]).(length := |vals|)
  }

  /** Index `i` of `ArrayLiteral(vals)` holds `vals[i]`. */
  lemma {:induction false} ArrayLiteralAt(vals: seq<Value>, i: nat)
    requires i < |vals|
    ensures var o := ArrayLiteral(vals);
            NatToString(i) in o.slots && ObjGet(o, NatToString(i)) == vals[i]
    decreases |vals|
  {
    var n := |vals| - 1;
    IndexKeyIsNotNamed(i);
    if i < n {
      ArrayLiteralAt(vals[..n], i);
      NatToStringRoundTrip(i);
      NatToStringRoundTrip(n);
    }
  }

  /** `ArrayLiteral(vals)` has no key but the indices below `|vals|`. */
  lemma {:induction false} ArrayLiteralKeys(vals: seq<Value>, k: string)
    requires k in ArrayLiteral(vals).slots
    ensures IndexBelow(k, |vals|)
    decreases |vals|
  {
    var n := |vals| - 1;
    if k == NatToString(n) {
      NatToStringRoundTrip(n);
    } else {
      ArrayLiteralKeys(vals[..n], k);
    }
  }

  // -------------------------------------------------------------------------
  // clone(val)
  // -------------------------------------------------------------------------

  /**
   * Whether `clone` copies `v` with `Object.assign({}, v)`: a plain object
   * whose `constructor` is `Object`'s, that is one without an own
   * `constructor` key.
   */
  predicate IsPlainRecord(h: Heap, v: Value)
  {
    v.Ref? && v.addr < |h| && h[v.addr].kind.PlainObject? && "constructor" !in h[v.addr].slots
  }

  /** The callback that accepts everything. */
  function KeepAll(): Callback
  {
    (h: Heap, elem: Value, key: Value, d: Value) => Bool(true)
  }

  /** `arr.slice()`: a fresh array of the same length with the same values at the indices it holds below it. */
  function Slice(o: Obj): Obj
  {
    Obj(ArrayObject, true, Without(o.order, k => !IndexBelow(k, o.length)),
        map k | k in o.slots && IndexBelow(k, o.length) :: Slot(o.slots[k].value, true, true, true),
        o.length, true)
  }

  /**
   * `clone(val)`: a fresh copy of an array, the primitive inside a boxed
   * string, number or boolean, a fresh shallow copy of a plain object, and
   * any other value itself.
   */
  function Clone(h: Heap, v: Value): (r: (Heap, Value))
  {
    if IsArray(h, v) then
      var (h', a) := Alloc(h, Slice(h[v.addr]));
      (h', Ref(a))
    else
      match KindOf(h, v)
      case Some(BoxedString(t)) => (h, Str(t))
      case Some(BoxedNumber(n)) => (h, Number(n))
      case Some(BoxedBool(b)) => (h, Bool(b))
      case _ =>
        if IsPlainRecord(h, v) then
          var (h', a) := Alloc(h, ObjectLiteral(SelectEntries(h, v, KeepAll(), KeysFor(h, v))));
          (h', Ref(a))
        else (h, v)
  }

  /** `clone` never changes an existing object: it at most allocates the copy. */
  lemma CloneAllocatesOnly(h: Heap, v: Value)
    ensures var (h', c) := Clone(h, v);
            |h'| >= |h| && h'[..|h|] == h
            && (h' != h <==> IsArray(h, v) || IsPlainRecord(h, v))
            && (h' != h ==> |h'| == |h| + 1 && c == Ref(|h|))
  {
    var (h', c) := Clone(h, v);
    if IsArray(h, v) || IsPlainRecord(h, v) {
      assert h'[..|h|] == h;
      assert |h'| != |h|;
    }
  }

  /**
   * The copy of an array has its length and holds exactly its indices below
   * the length, with the same values; holes stay holes and other keys are
   * not copied.
   */
  lemma CloneArray(h: Heap, v: Value, k: string)
    requires IsArray(h, v)
    ensures var (h', c) := Clone(h, v);
            var o := h[v.addr];
            c == Ref(|h|) && |h'| == |h| + 1 && h'[|h|].kind.ArrayObject? && h'[|h|].length == o.length
            && (k in h'[|h|].slots <==> k in o.slots && IndexBelow(k, o.length))
            && (k in h'[|h|].slots ==> ObjGet(h'[|h|], k) == ObjGet(o, k))
  {
    if k == "length" {
      assert !IsIndexKey(k);
    }
  }

  /** A boxed string, number or boolean clones to the primitive it holds. */
  lemma CloneUnboxes(h: Heap, v: Value)
    requires IsBoxed(h, v)
    ensures Clone(h, v) == (h, match h[v.addr].kind
                               case BoxedString(t) => Str(t)
                               case BoxedNumber(n) => Number(n)
                               case BoxedBool(b) => Bool(b)
                               case _ => v)
  {
  }

  /**
   * The copy of a plain object holds exactly the keys `Object.keys` gives
   * for it, each with its value there.
   */
  lemma ClonePlain(h: Heap, v: Value, k: string)
    requires IsPlainRecord(h, v)
    ensures var (h', c) := Clone(h, v);
            c == Ref(|h|) && |h'| == |h| + 1 && h'[|h|].kind.PlainObject?
            && (k in h'[|h|].slots <==> k in KeysFor(h, v))
            && (k in h'[|h|].slots ==> h'[|h|].slots[k].value == Elem(h, v, k))
  {
    SelectedObject(h, v, KeepAll(), KeysFor(h, v), k);
  }
}


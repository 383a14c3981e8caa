/**
 * What a `set` walk does to the heap, and why a `get` along the same path
 * then finds the value: the walk moves through existing objects without
 * writing, writes once into the last existing object it reaches, and from
 * there on only writes into the containers it has just created.
 */
module PropWalk {
  import opened JsCore
  import opened PathSyntax
  import opened PropSpec
  import opened HeapFacts

  /** A token `set` and `get` treat alike: a non-empty key other than `length` and `_audit`. */
  predicate TokenOk(t: string)
  {
    var k := KeyOf(t);
    k != "" && k != "length" && k != "_audit"
  }

  predicate TokensOk(parts: seq<string>, i: nat)
  {
    forall j :: i <= j < |parts| ==> TokenOk(parts[j])
  }

  /** The segments `set` records for the tokens from `i` on, when every key is non-empty. */
  function Segments(parts: seq<string>, i: nat): (r: seq<string>)
    ensures |r| == if i <= |parts| then |parts| - i else 0
    decreases |parts| - i
  {
    if i >= |parts| then [] else [Segment(KeyOf(parts[i]), IsBracketed(parts[i]))] + Segments(parts, i + 1)
  }

  /** The existing objects a `set` walk passes through, from token `i` on, ending with the one it writes into. */
  function Visits(h: Heap, ctx: Value, parts: seq<string>, i: nat): seq<Addr>
    decreases |parts| - i
  {
    if i >= |parts| || !ctx.Ref? then []
    else
      var p := Lookup(h, ctx.addr, KeyOf(parts[i]));
      [ctx.addr] + (if i + 1 < |parts| && !NeedsContainer(h, p) && p.Ref? then Visits(h, p, parts, i + 1) else [])
  }

  /**
   * A `set` from token `i` that writes where it means to: it passes through
   * objects (never twice the same one), and the object it writes into takes
   * the key.
   */
  predicate SetSafe(h: Heap, ctx: Value, parts: seq<string>, i: nat)
    decreases |parts| - i
  {
    i < |parts| && ctx.Ref? && ctx.addr < |h|
    && var k := KeyOf(parts[i]);
       var p := Lookup(h, ctx.addr, k);
       if i + 1 < |parts| && !NeedsContainer(h, p) then
         p.Ref? && SetSafe(h, p, parts, i + 1) && ctx.addr !in Visits(h, p, parts, i + 1)
       else Writable(h[ctx.addr], k)
  }

  /** A container `set` has just created. */
  predicate IsEmptyContainer(o: Obj) { o == EmptyObject || o == EmptyArray }

  /** `H` extends `h` and keeps the kind of every object of `h`. */
  predicate KindsKept(h: Heap, H: Heap)
  {
    |H| >= |h| && forall b :: 0 <= b < |h| ==> H[b].kind == h[b].kind
  }

  /** `H` extends `h` and keeps every `_audit` slot of `h`. */
  predicate AuditKept(h: Heap, H: Heap)
  {
    |H| >= |h| && forall b :: 0 <= b < |h| ==> SlotOf(H[b], "_audit") == SlotOf(h[b], "_audit")
  }

  /**
   * What a `get` can observe: `H2` keeps the kinds of `H`, and every key but
   * `_audit` of the objects in `visits` and of those from address `n` on.
   */
  ghost predicate Agrees(H2: Heap, H: Heap, visits: seq<Addr>, n: nat)
  {
    KindsKept(H, H2)
    && forall b, k :: 0 <= b < |H| && (b in visits || b >= n) && k != "_audit" ==> ObjGet(H2[b], k) == ObjGet(H[b], k)
  }

  /** What `get` yields for a value found at the end of its path. */
  function Found(h: Heap, v: Value, extra: Value, fp: seq<string>): StepResult
  {
    if IsAbsent(h, v) then Stop(h, Ok(extra)) else Next(Cursor(h, v, v, fp))
  }

  // -------------------------------------------------------------------------
  // One step of each walk
  // -------------------------------------------------------------------------

  /** The container `set` creates for token `i`: an array when the next token is bracketed. */
  function NewContainer(parts: seq<string>, i: nat): Obj
    requires i + 1 < |parts|
  {
    if IsBracketed(parts[i + 1]) then EmptyArray else EmptyObject
  }

  /**
   * `H` is `h` with `x` stored under `k` of the object at `a`, which keeps
   * its kind and its `_audit` slot; nothing else changed.
   */
  predicate Stored(h: Heap, H: Heap, a: Addr, k: string, x: Value)
  {
    |H| == |h| && a < |h| && H[a].kind == h[a].kind && ObjGet(H[a], k) == x
    && SlotOf(H[a], "_audit") == SlotOf(h[a], "_audit")
    && forall b :: 0 <= b < |h| && b != a ==> H[b] == h[b]
  }

  /** A step that hands on the cursor continues the walk from the next token. */
  lemma WalkOn(ed: Edition, op: Op, parts: seq<string>, i: nat, extra: Value, c: Cursor)
    requires i < |parts| && Step(ed, op, parts, i, extra, c).Next?
    ensures Walk(ed, op, parts, i, extra, c) == Walk(ed, op, parts, i + 1, extra, Step(ed, op, parts, i, extra, c).cursor)
  {
  }

  /** A `set` step through an object that holds a container under the key: no write. */
  lemma StepMoves(ed: Edition, parts: seq<string>, i: nat, value: Value, c: Cursor)
    requires i + 1 < |parts| && c.context.Ref? && KeyOf(parts[i]) != ""
    requires !NeedsContainer(c.heap, Lookup(c.heap, c.context.addr, KeyOf(parts[i])))
    ensures var p := Lookup(c.heap, c.context.addr, KeyOf(parts[i]));
            Step(ed, Set, parts, i, value, c)
            == Next(Cursor(c.heap, p, p, c.finalPath + [Segment(KeyOf(parts[i]), IsBracketed(parts[i]))]))
  {
  }

  /** The last `set` step into an object that takes the key: the value is stored. */
  lemma StepStores(ed: Edition, parts: seq<string>, i: nat, value: Value, c: Cursor)
    requires i + 1 == |parts| && c.context.Ref? && c.context.addr < |c.heap|
    requires TokenOk(parts[i]) && Writable(c.heap[c.context.addr], KeyOf(parts[i]))
    ensures Put(c.heap, c.context.addr, KeyOf(parts[i]), value).Ok?
    ensures var h2 := Put(c.heap, c.context.addr, KeyOf(parts[i]), value).value;
            Step(ed, Set, parts, i, value, c)
            == Next(Cursor(h2, value, value, c.finalPath + [Segment(KeyOf(parts[i]), IsBracketed(parts[i]))]))
            && Stored(c.heap, h2, c.context.addr, KeyOf(parts[i]), value)
  {
    PutStores(c.heap, c.context.addr, KeyOf(parts[i]), value);
  }

  /**
   * A `set` step, not the last, into an object whose key holds no container:
   * a new container is stored under the key and becomes the context.
   */
  lemma StepCreates(ed: Edition, parts: seq<string>, i: nat, value: Value, c: Cursor)
    requires i + 1 < |parts| && c.context.Ref? && c.context.addr < |c.heap|
    requires TokenOk(parts[i]) && Writable(c.heap[c.context.addr], KeyOf(parts[i]))
    requires NeedsContainer(c.heap, Lookup(c.heap, c.context.addr, KeyOf(parts[i])))
    ensures var h1 := c.heap + [NewContainer(parts, i)];
            Put(h1, c.context.addr, KeyOf(parts[i]), Ref(|c.heap|)).Ok?
            && var h2 := Put(h1, c.context.addr, KeyOf(parts[i]), Ref(|c.heap|)).value;
               Step(ed, Set, parts, i, value, c)
               == Next(Cursor(h2, Ref(|c.heap|), Ref(|c.heap|),
                              c.finalPath + [Segment(KeyOf(parts[i]), IsBracketed(parts[i]))]))
               && |h2| == |c.heap| + 1 && h2[|c.heap|] == NewContainer(parts, i)
               && Stored(c.heap, h2[..|c.heap|], c.context.addr, KeyOf(parts[i]), Ref(|c.heap|))
  {
    var h1 := c.heap + [NewContainer(parts, i)];
    assert h1[c.context.addr] == c.heap[c.context.addr];
    PutStores(h1, c.context.addr, KeyOf(parts[i]), Ref(|c.heap|));
  }

  /** A `get` step from an object reads the key and stops at an absent value. */
  lemma GetStep(ed: Edition, parts: seq<string>, i: nat, extra: Value, c: Cursor)
    requires i < |parts| && c.context.Ref?
    ensures Walk(ed, Get, parts, i, extra, c)
            == var v := Lookup(c.heap, c.context.addr, KeyOf(parts[i]));
               if IsAbsent(c.heap, v) then Stop(c.heap, Ok(extra))
               else Walk(ed, Get, parts, i + 1, extra, c.(context := v, last := v))
  {
  }

  // -------------------------------------------------------------------------
  // The walk from a container it has just created
  // -------------------------------------------------------------------------

  lemma EmptyContainerWritable(o: Obj, k: string)
    requires IsEmptyContainer(o) && k != "length"
    ensures Writable(o, k)
  {
  }

  /** What a walk from a fresh container leaves of the heap below it. */
  predicate FreshFrame(h: Heap, H: Heap, f: nat)
  {
    f <= |h| && KindsKept(h, H) && forall b :: 0 <= b < f ==> H[b] == h[b]
  }

  /** The frame of one creating step and of the walk after it make the frame of the whole walk. */
  lemma FreshFrameStep(h: Heap, h2: Heap, H: Heap, f: nat, k: string, x: Value)
    requires |h2| == |h| + 1 && Stored(h, h2[..|h|], f, k, x) && FreshFrame(h2, H, |h|)
    ensures FreshFrame(h, H, f)
  {
    forall b | 0 <= b < |h| ensures H[b].kind == h[b].kind {
      assert h2[..|h|][b] == h2[b];
    }
    forall b | 0 <= b < f ensures H[b] == h[b] {
      assert h2[..|h|][b] == h2[b];
    }
  }

  /** From a fresh container, the walk runs to the end. */
  lemma {:induction false} FreshWalkNext(ed: Edition, parts: seq<string>, i: nat, value: Value, c: Cursor)
    requires i < |parts| && TokensOk(parts, i)
    requires c.context.Ref? && c.context.addr + 1 == |c.heap| && IsEmptyContainer(c.heap[c.context.addr])
    ensures Walk(ed, Set, parts, i, value, c).Next?
    decreases |parts| - i
  {
    var f := c.context.addr;
    var k := KeyOf(parts[i]);
    assert TokenOk(parts[i]);
    EmptyContainerWritable(c.heap[f], k);
    assert Lookup(c.heap, f, k) == Undefined;
    if i + 1 == |parts| {
      StepStores(ed, parts, i, value, c);
    } else {
      StepCreates(ed, parts, i, value, c);
      var c2 := Step(ed, Set, parts, i, value, c).cursor;
      WalkOn(ed, Set, parts, i, value, c);
      FreshWalkNext(ed, parts, i + 1, value, c2);
    }
  }

  /** From a fresh container, the walk writes only into that container and the ones it creates. */
  lemma {:induction false} FreshWalkShape(ed: Edition, parts: seq<string>, i: nat, value: Value, c: Cursor)
    requires i < |parts| && TokensOk(parts, i)
    requires c.context.Ref? && c.context.addr + 1 == |c.heap| && IsEmptyContainer(c.heap[c.context.addr])
    ensures Walk(ed, Set, parts, i, value, c).Next?
    ensures FreshFrame(c.heap, Walk(ed, Set, parts, i, value, c).cursor.heap, c.context.addr)
    decreases |parts| - i
  {
    FreshWalkNext(ed, parts, i, value, c);
    var f := c.context.addr;
    var k := KeyOf(parts[i]);
    assert TokenOk(parts[i]);
    EmptyContainerWritable(c.heap[f], k);
    assert Lookup(c.heap, f, k) == Undefined;
    if i + 1 == |parts| {
      StepStores(ed, parts, i, value, c);
    } else {
      StepCreates(ed, parts, i, value, c);
      var c2 := Step(ed, Set, parts, i, value, c).cursor;
      WalkOn(ed, Set, parts, i, value, c);
      FreshWalkShape(ed, parts, i + 1, value, c2);
      FreshFrameStep(c.heap, c2.heap, Walk(ed, Set, parts, i + 1, value, c2).cursor.heap, f, k, c2.context);
    }
  }

  /** A `get` reads through an agreeing heap what the walked heap holds. */
  lemma AgreedRead(H: Heap, H2: Heap, visits: seq<Addr>, n: nat, a: Addr, k: string)
    requires Agrees(H2, H, visits, n) && a < |H| && (a in visits || a >= n) && k != "_audit"
    ensures a < |H2| && Lookup(H2, a, k) == ObjGet(H[a], k)
  {
  }

  /** A container `set` created is never absent. */
  lemma CreatedNotAbsent(h: Heap, H2: Heap, g: Addr)
    requires KindsKept(h, H2) && g < |h| && IsEmptyContainer(h[g])
    ensures !IsAbsent(H2, Ref(g)) && !NeedsContainer(H2, Ref(g))
  {
  }

  /** Agreement from address `n` on carries over to a later address. */
  lemma AgreesLater(H: Heap, H2: Heap, visits: seq<Addr>, n: nat, m: nat)
    requires Agrees(H2, H, visits, n) && n <= m
    ensures Agrees(H2, H, [], m)
  {
  }

  /** After a creating step, a `get` finds the new container under the key. */
  lemma CreatedRead(h: Heap, h2: Heap, H: Heap, H2: Heap, visits: seq<Addr>, n: nat, a: Addr, k: string)
    requires |h2| == |h| + 1 && Stored(h, h2[..|h|], a, k, Ref(|h|)) && IsEmptyContainer(h2[|h|])
    requires FreshFrame(h2, H, |h|) && Agrees(H2, H, visits, n) && (a in visits || a >= n) && n <= |h|
    requires k != "_audit"
    ensures Lookup(H2, a, k) == Ref(|h|) && !IsAbsent(H2, Ref(|h|))
    ensures Agrees(H2, H, [], |h|)
  {
    assert h2[..|h|][a] == h2[a];
    AgreedRead(H, H2, visits, n, a, k);
    CreatedNotAbsent(h2, H2, |h|);
  }

  /** A `get` through the containers a fresh walk created finds the value it stored. */
  lemma {:induction false} FreshReadBack(ed: Edition, parts: seq<string>, i: nat, value: Value, c: Cursor,
                                         extra: Value, H2: Heap, x: Value, fp: seq<string>)
    requires i < |parts| && TokensOk(parts, i)
    requires c.context.Ref? && c.context.addr + 1 == |c.heap| && IsEmptyContainer(c.heap[c.context.addr])
    requires Walk(ed, Set, parts, i, value, c).Next?
    requires Agrees(H2, Walk(ed, Set, parts, i, value, c).cursor.heap, [], c.context.addr)
    ensures Walk(ed, Get, parts, i, extra, Cursor(H2, c.context, x, fp)) == Found(H2, value, extra, fp)
    decreases |parts| - i, 1
  {
    if i + 1 == |parts| {
      FreshReadBackLast(ed, parts, i, value, c, extra, H2, x, fp);
    } else {
      FreshReadBackCreated(ed, parts, i, value, c, extra, H2, x, fp);
    }
  }

  /** `FreshReadBack` at the last token. */
  lemma FreshReadBackLast(ed: Edition, parts: seq<string>, i: nat, value: Value, c: Cursor,
                          extra: Value, H2: Heap, x: Value, fp: seq<string>)
    requires i + 1 == |parts| && TokensOk(parts, i)
    requires c.context.Ref? && c.context.addr + 1 == |c.heap| && IsEmptyContainer(c.heap[c.context.addr])
    requires Walk(ed, Set, parts, i, value, c).Next?
    requires Agrees(H2, Walk(ed, Set, parts, i, value, c).cursor.heap, [], c.context.addr)
    ensures Walk(ed, Get, parts, i, extra, Cursor(H2, c.context, x, fp)) == Found(H2, value, extra, fp)
  {
    var f := c.context.addr;
    var k := KeyOf(parts[i]);
    assert TokenOk(parts[i]);
    EmptyContainerWritable(c.heap[f], k);
    GetStep(ed, parts, i, extra, Cursor(H2, c.context, x, fp));
    StepStores(ed, parts, i, value, c);
    AgreedRead(Step(ed, Set, parts, i, value, c).cursor.heap, H2, [], f, f, k);
  }

  /** `FreshReadBack` before the last token, where the step creates the next container. */
  lemma {:induction false} FreshReadBackCreated(ed: Edition, parts: seq<string>, i: nat, value: Value, c: Cursor,
                                                extra: Value, H2: Heap, x: Value, fp: seq<string>)
    requires i + 1 < |parts| && TokensOk(parts, i)
    requires c.context.Ref? && c.context.addr + 1 == |c.heap| && IsEmptyContainer(c.heap[c.context.addr])
    requires Walk(ed, Set, parts, i, value, c).Next?
    requires Agrees(H2, Walk(ed, Set, parts, i, value, c).cursor.heap, [], c.context.addr)
    ensures Walk(ed, Get, parts, i, extra, Cursor(H2, c.context, x, fp)) == Found(H2, value, extra, fp)
    decreases |parts| - i, 0
  {
    var f := c.context.addr;
    var k := KeyOf(parts[i]);
    assert TokenOk(parts[i]);
    EmptyContainerWritable(c.heap[f], k);
    assert Lookup(c.heap, f, k) == Undefined;
    GetStep(ed, parts, i, extra, Cursor(H2, c.context, x, fp));
    StepCreates(ed, parts, i, value, c);
    var c2 := Step(ed, Set, parts, i, value, c).cursor;
    WalkOn(ed, Set, parts, i, value, c);
    FreshWalkShape(ed, parts, i + 1, value, c2);
    CreatedRead(c.heap, c2.heap, Walk(ed, Set, parts, i + 1, value, c2).cursor.heap, H2, [], f, f, k);
    FreshReadBack(ed, parts, i + 1, value, c2, extra, H2, Ref(|c.heap|), fp);
  }

  // -------------------------------------------------------------------------
  // The walk from an existing object
  // -------------------------------------------------------------------------

  /** What a safe walk leaves of the heap: kinds and `_audit` slots, and every object it did not visit. */
  predicate WalkFrame(h: Heap, H: Heap, visits: seq<Addr>)
  {
    KindsKept(h, H) && AuditKept(h, H) && forall b :: 0 <= b < |h| && b !in visits ==> H[b] == h[b]
  }

  lemma StoreFrame(h: Heap, H: Heap, a: Addr, k: string, x: Value, visits: seq<Addr>)
    requires Stored(h, H, a, k, x) && a in visits
    ensures WalkFrame(h, H, visits)
  {
  }

  lemma CreateFrame(h: Heap, h2: Heap, H: Heap, a: Addr, k: string, visits: seq<Addr>)
    requires |h2| == |h| + 1 && Stored(h, h2[..|h|], a, k, Ref(|h|)) && FreshFrame(h2, H, |h|) && a in visits
    ensures WalkFrame(h, H, visits)
  {
    forall b | 0 <= b < |h| ensures H[b].kind == h[b].kind && SlotOf(H[b], "_audit") == SlotOf(h[b], "_audit") {
      assert h2[..|h|][b] == h2[b];
    }
    forall b | 0 <= b < |h| && b !in visits ensures H[b] == h[b] {
      assert h2[..|h|][b] == h2[b];
    }
  }

  lemma MoveFrame(h: Heap, H: Heap, a: Addr, visits: seq<Addr>)
    requires WalkFrame(h, H, visits)
    ensures WalkFrame(h, H, [a] + visits)
  {
  }

  /** The objects visited from a step that passes through. */
  lemma VisitsMove(h: Heap, ctx: Value, parts: seq<string>, i: nat)
    requires i + 1 < |parts| && ctx.Ref?
    requires var p := Lookup(h, ctx.addr, KeyOf(parts[i])); !NeedsContainer(h, p) && p.Ref?
    ensures Visits(h, ctx, parts, i) == [ctx.addr] + Visits(h, Lookup(h, ctx.addr, KeyOf(parts[i])), parts, i + 1)
  {
  }

  /** A step that writes visits just its context. */
  lemma VisitsWrite(h: Heap, ctx: Value, parts: seq<string>, i: nat)
    requires i < |parts| && ctx.Ref?
    requires i + 1 == |parts| || NeedsContainer(h, Lookup(h, ctx.addr, KeyOf(parts[i])))
    ensures Visits(h, ctx, parts, i) == [ctx.addr]
  {
  }

  /** A safe `set` walk runs to the end. */
  lemma {:induction false} SetWalkNext(ed: Edition, h: Heap, ctx: Value, parts: seq<string>, i: nat, value: Value,
                                       last: Value, fp: seq<string>)
    requires SetSafe(h, ctx, parts, i) && TokensOk(parts, i)
    ensures Walk(ed, Set, parts, i, value, Cursor(h, ctx, last, fp)).Next?
    decreases |parts| - i
  {
    var c := Cursor(h, ctx, last, fp);
    var k := KeyOf(parts[i]);
    var p := Lookup(h, ctx.addr, k);
    assert TokenOk(parts[i]);
    if i + 1 < |parts| && !NeedsContainer(h, p) {
      StepMoves(ed, parts, i, value, c);
      WalkOn(ed, Set, parts, i, value, c);
      SetWalkNext(ed, h, p, parts, i + 1, value, p, fp + [Segment(k, IsBracketed(parts[i]))]);
    } else if i + 1 == |parts| {
      StepStores(ed, parts, i, value, c);
    } else {
      StepCreates(ed, parts, i, value, c);
      WalkOn(ed, Set, parts, i, value, c);
      FreshWalkNext(ed, parts, i + 1, value, Step(ed, Set, parts, i, value, c).cursor);
    }
  }

  /**
   * A safe `set` walk keeps every kind and every `_audit` slot, and changes
   * no existing object outside the ones it visits.
   */
  lemma {:induction false} SetWalkShape(ed: Edition, h: Heap, ctx: Value, parts: seq<string>, i: nat, value: Value,
                                        last: Value, fp: seq<string>)
    requires SetSafe(h, ctx, parts, i) && TokensOk(parts, i)
    ensures Walk(ed, Set, parts, i, value, Cursor(h, ctx, last, fp)).Next?
    ensures WalkFrame(h, Walk(ed, Set, parts, i, value, Cursor(h, ctx, last, fp)).cursor.heap, Visits(h, ctx, parts, i))
    decreases |parts| - i
  {
    SetWalkNext(ed, h, ctx, parts, i, value, last, fp);
    var c := Cursor(h, ctx, last, fp);
    var k := KeyOf(parts[i]);
    var p := Lookup(h, ctx.addr, k);
    assert TokenOk(parts[i]);
    if i + 1 < |parts| && !NeedsContainer(h, p) {
      StepMoves(ed, parts, i, value, c);
      WalkOn(ed, Set, parts, i, value, c);
      var fp' := fp + [Segment(k, IsBracketed(parts[i]))];
      SetWalkShape(ed, h, p, parts, i + 1, value, p, fp');
      VisitsMove(h, ctx, parts, i);
      MoveFrame(h, Walk(ed, Set, parts, i + 1, value, Cursor(h, p, p, fp')).cursor.heap, ctx.addr,
                Visits(h, p, parts, i + 1));
    } else if i + 1 == |parts| {
      StepStores(ed, parts, i, value, c);
      VisitsWrite(h, ctx, parts, i);
      StoreFrame(h, Step(ed, Set, parts, i, value, c).cursor.heap, ctx.addr, k, value, [ctx.addr]);
    } else {
      StepCreates(ed, parts, i, value, c);
      var c2 := Step(ed, Set, parts, i, value, c).cursor;
      WalkOn(ed, Set, parts, i, value, c);
      FreshWalkShape(ed, parts, i + 1, value, c2);
      VisitsWrite(h, ctx, parts, i);
      CreateFrame(h, c2.heap, Walk(ed, Set, parts, i + 1, value, c2).cursor.heap, ctx.addr, k, [ctx.addr]);
    }
  }

  /** After a step that passed through, a `get` finds the same object under the key. */
  lemma MovedRead(h: Heap, H: Heap, H2: Heap, a: Addr, k: string, visits: seq<Addr>)
    requires a < |h| && WalkFrame(h, H, visits) && a !in visits && Agrees(H2, H, [a] + visits, |h|)
    requires var p := ObjGet(h[a], k); p.Ref? && p.addr < |h| && !NeedsContainer(h, p)
    requires k != "_audit"
    ensures Lookup(H2, a, k) == ObjGet(h[a], k) && !IsAbsent(H2, ObjGet(h[a], k))
    ensures Agrees(H2, H, visits, |h|)
  {
    AgreedRead(H, H2, [a] + visits, |h|, a, k);
  }

  /**
   * After a safe `set` walk, a `get` along the same tokens, on any heap
   * that agrees with the walked one on what the walk visited or created,
   * finds the value that was set.
   */
  lemma {:induction false} SetReadBack(ed: Edition, h: Heap, ctx: Value, parts: seq<string>, i: nat, value: Value,
                                       last: Value, fp: seq<string>, extra: Value, H2: Heap, x: Value,
                                       fp2: seq<string>)
    requires SetSafe(h, ctx, parts, i) && TokensOk(parts, i)
    requires Walk(ed, Set, parts, i, value, Cursor(h, ctx, last, fp)).Next?
    requires Agrees(H2, Walk(ed, Set, parts, i, value, Cursor(h, ctx, last, fp)).cursor.heap,
                    Visits(h, ctx, parts, i), |h|)
    ensures Walk(ed, Get, parts, i, extra, Cursor(H2, ctx, x, fp2)) == Found(H2, value, extra, fp2)
    decreases |parts| - i, 1
  {
    var p := Lookup(h, ctx.addr, KeyOf(parts[i]));
    if i + 1 < |parts| && !NeedsContainer(h, p) {
      ReadBackMoved(ed, h, ctx, parts, i, value, last, fp, extra, H2, x, fp2);
    } else if i + 1 == |parts| {
      ReadBackStored(ed, h, ctx, parts, i, value, last, fp, extra, H2, x, fp2);
    } else {
      ReadBackCreated(ed, h, ctx, parts, i, value, last, fp, extra, H2, x, fp2);
    }
  }

  /** `SetReadBack` when the first step passes through an existing object. */
  lemma {:induction false} ReadBackMoved(ed: Edition, h: Heap, ctx: Value, parts: seq<string>, i: nat, value: Value,
                                         last: Value, fp: seq<string>, extra: Value, H2: Heap, x: Value,
                                         fp2: seq<string>)
    requires SetSafe(h, ctx, parts, i) && TokensOk(parts, i)
    requires i + 1 < |parts| && !NeedsContainer(h, Lookup(h, ctx.addr, KeyOf(parts[i])))
    requires Walk(ed, Set, parts, i, value, Cursor(h, ctx, last, fp)).Next?
    requires Agrees(H2, Walk(ed, Set, parts, i, value, Cursor(h, ctx, last, fp)).cursor.heap,
                    Visits(h, ctx, parts, i), |h|)
    ensures Walk(ed, Get, parts, i, extra, Cursor(H2, ctx, x, fp2)) == Found(H2, value, extra, fp2)
    decreases |parts| - i, 0
  {
    var c := Cursor(h, ctx, last, fp);
    var a := ctx.addr;
    var k := KeyOf(parts[i]);
    var p := Lookup(h, a, k);
    var fp' := fp + [Segment(k, IsBracketed(parts[i]))];
    assert TokenOk(parts[i]);
    GetStep(ed, parts, i, extra, Cursor(H2, ctx, x, fp2));
    StepMoves(ed, parts, i, value, c);
    WalkOn(ed, Set, parts, i, value, c);
    SetWalkShape(ed, h, p, parts, i + 1, value, p, fp');
    VisitsMove(h, ctx, parts, i);
    MovedRead(h, Walk(ed, Set, parts, i + 1, value, Cursor(h, p, p, fp')).cursor.heap, H2, a, k,
              Visits(h, p, parts, i + 1));
    SetReadBack(ed, h, p, parts, i + 1, value, p, fp', extra, H2, p, fp2);
  }

  /** `SetReadBack` when the first step is the last and stores the value. */
  lemma ReadBackStored(ed: Edition, h: Heap, ctx: Value, parts: seq<string>, i: nat, value: Value,
                       last: Value, fp: seq<string>, extra: Value, H2: Heap, x: Value, fp2: seq<string>)
    requires SetSafe(h, ctx, parts, i) && TokensOk(parts, i) && i + 1 == |parts|
    requires Walk(ed, Set, parts, i, value, Cursor(h, ctx, last, fp)).Next?
    requires Agrees(H2, Walk(ed, Set, parts, i, value, Cursor(h, ctx, last, fp)).cursor.heap,
                    Visits(h, ctx, parts, i), |h|)
    ensures Walk(ed, Get, parts, i, extra, Cursor(H2, ctx, x, fp2)) == Found(H2, value, extra, fp2)
  {
    var c := Cursor(h, ctx, last, fp);
    assert TokenOk(parts[i]);
    GetStep(ed, parts, i, extra, Cursor(H2, ctx, x, fp2));
    StepStores(ed, parts, i, value, c);
    VisitsWrite(h, ctx, parts, i);
    AgreedRead(Step(ed, Set, parts, i, value, c).cursor.heap, H2, [ctx.addr], |h|, ctx.addr, KeyOf(parts[i]));
  }

  /** `SetReadBack` when the first step creates a container. */
  lemma ReadBackCreated(ed: Edition, h: Heap, ctx: Value, parts: seq<string>, i: nat, value: Value,
                        last: Value, fp: seq<string>, extra: Value, H2: Heap, x: Value, fp2: seq<string>)
    requires SetSafe(h, ctx, parts, i) && TokensOk(parts, i)
    requires i + 1 < |parts| && NeedsContainer(h, Lookup(h, ctx.addr, KeyOf(parts[i])))
    requires Walk(ed, Set, parts, i, value, Cursor(h, ctx, last, fp)).Next?
    requires Agrees(H2, Walk(ed, Set, parts, i, value, Cursor(h, ctx, last, fp)).cursor.heap,
                    Visits(h, ctx, parts, i), |h|)
    ensures Walk(ed, Get, parts, i, extra, Cursor(H2, ctx, x, fp2)) == Found(H2, value, extra, fp2)
  {
    var c := Cursor(h, ctx, last, fp);
    assert TokenOk(parts[i]);
    GetStep(ed, parts, i, extra, Cursor(H2, ctx, x, fp2));
    StepCreates(ed, parts, i, value, c);
    var c2 := Step(ed, Set, parts, i, value, c).cursor;
    WalkOn(ed, Set, parts, i, value, c);
    FreshWalkShape(ed, parts, i + 1, value, c2);
    VisitsWrite(h, ctx, parts, i);
    CreatedRead(h, c2.heap, Walk(ed, Set, parts, i + 1, value, c2).cursor.heap, H2, [ctx.addr], |h|, ctx.addr,
                KeyOf(parts[i]));
    FreshReadBack(ed, parts, i + 1, value, c2, extra, H2, Ref(|h|), fp2);
  }

  // -------------------------------------------------------------------------
  // The path `set` returns
  // -------------------------------------------------------------------------

  /** The segment of token `i` followed by those after it. */
  lemma PathStep(fp: seq<string>, parts: seq<string>, i: nat)
    requires i < |parts|
    ensures fp + [Segment(KeyOf(parts[i]), IsBracketed(parts[i]))] + Segments(parts, i + 1) == fp + Segments(parts, i)
  {
  }

  /** From a fresh container, the walk records one segment per token. */
  lemma {:induction false} FreshWalkPath(ed: Edition, parts: seq<string>, i: nat, value: Value, c: Cursor)
    requires i < |parts| && TokensOk(parts, i)
    requires c.context.Ref? && c.context.addr + 1 == |c.heap| && IsEmptyContainer(c.heap[c.context.addr])
    ensures Walk(ed, Set, parts, i, value, c).Next?
    ensures Walk(ed, Set, parts, i, value, c).cursor.finalPath == c.finalPath + Segments(parts, i)
    decreases |parts| - i
  {
    FreshWalkNext(ed, parts, i, value, c);
    var f := c.context.addr;
    var k := KeyOf(parts[i]);
    assert TokenOk(parts[i]);
    EmptyContainerWritable(c.heap[f], k);
    assert Lookup(c.heap, f, k) == Undefined;
    PathStep(c.finalPath, parts, i);
    if i + 1 == |parts| {
      StepStores(ed, parts, i, value, c);
    } else {
      StepCreates(ed, parts, i, value, c);
      var c2 := Step(ed, Set, parts, i, value, c).cursor;
      WalkOn(ed, Set, parts, i, value, c);
      FreshWalkPath(ed, parts, i + 1, value, c2);
    }
  }

  /** A safe `set` walk records one segment per token: the key, bracketed when the token was. */
  lemma {:induction false} SetWalkPath(ed: Edition, h: Heap, ctx: Value, parts: seq<string>, i: nat, value: Value,
                                       last: Value, fp: seq<string>)
    requires SetSafe(h, ctx, parts, i) && TokensOk(parts, i)
    ensures Walk(ed, Set, parts, i, value, Cursor(h, ctx, last, fp)).Next?
    ensures Walk(ed, Set, parts, i, value, Cursor(h, ctx, last, fp)).cursor.finalPath == fp + Segments(parts, i)
    decreases |parts| - i, 1
  {
    SetWalkNext(ed, h, ctx, parts, i, value, last, fp);
    var c := Cursor(h, ctx, last, fp);
    var k := KeyOf(parts[i]);
    var p := Lookup(h, ctx.addr, k);
    assert TokenOk(parts[i]);
    if i + 1 < |parts| && !NeedsContainer(h, p) {
      SetWalkPathMoved(ed, h, ctx, parts, i, value, last, fp);
    } else if i + 1 == |parts| {
      PathStep(fp, parts, i);
      StepStores(ed, parts, i, value, c);
    } else {
      PathStep(fp, parts, i);
      StepCreates(ed, parts, i, value, c);
      var c2 := Step(ed, Set, parts, i, value, c).cursor;
      WalkOn(ed, Set, parts, i, value, c);
      FreshWalkPath(ed, parts, i + 1, value, c2);
    }
  }

  /** `SetWalkPath` when the first step passes through an existing object. */
  lemma {:induction false} SetWalkPathMoved(ed: Edition, h: Heap, ctx: Value, parts: seq<string>, i: nat,
                                            value: Value, last: Value, fp: seq<string>)
    requires SetSafe(h, ctx, parts, i) && TokensOk(parts, i)
    requires i + 1 < |parts| && !NeedsContainer(h, Lookup(h, ctx.addr, KeyOf(parts[i])))
    ensures Walk(ed, Set, parts, i, value, Cursor(h, ctx, last, fp)).Next?
    ensures Walk(ed, Set, parts, i, value, Cursor(h, ctx, last, fp)).cursor.finalPath == fp + Segments(parts, i)
    decreases |parts| - i, 0
  {
    var c := Cursor(h, ctx, last, fp);
    var k := KeyOf(parts[i]);
    var p := Lookup(h, ctx.addr, k);
    var fp' := fp + [Segment(k, IsBracketed(parts[i]))];
    assert TokenOk(parts[i]);
    PathStep(fp, parts, i);
    StepMoves(ed, parts, i, value, c);
    WalkOn(ed, Set, parts, i, value, c);
    SetWalkPath(ed, h, p, parts, i + 1, value, p, fp');
  }

  /** Two token lists that address the same keys. */
  predicate SameKeys(parts: seq<string>, parts': seq<string>)
  {
    |parts| == |parts'| && forall j :: 0 <= j < |parts| ==> KeyOf(parts[j]) == KeyOf(parts'[j])
  }

  /** A `get` walk depends on the keys of the tokens only, not on how they were written. */
  lemma {:induction false} GetWalkKeys(ed: Edition, parts: seq<string>, parts': seq<string>, i: nat, extra: Value,
                                       c: Cursor)
    requires SameKeys(parts, parts')
    ensures Walk(ed, Get, parts, i, extra, c) == Walk(ed, Get, parts', i, extra, c)
    decreases |parts| - i
  {
    if i < |parts| {
      assert KeyOf(parts[i]) == KeyOf(parts'[i]);
      assert Step(ed, Get, parts, i, extra, c) == Step(ed, Get, parts', i, extra, c);
      match Step(ed, Get, parts, i, extra, c)
      case Stop(_, _) =>
      case Next(c') => GetWalkKeys(ed, parts, parts', i + 1, extra, c');
    }
  }

  /** The key of the segment recorded for a token is the key of the token. */
  lemma KeyOfSegment(t: string)
    ensures KeyOf(Segment(KeyOf(t), IsBracketed(t))) == KeyOf(t)
  {
  }

  /** The segments recorded for the tokens from `i` on, one by one. */
  lemma {:induction false} SegmentsAt(parts: seq<string>, i: nat)
    requires i <= |parts|
    ensures forall j :: 0 <= j < |parts| - i ==> Segments(parts, i)[j] == Segment(KeyOf(parts[i + j]), IsBracketed(parts[i + j]))
    decreases |parts| - i
  {
    if i < |parts| {
      SegmentsAt(parts, i + 1);
      forall j | 0 <= j < |parts| - i
        ensures Segments(parts, i)[j] == Segment(KeyOf(parts[i + j]), IsBracketed(parts[i + j]))
      {
        if j > 0 {
          assert Segments(parts, i)[j] == Segments(parts, i + 1)[j - 1];
        }
      }
    }
  }

  /** The recorded segments address the same keys as the tokens. */
  lemma SegmentsKeys(parts: seq<string>)
    ensures SameKeys(Segments(parts, 0), parts)
  {
    SegmentsAt(parts, 0);
    forall j | 0 <= j < |parts| ensures KeyOf(Segments(parts, 0)[j]) == KeyOf(parts[j]) {
      KeyOfSegment(parts[j]);
    }
  }
}

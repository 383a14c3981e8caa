/**
 * What the audit bookkeeping at the end of a compound `set` does to the
 * heap: it may add the hidden `_audit` slot of the node (with three fresh
 * records), and it writes `modified` and `updateCount` of one audit record;
 * nothing else changes.
 */
module PropAudit {
  import opened JsCore
  import opened PropSpec
  import opened HeapFacts
  import opened PropWalk

  /** The existing audit record the bookkeeping writes: `node._audit[key]`, when that is an object. */
  function AuditTarget(h: Heap, node: Addr, key: string): Option<Addr>
    requires node < |h|
  {
    match SlotOf(h[node], "_audit")
    case None => None
    case Some(s) =>
      match Member(h, s.value, key)
      case Ok(Ref(m)) => Some(m)
      case _ => None
  }

  /**
   * `H2` keeps the kinds of the objects of `H`, and every key but `_audit`
   * of all of them except the audit record `t`.
   */
  ghost predicate AuditFrame(H: Heap, H2: Heap, t: Option<Addr>)
  {
    KindsKept(H, H2)
    && forall b, k :: 0 <= b < |H| && t != Some(b) && k != "_audit" ==> ObjGet(H2[b], k) == ObjGet(H[b], k)
  }

  /** `_audit` is never a built-in key, so reading it reads its slot. */
  lemma AuditSlotRead(o: Obj)
    ensures ObjGet(o, "_audit") == SlotValue(o, "_audit")
  {
  }

  /** The record `initAudit` defines: `{base: …, _meta: …}`. */
  function AuditHolder(base: Addr, meta: Addr): Obj
  {
    ObjectLiteral([("base", Ref(base)), ("_meta", Ref(meta))])
  }

  /** Reading the holder `initAudit` builds: `base`, `_meta`, or nothing. */
  lemma AuditHolderRead(base: Addr, meta: Addr, key: string)
    ensures ObjGet(AuditHolder(base, meta), key)
            == if key == "_meta" then Ref(meta) else if key == "base" then Ref(base) else Undefined
  {
    var o1 := AddSlot(EmptyObject, "base", Ref(base));
    assert ObjectLiteral([("base", Ref(base))]) == AddSlot(ObjectLiteral([]), "base", Ref(base));
    assert [("base", Ref(base)), ("_meta", Ref(meta))][..1] == [("base", Ref(base))];
    assert AuditHolder(base, meta) == AddSlot(o1, "_meta", Ref(meta));
  }

  /** A successful `Touch` writes only the record it was given, and keeps its kind. */
  lemma TouchFrame(h: Heap, m: Value, now: real)
    requires Touch(h, m, now).Ok?
    ensures m.Ref? && m.addr < |h|
    ensures var h' := Touch(h, m, now).value;
            |h'| == |h| && h'[m.addr].kind == h[m.addr].kind
            && forall b :: 0 <= b < |h| && b != m.addr ==> h'[b] == h[b]
  {
  }

  /**
   * On a record that takes both keys and whose `updateCount` is a number,
   * `Touch` succeeds, sets `modified` to the clock and adds one to
   * `updateCount`.
   */
  lemma TouchStores(h: Heap, m: Addr, now: real, n: Num)
    requires m < |h| && Writable(h[m], "modified") && Writable(h[m], "updateCount")
    requires ObjGet(h[m], "updateCount") == Number(n)
    ensures Touch(h, Ref(m), now).Ok?
    ensures var h' := Touch(h, Ref(m), now).value;
            Lookup(h', m, "updateCount") == Number(Increment(n))
            && Lookup(h', m, "modified") == Number(Finite(now))
  {
    PutStores(h, m, "modified", Number(Finite(now)));
    var h1 := PutValue(h, Ref(m), "modified", Number(Finite(now))).value;
    assert Writable(h1[m], "updateCount");
    PutStores(h1, m, "updateCount", Number(Increment(n)));
  }

  /** The records `initAudit` creates take both keys, and count zero updates. */
  lemma AuditRecordRead(now: real)
    ensures Writable(AuditRecord(now), "modified") && Writable(AuditRecord(now), "updateCount")
    ensures ObjGet(AuditRecord(now), "updateCount") == Number(Finite(0.0))
  {
    var e := [("created", Number(Finite(now))), ("modified", Number(Finite(now))),
              ("updateCount", Number(Finite(0.0)))];
    assert e[..2][..1] == e[..1];
    var o1 := AddSlot(EmptyObject, "created", Number(Finite(now)));
    assert ObjectLiteral(e[..1]) == o1;
    var o2 := AddSlot(o1, "modified", Number(Finite(now)));
    assert ObjectLiteral(e[..2]) == o2;
    assert AuditRecord(now) == AddSlot(o2, "updateCount", Number(Finite(0.0)));
  }

  /** What `initAudit` leaves when it succeeds: the heap as it was, or three new records and the slot. */
  ghost predicate InitAuditDone(H: Heap, H2: Heap, node: Addr, now: real)
    requires node < |H|
  {
    H2 == H
    || (|H2| == |H| + 3 && node < |H2|
        && H2[|H|] == AuditRecord(now) && H2[|H| + 1] == AuditRecord(now)
        && H2[|H| + 2] == AuditHolder(|H|, |H| + 1)
        && SlotValue(H2[node], "_audit") == Ref(|H| + 2)
        && H2[node].kind == H[node].kind
        && (forall k :: k != "_audit" ==> ObjGet(H2[node], k) == ObjGet(H[node], k))
        && forall b :: 0 <= b < |H| && b != node ==> H2[b] == H[b])
  }

  lemma InitAuditShape(ed: Edition, H: Heap, counter: nat, node: Value, now: real)
    requires node.Ref? && node.addr < |H|
    ensures var r := InitAudit(ed, State(H, counter), node, now);
            r.result.Ok? ==> InitAuditDone(H, r.state.heap, node.addr, now)
  {
    if !(ed == Dist && Truthy(node) && !IsExtensible(H, node)) {
      var (h1, base) := Alloc(H, AuditRecord(now));
      var (h2, meta) := Alloc(h1, AuditRecord(now));
      var (h3, audit) := Alloc(h2, AuditHolder(base, meta));
      var d := DefineHidden(h3, node, "_audit", Ref(audit), HiddenWritable(ed));
      if d.Ok? {
        DefineHiddenKeepsOthers(h3, node, "_audit", Ref(audit), HiddenWritable(ed));
      }
    }
  }

  /** The frame of a successful audit of a node that already has `_audit`. */
  lemma AuditFrameExisting(ed: Edition, isMeta: bool, H: Heap, counter: nat, node: Value, now: real, key: string)
    requires node.Ref? && node.addr < |H| && "_audit" in H[node.addr].slots
    ensures var a := Audit(ed, isMeta, State(H, counter), node, now, key);
            a.result.Ok? ==> AuditFrame(H, a.state.heap, AuditTarget(H, node.addr, key))
  {
    AuditSlotRead(H[node.addr]);
    var audit := SlotValue(H[node.addr], "_audit");
    if !(ed == Dist && !Truthy(audit)) && Member(H, audit, key).Ok? {
      var m := Member(H, audit, key).value;
      if Touch(H, m, now).Ok? {
        TouchFrame(H, m, now);
      }
    }
  }

  /** After `initAudit` the audit record is one of the new ones, or there is none. */
  lemma FreshTargetIsNew(H: Heap, H2: Heap, node: Addr, now: real, key: string, m: Value)
    requires node < |H| && InitAuditDone(H, H2, node, now) && H2 != H
    requires Member(H2, Member(H2, Ref(node), "_audit").value, key) == Ok(m) && m.Ref?
    ensures m.addr >= |H|
  {
    AuditSlotRead(H2[node]);
    AuditHolderRead(|H|, |H| + 1, key);
  }

  /** The frame of a successful audit of a node without `_audit`. */
  lemma AuditFrameFresh(ed: Edition, isMeta: bool, H: Heap, counter: nat, node: Value, now: real, key: string)
    requires node.Ref? && node.addr < |H| && "_audit" !in H[node.addr].slots
    ensures var a := Audit(ed, isMeta, State(H, counter), node, now, key);
            a.result.Ok? ==> AuditFrame(H, a.state.heap, None)
  {
    var a := Audit(ed, isMeta, State(H, counter), node, now, key);
    var init := InitAudit(ed, State(H, counter), node, now);
    InitAuditShape(ed, H, counter, node, now);
    if a.result.Ok? && init.state.heap != H {
      var H2 := init.state.heap;
      var audit := Member(H2, node, "_audit").value;
      var m := Member(H2, audit, key).value;
      FreshTargetIsNew(H, H2, node.addr, now, key, m);
      TouchFrame(H2, m, now);
      AuditFrameFreshEnd(H, H2, a.state.heap, node.addr, now, m.addr);
    } else if a.result.Ok? {
      AuditSlotRead(H[node.addr]);
    }
  }

  lemma AuditFrameFreshEnd(H: Heap, H2: Heap, H3: Heap, node: Addr, now: real, m: Addr)
    requires node < |H| && InitAuditDone(H, H2, node, now) && H2 != H && m >= |H|
    requires |H3| == |H2| && m < |H2| && forall b :: 0 <= b < |H2| && b != m ==> H3[b] == H2[b]
    ensures AuditFrame(H, H3, None)
  {
  }

  /**
   * A successful audit keeps every key but `_audit` of every object except
   * the existing audit record it writes, and keeps every kind.
   */
  lemma AuditKeeps(ed: Edition, isMeta: bool, H: Heap, counter: nat, node: Value, now: real, key: string)
    requires node.Ref? && node.addr < |H|
    ensures var a := Audit(ed, isMeta, State(H, counter), node, now, key);
            a.result.Ok? ==> AuditFrame(H, a.state.heap, AuditTarget(H, node.addr, key))
  {
    if "_audit" in H[node.addr].slots {
      AuditFrameExisting(ed, isMeta, H, counter, node, now, key);
    } else {
      AuditFrameFresh(ed, isMeta, H, counter, node, now, key);
    }
  }

  /**
   * The audit of a node whose audit record exists, takes both keys and
   * counts in a number: it succeeds, stamps `modified` with the clock and
   * adds exactly one to `updateCount`.
   */
  lemma AuditBumpsExisting(ed: Edition, isMeta: bool, H: Heap, counter: nat, node: Value, now: real, key: string,
                           t: Addr, n: Num)
    requires node.Ref? && node.addr < |H| && AuditTarget(H, node.addr, key) == Some(t) && t < |H|
    requires Writable(H[t], "modified") && Writable(H[t], "updateCount") && ObjGet(H[t], "updateCount") == Number(n)
    ensures var a := Audit(ed, isMeta, State(H, counter), node, now, key);
            a.result.Ok? && Lookup(a.state.heap, t, "updateCount") == Number(Increment(n))
            && Lookup(a.state.heap, t, "modified") == Number(Finite(now))
  {
    AuditSlotRead(H[node.addr]);
    TouchStores(H, t, now, n);
  }

  /** `initAudit` on an extensible object without `_audit` always creates the records. */
  lemma InitAuditCreates(ed: Edition, H: Heap, counter: nat, node: Value, now: real)
    requires node.Ref? && node.addr < |H| && "_audit" !in H[node.addr].slots && H[node.addr].extensible
    requires H[node.addr].kind.PlainObject? || H[node.addr].kind.ArrayObject?
    ensures var init := InitAudit(ed, State(H, counter), node, now);
            init.result.Ok? && init.state.heap != H && InitAuditDone(H, init.state.heap, node.addr, now)
  {
    InitAuditShape(ed, H, counter, node, now);
  }

  /** What the stamping does after `initAudit` created the records: it succeeds on `base` and `_meta` only. */
  lemma TouchFreshKeys(ed: Edition, H: Heap, H2: Heap, counter: nat, node: Addr, now: real, key: string)
    requires node < |H| && InitAuditDone(H, H2, node, now) && H2 != H
    ensures TouchRecord(ed, State(H2, counter), Ref(node), now, key).result.Ok? <==> key == "base" || key == "_meta"
  {
    FreshAuditReads(H, H2, node, now, key);
    if key == "base" || key == "_meta" {
      AuditRecordRead(now);
      TouchStores(H2, if key == "base" then |H| else |H| + 1, now, Finite(0.0));
    }
  }


  /** After the stamping of a record `initAudit` created, that record counts one update made at `now`. */
  lemma TouchFreshRecord(ed: Edition, H: Heap, H2: Heap, counter: nat, node: Addr, now: real, key: string)
    requires node < |H| && InitAuditDone(H, H2, node, now) && H2 != H && (key == "base" || key == "_meta")
    ensures var t := TouchRecord(ed, State(H2, counter), Ref(node), now, key);
            var record := if key == "base" then |H| else |H| + 1;
            t.result.Ok?
            && Lookup(t.state.heap, node, "_audit") == Ref(|H| + 2)
            && Lookup(t.state.heap, |H| + 2, key) == Ref(record)
            && Lookup(t.state.heap, record, "updateCount") == Number(Finite(1.0))
            && Lookup(t.state.heap, record, "modified") == Number(Finite(now))
  {
    FreshAuditReads(H, H2, node, now, key);
    var record := if key == "base" then |H| else |H| + 1;
    AuditRecordRead(now);
    TouchStores(H2, record, now, Finite(0.0));
    TouchFrame(H2, Ref(record), now);
    var H3 := Touch(H2, Ref(record), now).value;
    assert TouchRecord(ed, State(H2, counter), Ref(node), now, key) == Run(State(H3, counter), Ok(()));
    assert H3[node] == H2[node] && H3[|H| + 2] == H2[|H| + 2];
    AuditSlotRead(H3[node]);
  }

  /** The two reads the stamping makes after `initAudit` created the records: `_audit`, then the record key. */
  lemma FreshAuditReads(H: Heap, H2: Heap, node: Addr, now: real, key: string)
    requires node < |H| && InitAuditDone(H, H2, node, now) && H2 != H
    ensures Member(H2, Ref(node), "_audit") == Ok(Ref(|H| + 2))
    ensures Member(H2, Ref(|H| + 2), key)
            == Ok(if key == "_meta" then Ref(|H| + 1) else if key == "base" then Ref(|H|) else Undefined)
  {
    AuditSlotRead(H2[node]);
    AuditHolderRead(|H|, |H| + 1, key);
  }

  /**
   * The audit of an extensible object without `_audit` succeeds exactly
   * when the record key is one `initAudit` created (`base` or `_meta`);
   * the node's `_audit` then holds that record, which counts one update
   * made at `now`.
   */
  lemma AuditInitialises(ed: Edition, isMeta: bool, H: Heap, counter: nat, node: Value, now: real, key: string)
    requires node.Ref? && node.addr < |H| && "_audit" !in H[node.addr].slots && H[node.addr].extensible
    requires H[node.addr].kind.PlainObject? || H[node.addr].kind.ArrayObject?
    ensures var a := Audit(ed, isMeta, State(H, counter), node, now, key);
            (a.result.Ok? <==> key == "base" || key == "_meta")
            && (a.result.Ok? ==>
                  var record := if key == "base" then |H| else |H| + 1;
                  Lookup(a.state.heap, node.addr, "_audit") == Ref(|H| + 2)
                  && Lookup(a.state.heap, |H| + 2, key) == Ref(record)
                  && Lookup(a.state.heap, record, "updateCount") == Number(Finite(1.0))
                  && Lookup(a.state.heap, record, "modified") == Number(Finite(now)))
  {
    InitAuditCreates(ed, H, counter, node, now);
    var H2 := InitAudit(ed, State(H, counter), node, now).state.heap;
    TouchFreshKeys(ed, H, H2, counter, node.addr, now, key);
    if key == "base" || key == "_meta" {
      TouchFreshRecord(ed, H, H2, counter, node.addr, now, key);
    }
  }
}

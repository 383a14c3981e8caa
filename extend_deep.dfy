/**
 * What a deep copy builds: key by key, the container a nested call
 * returns holds the value of the source that wins the key — the later
 * source when the copy overwrites, the earlier one under `NO_OVERWRITE` —
 * either that value itself or, when it is copied deeply in turn, a new
 * container of its kind.
 */
module ExtendDeep {
  import opened JsCore
  import opened HeapFacts
  import opened PropSpec
  import opened DataCollections
  import opened DataExtend
  import opened ExtendFacts
  import opened ExtendProps

  /**
   * `y` is what `x` becomes when delivered from `h`: `x` itself, or, when
   * `x` is copied deeply, a container of its kind allocated after `h` and
   * still in `h'`.
   */
  predicate CopyOf(mode: Mode, h: Heap, h': Heap, x: Value, y: Value)
  {
    if mode.deep && DeepCopied(h, x) then
      y.Ref? && |h| <= y.addr < |h'| && h'[y.addr].kind == if IsArray(h, x) then ArrayObject else PlainObject
    else y == x
  }

  /** The object at `a` takes key `k`: the copy overwrites, or `a` does not own `k` yet. */
  predicate Takes(mode: Mode, h: Heap, a: nat, k: string)
    requires a < |h|
  {
    mode.overwrite || k !in h[a].slots
  }

  // -------------------------------------------------------------------------
  // Reads that a copy into another object does not move
  // -------------------------------------------------------------------------

  /** A value other than the destination reads the same key, and lists it, after a copy as before. */
  lemma ReadsStay(mode: Mode, h: Heap, h': Heap, dst: Value, v: Value, k: string)
    requires Preserves(mode, h, h', dst) && !IsAuditKey(k) && v != dst && (v.Ref? ==> v.addr < |h|)
    ensures Elem(h', v, k) == Elem(h, v, k)
    ensures k in KeysFor(h', v) <==> k in KeysFor(h, v)
  {
    if v.Ref? {
      assert Kept(mode, h, dst, v.addr, k);
      OwnKeysHas(h, v.addr, k);
      OwnKeysHas(h', v.addr, k);
    }
  }

  /** From `h` to `h'` objects were only added, and none changed kind. */
  ghost predicate KindsKept(h: Heap, h': Heap)
  {
    |h'| >= |h| && forall b :: 0 <= b < |h| ==> h'[b].kind == h[b].kind
  }

  /** `x` is copied deeply, and as an array, on `h'` exactly as on `h`. */
  predicate SameShape(h: Heap, h': Heap, x: Value)
  {
    DeepCopied(h', x) == DeepCopied(h, x) && IsArray(h', x) == IsArray(h, x)
  }

  lemma PreservesKinds(mode: Mode, h: Heap, h': Heap, dst: Value)
    requires Preserves(mode, h, h', dst)
    ensures KindsKept(h, h')
  {
  }

  /** Whether a value is copied deeply, and as an array, does not change across a copy into another object. */
  lemma DeepCopiedStays(mode: Mode, h: Heap, h': Heap, dst: Value, x: Value)
    requires Preserves(mode, h, h', dst) && x != dst && (x.Ref? ==> x.addr < |h|)
    ensures SameShape(h, h', x)
  {
    if x.Ref? {
      assert Kept(mode, h, dst, x.addr, "constructor");
    }
  }

  /** A copy made before later steps is still a copy after them. */
  lemma CopyOfLater(mode: Mode, h: Heap, h1: Heap, h2: Heap, x: Value, y: Value)
    requires CopyOf(mode, h, h1, x, y) && KindsKept(h1, h2)
    ensures CopyOf(mode, h, h2, x, y)
  {
  }

  /** A copy of a value read after earlier steps that kept its shape is a copy of the value as it was before them. */
  lemma CopyOfEarlier(mode: Mode, h: Heap, h1: Heap, h2: Heap, x: Value, y: Value)
    requires |h| <= |h1| && SameShape(h, h1, x) && CopyOf(mode, h1, h2, x, y)
    ensures CopyOf(mode, h, h2, x, y)
  {
  }

  // -------------------------------------------------------------------------
  // One key followed through a copy into a plain object
  // -------------------------------------------------------------------------

  /** `k` of the object at `a` ends with a copy of `x` from `h` to `h'`, or, when `moved` is false, is left as it was. */
  ghost predicate Lands(mode: Mode, h: Heap, h': Heap, a: nat, k: string, x: Value, moved: bool)
    requires a < |h| <= |h'|
  {
    if moved then k in h'[a].slots && CopyOf(mode, h, h', x, ObjGet(h'[a], k))
    else SlotOf(h'[a], k) == SlotOf(h[a], k) && ObjGet(h'[a], k) == ObjGet(h[a], k)
  }

  /** A write of a value into the plain object at `a` lands it when the key is `k`, and leaves `k` alone otherwise. */
  lemma WriteLands(mode: Mode, h0: Heap, h: Heap, a: nat, key: string, x: Value, y: Value, k: string)
    requires a < |h0| <= |h| && h[a].kind.PlainObject? && Put(h, a, key, y).Ok?
    requires Untouched(h0, h) && !IsAuditKey(k)
    requires key == k ==> CopyOf(mode, h0, h, x, y) && (y.Ref? && y.addr >= |h0| ==> y.addr != a)
    ensures Lands(mode, h0, Put(h, a, key, y).value, a, k, x, key == k)
  {
    var h' := Put(h, a, key, y).value;
    if key == k {
      PutPlainStores(h, a, key, y);
      if mode.deep && DeepCopied(h0, x) {
        assert h'[y.addr] == h[y.addr];
      }
    } else {
      PutOther(h, a, key, y);
    }
  }

  /** The deep branch of `Deliver`: the nested copy lands in `a` under `key`. */
  lemma DeepDeliverLands(mode: Mode, h: Heap, fr: Frame, a: nat, src: Value, key: string, x: Value, dstVal: Value,
                         now: real, fuel: nat, k: string)
    requires a < |h| && h[a].kind.PlainObject? && !IsAuditKey(k)
    requires mode.deep && DeepCopied(h, x) && fuel > 0
    ensures var d := Deliver(mode, h, fr, Ref(a), src, key, x, dstVal, now, fuel);
            d.result.Ok? ==> |d.heap| >= |h| && d.heap[a].kind == h[a].kind && Lands(mode, h, d.heap, a, k, x, key == k)
  {
    var m := DeepCopy(mode, h, fr, src, key, x, dstVal, now, fuel - 1);
    DeepCopyKeeps(mode, h, fr, src, key, x, dstVal, now, fuel - 1);
    if m.result.Ok? {
      NestedIsFresh(mode, h, fr, src, key, x, dstVal, now, fuel - 1);
      var y := m.result.value;
      if Put(m.heap, a, key, y).Ok? {
        WriteLands(mode, h, m.heap, a, key, x, y, k);
      }
    }
  }

  /** `Deliver` into the plain object at `a`: the value lands under `key`, and `k` moves only when it is `key`. */
  lemma DeliverLands(mode: Mode, h: Heap, fr: Frame, a: nat, src: Value, key: string, x: Value, dstVal: Value,
                     now: real, fuel: nat, k: string)
    requires a < |h| && h[a].kind.PlainObject? && !IsAuditKey(k)
    ensures var d := Deliver(mode, h, fr, Ref(a), src, key, x, dstVal, now, fuel);
            d.result.Ok? ==> |d.heap| >= |h| && d.heap[a].kind == h[a].kind && Lands(mode, h, d.heap, a, k, x, key == k)
  {
    if !(mode.deep && DeepCopied(h, x)) {
      if Put(h, a, key, x).Ok? {
        Grown(h, h);
        WriteLands(mode, h, h, a, key, x, x, k);
      }
    } else if fuel > 0 {
      DeepDeliverLands(mode, h, fr, a, src, key, x, dstVal, now, fuel, k);
    }
  }

  /**
   * Copying `key` of `src` into the plain object at `a`, unfiltered: when
   * `key` is `k` and `a` takes it, `a` ends owning `k` with a copy of the
   * source's value; otherwise `k` of `a` is left as it was.
   */
  lemma TrackKey(mode: Mode, h: Heap, fr: Frame, a: nat, src: Value, key: string, now: real, fuel: nat, k: string)
    requires mode.filter.NoFilter? && a < |h| && h[a].kind.PlainObject? && !IsAuditKey(k)
    ensures var c := CopyKey(mode, h, fr, Ref(a), src, key, now, fuel);
            c.result.Ok? ==>
              Lands(mode, h, c.heap, a, k, Elem(h, src, k),
                       key == k && !(mode.ed == Dist && IsProtoKey(k)) && Takes(mode, h, a, k))
  {
    var c := CopyKey(mode, h, fr, Ref(a), src, key, now, fuel);
    if Delivered(mode, h, fr, Ref(a), src, key) {
      CopyKeyDelivers(mode, h, fr, Ref(a), src, key, now, fuel);
      DeliverLands(mode, h, fr, a, src, key, Elem(h, src, key), Elem(h, Ref(a), key), now, fuel, k);
    } else {
      CopyKeySkips(mode, h, fr, Ref(a), src, key, now, fuel);
    }
  }

  /** The frame half of `TrackKey`. */
  lemma KeyStepFacts(mode: Mode, h: Heap, fr: Frame, a: nat, src: Value, key: string, now: real, fuel: nat, k: string)
    requires a < |h| && !IsAuditKey(k)
    requires src != Ref(a) && (src.Ref? ==> src.addr < |h|)
    requires Elem(h, src, k) != Ref(a) && (Elem(h, src, k).Ref? ==> Elem(h, src, k).addr < |h|)
    ensures var c := CopyKey(mode, h, fr, Ref(a), src, key, now, fuel);
            KindsKept(h, c.heap) && Elem(c.heap, src, k) == Elem(h, src, k) && SameShape(h, c.heap, Elem(h, src, k))
  {
    KeyKeeps(mode, h, fr, Ref(a), src, key, now, fuel);
    StepFacts(mode, h, CopyKey(mode, h, fr, Ref(a), src, key, now, fuel).heap, a, src, k);
  }

  /** What a copy into the object at `a` keeps for the next step: every kind, and the source's value for `k` and its shape. */
  lemma StepFacts(mode: Mode, h: Heap, h1: Heap, a: nat, src: Value, k: string)
    requires Preserves(mode, h, h1, Ref(a)) && !IsAuditKey(k)
    requires src != Ref(a) && (src.Ref? ==> src.addr < |h|)
    requires Elem(h, src, k) != Ref(a) && (Elem(h, src, k).Ref? ==> Elem(h, src, k).addr < |h|)
    ensures KindsKept(h, h1) && Elem(h1, src, k) == Elem(h, src, k) && SameShape(h, h1, Elem(h, src, k))
  {
    ReadsStay(mode, h, h1, Ref(a), src, k);
    DeepCopiedStays(mode, h, h1, Ref(a), Elem(h, src, k));
  }

  /** Two steps of `TrackKeys` put together: the first key, then the rest. */
  lemma LandsTwice(mode: Mode, h: Heap, h1: Heap, h2: Heap, a: nat, x: Value, first: string, rest: seq<string>,
                   k: string)
    requires a < |h| && KindsKept(h, h1) && KindsKept(h1, h2) && SameShape(h, h1, x)
    requires Lands(mode, h, h1, a, k, x, first == k && !(mode.ed == Dist && IsProtoKey(k)) && Takes(mode, h, a, k))
    requires Lands(mode, h1, h2, a, k, x, k in rest && !(mode.ed == Dist && IsProtoKey(k)) && Takes(mode, h1, a, k))
    ensures Lands(mode, h, h2, a, k, x, k in [first] + rest && !(mode.ed == Dist && IsProtoKey(k)) && Takes(mode, h, a, k))
  {
    var y := ObjGet(h2[a], k);
    if k in rest && !(mode.ed == Dist && IsProtoKey(k)) && Takes(mode, h1, a, k) {
      CopyOfEarlier(mode, h, h1, h2, x, y);
    } else if first == k && !(mode.ed == Dist && IsProtoKey(k)) && Takes(mode, h, a, k) {
      CopyOfLater(mode, h, h1, h2, x, y);
    }
  }

  /**
   * The keys `ks[j..]` of one source copied into the plain object at `a`:
   * when `k` is among them and `a` takes it, `a` ends owning `k` with a copy
   * of the source's value; otherwise `k` of `a` is left as it was.
   */
  lemma {:induction false} TrackKeys(mode: Mode, h: Heap, fr: Frame, a: nat, src: Value, ks: seq<string>, j: nat,
                                     now: real, fuel: nat, k: string)
    requires mode.filter.NoFilter? && a < |h| && h[a].kind.PlainObject? && !IsAuditKey(k) && j <= |ks|
    requires src != Ref(a) && (src.Ref? ==> src.addr < |h|)
    requires Elem(h, src, k) != Ref(a) && (Elem(h, src, k).Ref? ==> Elem(h, src, k).addr < |h|)
    ensures var r := CopyKeys(mode, h, fr, Ref(a), src, ks, j, now, fuel);
            r.result.Ok? ==>
              KindsKept(h, r.heap) && SameShape(h, r.heap, Elem(h, src, k))
              && Lands(mode, h, r.heap, a, k, Elem(h, src, k),
                       k in ks[j..] && !(mode.ed == Dist && IsProtoKey(k)) && Takes(mode, h, a, k))
    decreases |ks| - j
  {
    if j < |ks| {
      var c := CopyKey(mode, h, fr, Ref(a), src, ks[j], now, fuel);
      TrackKey(mode, h, fr, a, src, ks[j], now, fuel, k);
      KeyStepFacts(mode, h, fr, a, src, ks[j], now, fuel, k);
      if c.result.Ok? {
        assert c.heap[a].kind == h[a].kind;
        var r := CopyKeys(mode, c.heap, fr, Ref(a), src, ks, j + 1, now, fuel);
        assert CopyKeys(mode, h, fr, Ref(a), src, ks, j, now, fuel) == r;
        TrackKeys(mode, c.heap, fr, a, src, ks, j + 1, now, fuel, k);
        if r.result.Ok? {
          assert ks[j..] == [ks[j]] + ks[j + 1..];
          LandsTwice(mode, h, c.heap, r.heap, a, Elem(h, src, k), ks[j], ks[j + 1..], k);
        }
      }
    }
  }

  /** One source copied into the plain object at `a`: `k` is copied when the source hands it over and `a` takes it. */
  lemma TrackFrom(mode: Mode, h: Heap, fr: Frame, a: nat, src: Value, now: real, fuel: nat, k: string)
    requires mode.filter.NoFilter? && a < |h| && h[a].kind.PlainObject? && !IsAuditKey(k)
    requires src != Ref(a) && (src.Ref? ==> src.addr < |h|)
    requires Elem(h, src, k) != Ref(a) && (Elem(h, src, k).Ref? ==> Elem(h, src, k).addr < |h|)
    ensures var r := CopyFrom(mode, h, fr, Ref(a), Val(src), now, fuel);
            r.result.Ok? ==>
              if Hands(mode.ed, h, Val(src), k) && Takes(mode, h, a, k) then
                k in r.heap[a].slots && CopyOf(mode, h, r.heap, Elem(h, src, k), ObjGet(r.heap[a], k))
              else SlotOf(r.heap[a], k) == SlotOf(h[a], k) && ObjGet(r.heap[a], k) == ObjGet(h[a], k)
  {
    if IsObject(src) {
      TrackKeys(mode, h, fr, a, src, KeysFor(h, src), 0, now, fuel, k);
      assert KeysFor(h, src)[0..] == KeysFor(h, src);
    }
  }

  // -------------------------------------------------------------------------
  // Two sources into a new container
  // -------------------------------------------------------------------------

  /** Which source a key is copied from when two sources are merged in order: the later one when the copy overwrites. */
  predicate PairCopies(nm: Mode, h: Heap, h': Heap, b: Value, v: Value, k: string, y: Value)
  {
    var hb := Hands(nm.ed, h, Val(b), k);
    var hv := Hands(nm.ed, h, Val(v), k);
    if nm.overwrite then
      (hv ==> CopyOf(nm, h, h', Elem(h, v, k), y)) && (!hv && hb ==> CopyOf(nm, h, h', Elem(h, b, k), y))
    else
      (hb ==> CopyOf(nm, h, h', Elem(h, b, k), y)) && (!hb && hv ==> CopyOf(nm, h, h', Elem(h, v, k), y))
  }

  /**
   * `b` then `v` copied, unfiltered, into the plain object at `a`, which
   * does not own `k`: `k` ends with a copy of the winning source's value,
   * or as it was when neither source hands it over.
   */
  lemma TrackPair(nm: Mode, h: Heap, fr: Frame, a: nat, b: Value, v: Value, now: real, fuel: nat, k: string)
    requires nm.filter.NoFilter? && a < |h| && h[a].kind.PlainObject? && k !in h[a].slots && !IsAuditKey(k)
    requires b != Ref(a) && (b.Ref? ==> b.addr < |h|) && v != Ref(a) && (v.Ref? ==> v.addr < |h|)
    requires Elem(h, b, k) != Ref(a) && (Elem(h, b, k).Ref? ==> Elem(h, b, k).addr < |h|)
    requires Elem(h, v, k) != Ref(a) && (Elem(h, v, k).Ref? ==> Elem(h, v, k).addr < |h|)
    ensures var c := CopySources(nm, h, fr, Ref(a), [Val(b), Val(v)], 0, now, fuel);
            c.result.Ok? ==>
              var y := ObjGet(c.heap[a], k);
              PairCopies(nm, h, c.heap, b, v, k, y)
              && (!Hands(nm.ed, h, Val(b), k) && !Hands(nm.ed, h, Val(v), k) ==> y == ObjGet(h[a], k))
  {
    var srcs := [Val(b), Val(v)];
    var cb := CopyFrom(nm, h, fr, Ref(a), Val(b), now, fuel);
    TrackFrom(nm, h, fr, a, b, now, fuel, k);
    FromKeeps(nm, h, fr, Ref(a), Val(b), now, fuel);
    if cb.result.Ok? {
      var cv := CopyFrom(nm, cb.heap, fr, Ref(a), Val(v), now, fuel);
      assert CopySources(nm, h, fr, Ref(a), srcs, 0, now, fuel) == CopySources(nm, cb.heap, fr, Ref(a), srcs, 1, now, fuel);
      assert CopySources(nm, cb.heap, fr, Ref(a), srcs, 1, now, fuel) == if cv.result.Throws? then cv else Outcome(cv.heap, Ok(()));
      if cv.result.Ok? {
        SecondSource(nm, h, cb.heap, fr, a, b, v, now, fuel, k);
      }
    }
  }

  /** The step of `TrackPair` past the first source. */
  lemma SecondSource(nm: Mode, h: Heap, h1: Heap, fr: Frame, a: nat, b: Value, v: Value, now: real, fuel: nat, k: string)
    requires nm.filter.NoFilter? && a < |h| && h[a].kind.PlainObject? && k !in h[a].slots && !IsAuditKey(k)
    requires v != Ref(a) && (v.Ref? ==> v.addr < |h|)
    requires Elem(h, v, k) != Ref(a) && (Elem(h, v, k).Ref? ==> Elem(h, v, k).addr < |h|)
    requires Preserves(nm, h, h1, Ref(a)) && h1[a].kind.PlainObject?
    requires if Hands(nm.ed, h, Val(b), k) then
               k in h1[a].slots && CopyOf(nm, h, h1, Elem(h, b, k), ObjGet(h1[a], k))
             else SlotOf(h1[a], k) == SlotOf(h[a], k) && ObjGet(h1[a], k) == ObjGet(h[a], k)
    ensures var cv := CopyFrom(nm, h1, fr, Ref(a), Val(v), now, fuel);
            cv.result.Ok? ==>
              var y := ObjGet(cv.heap[a], k);
              PairCopies(nm, h, cv.heap, b, v, k, y)
              && (!Hands(nm.ed, h, Val(b), k) && !Hands(nm.ed, h, Val(v), k) ==> y == ObjGet(h[a], k))
  {
    var cv := CopyFrom(nm, h1, fr, Ref(a), Val(v), now, fuel);
    ReadsStay(nm, h, h1, Ref(a), v, k);
    TrackFrom(nm, h1, fr, a, v, now, fuel, k);
    FromKeeps(nm, h1, fr, Ref(a), Val(v), now, fuel);
    if cv.result.Ok? {
      var y := ObjGet(cv.heap[a], k);
      if Hands(nm.ed, h, Val(v), k) && Takes(nm, h1, a, k) {
        DeepCopiedStays(nm, h, h1, Ref(a), Elem(h, v, k));
        CopyOfEarlier(nm, h, h1, cv.heap, Elem(h, v, k), y);
      } else if Hands(nm.ed, h, Val(b), k) {
        PreservesKinds(nm, h1, cv.heap, Ref(a));
        CopyOfLater(nm, h, h1, cv.heap, Elem(h, b, k), y);
      }
    }
  }

  /** What `PairCopies` says survives later steps that keep every old object's kind. */
  lemma PairCopiesLater(nm: Mode, h: Heap, h1: Heap, h2: Heap, b: Value, v: Value, k: string, y: Value)
    requires PairCopies(nm, h, h1, b, v, k, y) && KindsKept(h1, h2)
    ensures PairCopies(nm, h, h2, b, v, k, y)
  {
    var hb := Hands(nm.ed, h, Val(b), k);
    var hv := Hands(nm.ed, h, Val(v), k);
    if hv && (nm.overwrite || !hb) {
      CopyOfLater(nm, h, h1, h2, Elem(h, v, k), y);
    } else if hb {
      CopyOfLater(nm, h, h1, h2, Elem(h, b, k), y);
    }
  }

  /** `TrackPair` for a whole call, its audit bump included. */
  lemma MergePair(nm: Mode, h: Heap, fr: Frame, a: nat, b: Value, v: Value, now: real, fuel: nat, k: string)
    requires nm.filter.NoFilter? && a < |h| && h[a].kind.PlainObject? && k !in h[a].slots && !IsAuditKey(k)
    requires b != Ref(a) && (b.Ref? ==> b.addr < |h|) && v != Ref(a) && (v.Ref? ==> v.addr < |h|)
    requires Elem(h, b, k) != Ref(a) && (Elem(h, b, k).Ref? ==> Elem(h, b, k).addr < |h|)
    requires Elem(h, v, k) != Ref(a) && (Elem(h, v, k).Ref? ==> Elem(h, v, k).addr < |h|)
    ensures var r := Merge(nm, h, fr, Ref(a), [Val(b), Val(v)], now, fuel);
            r.result.Ok? ==>
              var y := ObjGet(r.heap[a], k);
              PairCopies(nm, h, r.heap, b, v, k, y)
              && (!Hands(nm.ed, h, Val(b), k) && !Hands(nm.ed, h, Val(v), k) ==> y == ObjGet(h[a], k))
  {
    var c := CopySources(nm, h, fr, Ref(a), [Val(b), Val(v)], 0, now, fuel);
    TrackPair(nm, h, fr, a, b, v, now, fuel, k);
    SourcesKeep(nm, h, fr, Ref(a), [Val(b), Val(v)], 0, now, fuel);
    if c.result.Ok? && Bump(c.heap, Ref(a), now).Ok? {
      var h' := Bump(c.heap, Ref(a), now).value;
      BumpUntouched(c.heap, Ref(a), now);
      assert ObjGet(h'[a], k) == ObjGet(c.heap[a], k);
      PairCopiesLater(nm, h, c.heap, h', b, v, k, ObjGet(c.heap[a], k));
    }
  }

  /** A heap grown by allocation alone leaves its old objects untouched. */
  lemma Grown(h: Heap, h': Heap)
    requires |h| <= |h'| && h'[..|h|] == h
    ensures Untouched(h, h')
  {
    forall b | 0 <= b < |h|
      ensures h'[b] == h[b]
    {
      assert h'[..|h|][b] == h'[b];
    }
  }

  /** `PairCopies` read back on an older heap whose first source reads as `dstVal` wherever it hands `k` over. */
  lemma Rebase(nm: Mode, h: Heap, h2: Heap, hf: Heap, base: Value, dstVal: Value, val: Value, k: string, y: Value)
    requires |h| <= |h2| && PairCopies(nm, h2, hf, base, val, k, y)
    requires Hands(nm.ed, h2, Val(base), k) == Hands(nm.ed, h, Val(dstVal), k)
    requires Hands(nm.ed, h, Val(dstVal), k) ==> Elem(h2, base, k) == Elem(h, dstVal, k)
    requires Hands(nm.ed, h2, Val(val), k) == Hands(nm.ed, h, Val(val), k) && Elem(h2, val, k) == Elem(h, val, k)
    requires SameShape(h, h2, Elem(h, val, k)) && SameShape(h, h2, Elem(h, dstVal, k))
    ensures PairCopies(nm, h, hf, dstVal, val, k, y)
  {
    var hb := Hands(nm.ed, h, Val(dstVal), k);
    var hv := Hands(nm.ed, h, Val(val), k);
    if hv && (nm.overwrite || !hb) {
      CopyOfEarlier(nm, h, h2, hf, Elem(h, val, k), y);
    } else if hb {
      CopyOfEarlier(nm, h, h2, hf, Elem(h, dstVal, k), y);
    }
  }

  /** The heap a deep copy's nested call starts from: the old one with the new base (when `dstVal` is falsy) and the new container. */
  function Prepared(h: Heap, dstVal: Value): (h2: Heap)
    ensures |h2| == |h| + (if Truthy(dstVal) then 1 else 2) && h2[..|h|] == h
    ensures forall b :: |h| <= b < |h2| ==> h2[b] == EmptyObject
  {
    if Truthy(dstVal) then h + [EmptyObject] else h + [EmptyObject, EmptyObject]
  }

  /** A deep copy of a value that is not an array is a nested call into a new plain object over the old value or a new one. */
  lemma DeepCopyUnfolds(mode: Mode, h: Heap, fr: Frame, src: Value, key: string, val: Value, dstVal: Value, now: real,
                        fuel: nat)
    requires !IsArray(h, val) && (val.Ref? ==> val.addr < |h|)
    ensures DeepCopy(mode, h, fr, src, key, val, dstVal, now, fuel)
            == Merge(Nested(mode), Prepared(h, dstVal), Frame(fr.depth + 1, Str(key), src), Ref(|Prepared(h, dstVal)| - 1),
                     [Val(if Truthy(dstVal) then dstVal else Ref(|h|)), Val(val)], now, fuel)
  {
    if !Truthy(dstVal) {
      assert IsArray(h + [EmptyObject], val) == IsArray(h, val);
      assert h + [EmptyObject] + [EmptyObject] == h + [EmptyObject, EmptyObject];
    }
  }

  /** A value of `h` reads, lists and is shaped the same on a heap that only grew from `h`. */
  lemma GrownReads(h: Heap, h2: Heap, v: Value, k: string)
    requires |h| <= |h2| && h2[..|h|] == h && (v.Ref? ==> v.addr < |h|)
    ensures Elem(h2, v, k) == Elem(h, v, k) && KeysFor(h2, v) == KeysFor(h, v) && SameShape(h, h2, v)
  {
    if v.Ref? {
      assert h2[..|h|][v.addr] == h2[v.addr];
    }
  }

  /** What the nested call of a deep copy reads on the prepared heap is what the sources read on the old one. */
  lemma PreparedReads(nm: Mode, h: Heap, dstVal: Value, val: Value, k: string)
    requires (val.Ref? ==> val.addr < |h|) && (dstVal.Ref? ==> dstVal.addr < |h|)
    requires Elem(h, val, k).Ref? ==> Elem(h, val, k).addr < |h|
    requires Elem(h, dstVal, k).Ref? ==> Elem(h, dstVal, k).addr < |h|
    ensures var h2 := Prepared(h, dstVal);
            var base := if Truthy(dstVal) then dstVal else Ref(|h|);
            Hands(nm.ed, h2, Val(base), k) == Hands(nm.ed, h, Val(dstVal), k)
            && (Hands(nm.ed, h, Val(dstVal), k) ==> Elem(h2, base, k) == Elem(h, dstVal, k))
            && (!Truthy(dstVal) ==> Elem(h2, base, k) == Undefined)
            && Hands(nm.ed, h2, Val(val), k) == Hands(nm.ed, h, Val(val), k) && Elem(h2, val, k) == Elem(h, val, k)
            && SameShape(h, h2, Elem(h, val, k)) && SameShape(h, h2, Elem(h, dstVal, k))
  {
    var h2 := Prepared(h, dstVal);
    GrownReads(h, h2, val, k);
    GrownReads(h, h2, Elem(h, val, k), k);
    GrownReads(h, h2, Elem(h, dstVal, k), k);
    if Truthy(dstVal) {
      GrownReads(h, h2, dstVal, k);
    } else {
      assert h2[|h|] == EmptyObject;
      OwnKeysHas(h2, |h|, k);
    }
  }

  /** `DeepCopyBuilds` on the prepared heap: the nested call into the new container, read back on the old heap. */
  lemma NestedBuilds(nm: Mode, h: Heap, nf: Frame, dstVal: Value, val: Value, now: real, fuel: nat, k: string)
    requires nm.filter.NoFilter? && !IsAuditKey(k)
    requires (val.Ref? ==> val.addr < |h|) && (dstVal.Ref? ==> dstVal.addr < |h|)
    requires Elem(h, val, k).Ref? ==> Elem(h, val, k).addr < |h|
    requires Elem(h, dstVal, k).Ref? ==> Elem(h, dstVal, k).addr < |h|
    ensures var h2 := Prepared(h, dstVal);
            var m := Merge(nm, h2, nf, Ref(|h2| - 1), [Val(if Truthy(dstVal) then dstVal else Ref(|h|)), Val(val)], now, fuel);
            m.result.Ok? ==>
              var y := ObjGet(m.heap[|h2| - 1], k);
              PairCopies(nm, h, m.heap, dstVal, val, k, y)
              && (!Hands(nm.ed, h, Val(dstVal), k) && !Hands(nm.ed, h, Val(val), k) ==> y == Undefined)
  {
    var h2 := Prepared(h, dstVal);
    var base := if Truthy(dstVal) then dstVal else Ref(|h|);
    PreparedReads(nm, h, dstVal, val, k);
    assert h2[|h2| - 1] == EmptyObject;
    NestedOn(nm, h, h2, nf, base, dstVal, val, now, fuel, k);
  }

  /** `NestedBuilds` over any heap that grew from `h` by a new empty container at its end. */
  lemma NestedOn(nm: Mode, h: Heap, h2: Heap, nf: Frame, base: Value, dstVal: Value, val: Value, now: real, fuel: nat,
                 k: string)
    requires nm.filter.NoFilter? && !IsAuditKey(k) && |h| < |h2| && h2[|h2| - 1] == EmptyObject
    requires (base.Ref? ==> base.addr < |h2| - 1) && (val.Ref? ==> val.addr < |h|)
    requires Elem(h, val, k).Ref? ==> Elem(h, val, k).addr < |h|
    requires Elem(h, dstVal, k).Ref? ==> Elem(h, dstVal, k).addr < |h|
    requires Hands(nm.ed, h2, Val(base), k) == Hands(nm.ed, h, Val(dstVal), k)
    requires Hands(nm.ed, h, Val(dstVal), k) ==> Elem(h2, base, k) == Elem(h, dstVal, k)
    requires !Hands(nm.ed, h, Val(dstVal), k) ==> Elem(h2, base, k) == Undefined || Elem(h2, base, k) == Elem(h, dstVal, k)
    requires Hands(nm.ed, h2, Val(val), k) == Hands(nm.ed, h, Val(val), k) && Elem(h2, val, k) == Elem(h, val, k)
    requires SameShape(h, h2, Elem(h, val, k)) && SameShape(h, h2, Elem(h, dstVal, k))
    ensures var m := Merge(nm, h2, nf, Ref(|h2| - 1), [Val(base), Val(val)], now, fuel);
            m.result.Ok? ==>
              var y := ObjGet(m.heap[|h2| - 1], k);
              PairCopies(nm, h, m.heap, dstVal, val, k, y)
              && (!Hands(nm.ed, h, Val(dstVal), k) && !Hands(nm.ed, h, Val(val), k) ==> y == Undefined)
  {
    var a := |h2| - 1;
    var m := Merge(nm, h2, nf, Ref(a), [Val(base), Val(val)], now, fuel);
    MergePair(nm, h2, nf, a, base, val, now, fuel, k);
    if m.result.Ok? {
      Rebase(nm, h, h2, m.heap, base, dstVal, val, k, ObjGet(m.heap[a], k));
    }
  }

  /**
   * What a deep copy returns, key by key, when the nested call runs
   * unfiltered and the copied value is not an array: a new plain object
   * whose key `k` (the audit fields aside) holds a copy of the value of the
   * source that wins `k` among the destination's old value and the copied
   * value — the copied value when the nested call overwrites, the old value
   * under `NO_OVERWRITE` in `dist` — and is absent when neither has `k`.
   */
  lemma DeepCopyBuilds(mode: Mode, h: Heap, fr: Frame, src: Value, key: string, val: Value, dstVal: Value, now: real,
                       fuel: nat, k: string)
    requires Nested(mode).filter.NoFilter? && !IsAuditKey(k) && !IsArray(h, val)
    requires (val.Ref? ==> val.addr < |h|) && (dstVal.Ref? ==> dstVal.addr < |h|)
    requires Elem(h, val, k).Ref? ==> Elem(h, val, k).addr < |h|
    requires Elem(h, dstVal, k).Ref? ==> Elem(h, dstVal, k).addr < |h|
    ensures var m := DeepCopy(mode, h, fr, src, key, val, dstVal, now, fuel);
            m.result.Ok? ==>
              var y := Elem(m.heap, m.result.value, k);
              PairCopies(Nested(mode), h, m.heap, dstVal, val, k, y)
              && (!Hands(mode.ed, h, Val(dstVal), k) && !Hands(mode.ed, h, Val(val), k) ==> y == Undefined)
  {
    DeepCopyUnfolds(mode, h, fr, src, key, val, dstVal, now, fuel);
    NestedBuilds(Nested(mode), h, Frame(fr.depth + 1, Str(key), src), dstVal, val, now, fuel, k);
  }

  /** The value two sources leave at `k` when the first one wins: the reversed-order `Winner`. */
  lemma WinnerOfTwo(ed: Edition, h: Heap, x: Value, z: Value, k: string)
    ensures Winner(ed, h, [Val(x), Val(z)], 0, k, Undefined)
            == if Hands(ed, h, Val(z), k) then Elem(h, z, k) else if Hands(ed, h, Val(x), k) then Elem(h, x, k) else Undefined
  {
    var srcs := [Val(x), Val(z)];
    var n0 := if Hands(ed, h, srcs[0], k) then Elem(h, x, k) else Undefined;
    var n1 := if Hands(ed, h, srcs[1], k) then Elem(h, z, k) else n0;
    assert Winner(ed, h, srcs, 0, k, Undefined) == Winner(ed, h, srcs, 1, k, n0);
    assert Winner(ed, h, srcs, 1, k, n0) == Winner(ed, h, srcs, 2, k, n1);
  }

  /**
   * Where no value handed over for `k` is itself copied deeply, the new
   * object of a deep copy holds at `k` exactly what a plain `extend` of the
   * two sources would: the last of the destination's old value and the
   * copied value to have `k` when the nested call overwrites, and under
   * `NO_OVERWRITE` the first, so the old value is kept.
   */
  lemma DeepCopyWinner(mode: Mode, h: Heap, fr: Frame, src: Value, key: string, val: Value, dstVal: Value, now: real,
                       fuel: nat, k: string)
    requires Nested(mode).filter.NoFilter? && !IsAuditKey(k) && !IsArray(h, val)
    requires (val.Ref? ==> val.addr < |h|) && (dstVal.Ref? ==> dstVal.addr < |h|)
    requires Elem(h, val, k).Ref? ==> Elem(h, val, k).addr < |h|
    requires Elem(h, dstVal, k).Ref? ==> Elem(h, dstVal, k).addr < |h|
    requires Nested(mode).deep ==> !DeepCopied(h, Elem(h, val, k)) && !DeepCopied(h, Elem(h, dstVal, k))
    ensures var m := DeepCopy(mode, h, fr, src, key, val, dstVal, now, fuel);
            var ed := Nested(mode).ed;
            m.result.Ok? ==>
              Elem(m.heap, m.result.value, k)
              == if Nested(mode).overwrite then Winner(ed, h, [Val(dstVal), Val(val)], 0, k, Undefined)
                 else Winner(ed, h, [Val(val), Val(dstVal)], 0, k, Undefined)
  {
    DeepCopyBuilds(mode, h, fr, src, key, val, dstVal, now, fuel, k);
    WinnerOfTwo(Nested(mode).ed, h, dstVal, val, k);
    WinnerOfTwo(Nested(mode).ed, h, val, dstVal, k);
  }

  /** Under `dist`'s `NO_OVERWRITE`, a key the destination's old value has keeps (a copy of) that value in the new object. */
  lemma DeepCopyKeepsBase(mode: Mode, h: Heap, fr: Frame, src: Value, key: string, val: Value, dstVal: Value, now: real,
                          fuel: nat, k: string)
    requires mode.ed == Dist && !mode.overwrite && mode.filter.NoFilter? && !IsAuditKey(k) && !IsArray(h, val)
    requires (val.Ref? ==> val.addr < |h|) && (dstVal.Ref? ==> dstVal.addr < |h|)
    requires Elem(h, val, k).Ref? ==> Elem(h, val, k).addr < |h|
    requires Elem(h, dstVal, k).Ref? ==> Elem(h, dstVal, k).addr < |h|
    requires Hands(Dist, h, Val(dstVal), k)
    ensures var m := DeepCopy(mode, h, fr, src, key, val, dstVal, now, fuel);
            m.result.Ok? ==> CopyOf(mode, h, m.heap, Elem(h, dstVal, k), Elem(m.heap, m.result.value, k))
  {
    DeepCopyBuilds(mode, h, fr, src, key, val, dstVal, now, fuel, k);
  }
}

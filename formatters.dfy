/**
 * The formatter registry (dist/formatters.js and lib/formatters.js, whose
 * rules modelled here are the same in both editions): rule functions
 * `(val, op, args)` that render a stored value as text under `format`,
 * `display` and `sort`, read text back under `unformat`, and answer
 * `undefined` when they have nothing to say; the pool they are registered
 * in; and `formatterFunction`, the chain factory bound to that pool.
 */
module Formatters {
  import opened JsCore
  import opened Predicates
  import opened RuleSpec
  import opened Chain

  /** The operations under which a formatter renders its value as text. */
  predicate Renders(op: string)
  {
    op == "format" || op == "display" || op == "sort"
  }

  // -------------------------------------------------------------------------
  // Replacing text
  // -------------------------------------------------------------------------

  predicate StartsWith(s: string, w: string)
  {
    |w| <= |s| && s[..|w|] == w
  }

  /**
   * `s.replace(/pat/g, rep)` for a pattern that is literal text: each
   * occurrence, leftmost first, is replaced, and the scan goes on after it.
   */
  function ReplaceAll(s: string, pat: string, rep: string): string
    requires pat != []
    decreases |s|
  {
    if s == [] then []
    else if StartsWith(s, pat) then rep + ReplaceAll(s[|pat|..], pat, rep)
    else [s[0]] + ReplaceAll(s[1..], pat, rep)
  }

  /** `s` with every character `c` written as `ent`, character by character. */
  function Substitute(s: string, c: char, ent: string): string
  {
    if s == [] then [] else (if s[0] == c then ent else [s[0]]) + Substitute(s[1..], c, ent)
  }

  /** Replacing a one-character pattern is substituting that character. */
  lemma {:induction false} ReplaceChar(s: string, c: char, ent: string)
    ensures ReplaceAll(s, [c], ent) == Substitute(s, c, ent)
    decreases |s|
  {
    if s != [] {
      assert StartsWith(s, [c]) <==> s[0] == c by {
        assert s[..1] == [s[0]];
      }
      ReplaceChar(s[1..], c, ent);
    }
  }

  lemma {:induction false} SubstituteJoin(a: string, b: string, c: char, ent: string)
    ensures Substitute(a + b, c, ent) == Substitute(a, c, ent) + Substitute(b, c, ent)
    decreases |a|
  {
    if a == [] {
      assert a + b == b;
    } else {
      assert (a + b)[0] == a[0] && (a + b)[1..] == a[1..] + b;
      SubstituteJoin(a[1..], b, c, ent);
    }
  }

  lemma {:induction false} SubstituteAbsent(s: string, c: char, ent: string)
    requires c !in s
    ensures Substitute(s, c, ent) == s
    decreases |s|
  {
    if s != [] {
      assert s[0] in s && s == [s[0]] + s[1..];
      SubstituteAbsent(s[1..], c, ent);
    }
  }

  /** A character of the substituted text comes from `ent` or is a character of `s` other than `c`. */
  lemma {:induction false} SubstituteChars(s: string, c: char, ent: string, d: char)
    ensures d in Substitute(s, c, ent) ==> d in ent || (d in s && d != c)
    decreases |s|
  {
    if s != [] {
      SubstituteChars(s[1..], c, ent, d);
      assert s == [s[0]] + s[1..];
    }
  }

  /** A word without `&` at the front of a substituted text was at the front of the text, when `ent` starts with `&`. */
  lemma {:induction false} SubstitutePrefix(s: string, c: char, ent: string, w: string)
    requires ent != [] && ent[0] == '&' && '&' !in w
    ensures StartsWith(Substitute(s, c, ent), w) ==> StartsWith(s, w)
    decreases |w|
  {
    var t := Substitute(s, c, ent);
    if s != [] {
      assert t == (if s[0] == c then ent else [s[0]]) + Substitute(s[1..], c, ent);
      assert s[0] == c ==> t[0] == '&';
    }
    if w != [] && s != [] && StartsWith(t, w) {
      assert t[0] == w[0] && w[0] in w;
      assert t == [s[0]] + Substitute(s[1..], c, ent);
      assert t[1..][..|w| - 1] == w[1..];
      assert '&' !in w[1..] by {
        assert forall x :: x in w[1..] ==> x in w;
      }
      SubstitutePrefix(s[1..], c, ent, w[1..]);
      assert s[..|w|] == [s[0]] + s[1..][..|w| - 1];
    }
  }

  /** Text without `&` before a text in which `w` (starting with `&`) is absent leaves `w` absent. */
  lemma {:induction false} AmpersandFree(p: string, t: string, w: string)
    requires '&' !in p && w != [] && w[0] == '&' && !Contains(t, w)
    ensures !Contains(p + t, w)
    decreases |p|
  {
    if p == [] {
      assert p + t == t;
    } else {
      assert p[0] in p && (p + t)[0] == p[0];
      assert (p + t)[1..] == p[1..] + t;
      assert '&' !in p[1..] by {
        assert forall x :: x in p[1..] ==> x in p;
      }
      AmpersandFree(p[1..], t, w);
    }
  }

  /** An entity other than `w`, of the same length and with `&` only in front, does not make `w` occur. */
  lemma AfterEntity(ent: string, t: string, w: string)
    requires ent != [] && ent[0] == '&' && '&' !in ent[1..] && |ent| == |w| && ent != w
    requires w[0] == '&' && !Contains(t, w)
    ensures !Contains(ent + t, w)
  {
    assert (ent + t)[..|w|] == ent;
    assert (ent + t)[1..] == ent[1..] + t;
    AmpersandFree(ent[1..], t, w);
  }

  /** Substituting an entity of the same shape for a character does not make `w` occur. */
  lemma {:induction false} SubstituteKeepsAbsent(s: string, c: char, ent: string, w: string)
    requires w != [] && w[0] == '&' && '&' !in w[1..]
    requires ent != [] && ent[0] == '&' && '&' !in ent[1..] && |ent| == |w| && ent != w
    requires !Contains(s, w)
    ensures !Contains(Substitute(s, c, ent), w)
    decreases |s|
  {
    if s != [] {
      var rest := Substitute(s[1..], c, ent);
      SubstituteKeepsAbsent(s[1..], c, ent, w);
      if s[0] == c {
        AfterEntity(ent, rest, w);
      } else {
        SubstitutePrefix(s[1..], c, ent, w[1..]);
        var t := [s[0]] + rest;
        assert t[1..] == rest;
        if |w| <= |t| {
          assert t[..|w|] == [s[0]] + rest[..|w| - 1];
        }
        if |w| <= |s| {
          assert s[..|w|] == [s[0]] + s[1..][..|w| - 1];
        }
      }
    }
  }

  /** Replacing `ent` by `c` undoes substituting `ent` for `c`, in a text where `ent` does not occur. */
  lemma {:induction false} Restore(u: string, c: char, ent: string)
    requires ent != [] && ent[0] == '&' && '&' !in ent[1..] && !Contains(u, ent)
    ensures ReplaceAll(Substitute(u, c, ent), ent, [c]) == u
    decreases |u|
  {
    if u != [] {
      var rest := Substitute(u[1..], c, ent);
      Restore(u[1..], c, ent);
      if u[0] == c {
        assert Substitute(u, c, ent) == ent + rest;
        assert (ent + rest)[..|ent|] == ent && (ent + rest)[|ent|..] == rest;
      } else {
        var t := [u[0]] + rest;
        assert Substitute(u, c, ent) == t && t[1..] == rest;
        SubstitutePrefix(u[1..], c, ent, ent[1..]);
        if |ent| <= |t| {
          assert t[..|ent|] == [u[0]] + rest[..|ent| - 1];
        }
        if |ent| <= |u| {
          assert u[..|ent|] == [u[0]] + u[1..][..|ent| - 1];
        }
      }
    }
  }

  // -------------------------------------------------------------------------
  // htmlSafe
  // -------------------------------------------------------------------------

  const LessThan: string := "&#60;"
  const GreaterThan: string := "&#62;"

  /** `replace(/</g, '&#60;').replace(/>/gi, '&#62;')` */
  function Escape(s: string): string
  {
    ReplaceAll(ReplaceAll(s, "<", LessThan), ">", GreaterThan)
  }

  /** `replace(/\&\#60\;/g, '<').replace(/\&\#62\;/gi, '>')` */
  function Unescape(s: string): string
  {
    ReplaceAll(ReplaceAll(s, LessThan, "<"), GreaterThan, ">")
  }

  lemma SubstituteOne(x: char, c: char, ent: string)
    ensures Substitute([x], c, ent) == if x == c then ent else [x]
  {
    assert [x][1..] == [];
  }

  /** Escaping is substituting both entities, in either order. */
  lemma {:induction false} EscapeOrder(s: string)
    ensures Substitute(Substitute(s, '<', LessThan), '>', GreaterThan)
            == Substitute(Substitute(s, '>', GreaterThan), '<', LessThan)
    decreases |s|
  {
    if s != [] {
      var x := s[0];
      var p := if x == '<' then LessThan else [x];
      var q := if x == '>' then GreaterThan else [x];
      var u := Substitute(s[1..], '<', LessThan);
      var v := Substitute(s[1..], '>', GreaterThan);
      assert Substitute(s, '<', LessThan) == p + u;
      assert Substitute(s, '>', GreaterThan) == q + v;
      SubstituteJoin(p, u, '>', GreaterThan);
      SubstituteJoin(q, v, '<', LessThan);
      SubstituteAbsent(LessThan, '>', GreaterThan);
      SubstituteAbsent(GreaterThan, '<', LessThan);
      SubstituteOne(x, '>', GreaterThan);
      SubstituteOne(x, '<', LessThan);
      assert Substitute(p, '>', GreaterThan) == Substitute(q, '<', LessThan);
      EscapeOrder(s[1..]);
    }
  }

  lemma EscapeIsSubstitution(s: string)
    ensures Escape(s) == Substitute(Substitute(s, '<', LessThan), '>', GreaterThan)
  {
    assert "<" == ['<'] && ">" == ['>'];
    ReplaceChar(s, '<', LessThan);
    ReplaceChar(Substitute(s, '<', LessThan), '>', GreaterThan);
  }

  /** Escaped text holds no `<` and no `>`. */
  lemma EscapeIsSafe(s: string)
    ensures '<' !in Escape(s) && '>' !in Escape(s)
  {
    EscapeIsSubstitution(s);
    var u := Substitute(s, '<', LessThan);
    SubstituteChars(s, '<', LessThan, '<');
    SubstituteChars(u, '>', GreaterThan, '<');
    SubstituteChars(u, '>', GreaterThan, '>');
  }

  /** Unescaping escaped text gives the text back, when it held neither entity. */
  lemma HtmlRoundTrip(s: string)
    requires !Contains(s, LessThan) && !Contains(s, GreaterThan)
    ensures Unescape(Escape(s)) == s
  {
    EscapeIsSubstitution(s);
    EscapeOrder(s);
    var u := Substitute(s, '>', GreaterThan);
    SubstituteKeepsAbsent(s, '>', GreaterThan, LessThan);
    assert "<" == ['<'] && ">" == ['>'];
    Restore(u, '<', LessThan);
    Restore(s, '>', GreaterThan);
  }

  /** `htmlSafe`: a non-string is read as ''. */
  function HtmlSafe(h: Heap, val: Value, op: string, args: Args): (r: Value)
    ensures Renders(op) ==> r.Str? && '<' !in r.s && '>' !in r.s
  {
    if op == "validate" then Undefined
    else
      var text := if val.Str? then val.s else "";
      if text == "" then Str("")
      else if op == "unformat" then Str(Unescape(text))
      else if Renders(op) then (EscapeIsSafe(text); Str(Escape(text)))
      else Undefined
  }

  /**
   * Under validate `htmlSafe` answers undefined; otherwise a value that is
   * not a string reads as '', and rendered text reads back as the value.
   */
  lemma HtmlSafeRoundTrip(h: Heap, h': Heap, val: Value, op: string, args: Args, args': Args)
    requires Renders(op)
    requires val.Str? ==> !Contains(val.s, LessThan) && !Contains(val.s, GreaterThan)
    ensures HtmlSafe(h, val, "validate", args) == Undefined
    ensures HtmlSafe(h', HtmlSafe(h, val, op, args), "unformat", args') == (if val.Str? then val else Str(""))
  {
    if val.Str? && val.s != "" {
      HtmlRoundTrip(val.s);
      assert Escape(val.s) != "" by {
        assert Unescape("") == "";
      }
    }
  }

  lemma EntityUnescaped(e: string)
    requires e == LessThan
    ensures Unescape(e) == "<"
  {
    assert StartsWith(e, LessThan) && e[|LessThan|..] == [];
    assert ReplaceAll(e, LessThan, "<") == "<" + ReplaceAll([], LessThan, "<");
    var lt := "<";
    assert !StartsWith(lt, GreaterThan) && lt[1..] == [];
    assert ReplaceAll(lt, GreaterThan, ">") == [lt[0]] + ReplaceAll([], GreaterThan, ">");
  }

  /** Text that already holds an entity does not survive the round trip: the entity is read back as its character. */
  lemma EntityReadBack(e: string)
    requires e == LessThan
    ensures Unescape(Escape(e)) == "<"
  {
    EscapeIsSubstitution(e);
    assert '<' !in e && '>' !in e;
    SubstituteAbsent(e, '<', LessThan);
    SubstituteAbsent(e, '>', GreaterThan);
    EntityUnescaped(e);
  }

  // -------------------------------------------------------------------------
  // default and prettify
  // -------------------------------------------------------------------------

  /** `default`: the value itself, except undefined under validate. */
  function Default(h: Heap, val: Value, op: string, args: Args): Value
  {
    if op != "validate" then val else Undefined
  }

  /** A `default` step leaves the value of a chain as it is, and lets validation go on. */
  lemma DefaultIsNeutral(h: Heap, parsed: Args, rest: seq<Step>, val: Value, op: string, fa: Args)
    ensures op != "validate" ==> Fold(h, [Wrapped(parsed, Default)] + rest, val, op, fa) == Fold(h, rest, val, op, fa)
    ensures Passes(h, Wrapped(parsed, Default), val, fa)
  {
    StepReplaces(h, Wrapped(parsed, Default), rest, val, op, fa);
  }

  /** `utils.prettify(val, all)`, which is not part of this model. */
  type Prettifier = (Heap, Value, Value) -> Value

  /** `prettify`: under format, '' for an empty value and the prettified value otherwise; the value under every other op. */
  function Prettify(pretty: Prettifier): RuleFn
  {
    (h: Heap, val: Value, op: string, args: Args) =>
      if op == "format" then (if IsEmptyValue(h, val) then Str("") else pretty(h, val, ArgOf(args, "all")))
      else val
  }

  /** A `prettify` step changes the value only under format, and formats an empty value as ''. */
  lemma PrettifyOnlyFormats(pretty: Prettifier, h: Heap, parsed: Args, rest: seq<Step>, val: Value, op: string, fa: Args)
    ensures op != "format" && op != "validate"
            ==> Fold(h, [Wrapped(parsed, Prettify(pretty))] + rest, val, op, fa) == Fold(h, rest, val, op, fa)
    ensures IsEmptyValue(h, val)
            ==> Fold(h, [Wrapped(parsed, Prettify(pretty))] + rest, val, "format", fa) == Fold(h, rest, Str(""), "format", fa)
  {
    StepReplaces(h, Wrapped(parsed, Prettify(pretty)), rest, val, op, fa);
    StepReplaces(h, Wrapped(parsed, Prettify(pretty)), rest, val, "format", fa);
  }

  // -------------------------------------------------------------------------
  // bool
  // -------------------------------------------------------------------------

  predicate HasNonZeroDigit(t: string)
  {
    exists i :: 0 <= i < |t| && '1' <= t[i] <= '9'
  }

  /** `/\W*(enabled|true|yes|yea|yeah|affirmative|y|checked|[1-9]+)/i` finds a match somewhere in `text`. */
  predicate Affirms(text: string)
  {
    var t := ToLower(text);
    Contains(t, "enabled") || Contains(t, "true") || Contains(t, "yes") || Contains(t, "yea")
    || Contains(t, "yeah") || Contains(t, "affirmative") || Contains(t, "y") || Contains(t, "checked")
    || HasNonZeroDigit(t)
  }

  /** The words starting with `y` add nothing to `y` itself: a text affirms when it holds one of four words, a `y` or a digit 1-9. */
  lemma AffirmsIff(text: string)
    ensures var t := ToLower(text);
            Affirms(text)
            <==> Contains(t, "enabled") || Contains(t, "true") || Contains(t, "affirmative") || Contains(t, "checked")
                 || (exists i :: 0 <= i < |t| && t[i] == 'y') || HasNonZeroDigit(t)
  {
    var t := ToLower(text);
    if Contains(t, "yes") { ContainsChar(t, "yes", 0); }
    if Contains(t, "yea") { ContainsChar(t, "yea", 0); }
    if Contains(t, "yeah") { ContainsChar(t, "yeah", 0); }
    if Contains(t, "y") { ContainsChar(t, "y", 0); }
    if exists i :: 0 <= i < |t| && t[i] == 'y' {
      var i :| 0 <= i < |t| && t[i] == 'y';
      assert t[i..i + 1] == "y";
      ContainsAt(t, "y", i);
    }
  }

  /** `bool`: numbers by truth, booleans as they are, other values by whether their text affirms. */
  function BoolFormat(h: Heap, val: Value, op: string, args: Args): (r: Value)
  {
    match val
    case Number(_) => Bool(Truthy(val))
    case Bool(_) => val
    case _ =>
      var isTrue := Affirms(ToString(h, val));
      if op == "unformat" then Bool(isTrue)
      else if Renders(op) then Str(if isTrue then "true" else "false")
      else Undefined
  }

  lemma TrueAffirms(t: string)
    requires t == "true"
    ensures Affirms(t)
  {
    assert ToLower(t) == t;
    ContainsItself(t);
  }

  lemma FalseLacksWords(t: string)
    requires t == "false"
    ensures !Contains(t, "enabled") && !Contains(t, "true") && !Contains(t, "yes") && !Contains(t, "yea")
  {
    NotContains(t, "enabled", 1);
    NotContains(t, "true", 0);
    NotContains(t, "yes", 0);
    NotContains(t, "yea", 0);
  }

  lemma FalseLacksMoreWords(t: string)
    requires t == "false"
    ensures !Contains(t, "yeah") && !Contains(t, "affirmative") && !Contains(t, "y") && !Contains(t, "checked")
  {
    NotContains(t, "yeah", 0);
    NotContains(t, "affirmative", 3);
    NotContains(t, "y", 0);
    NotContains(t, "checked", 0);
  }

  lemma FalseDenies(t: string)
    requires t == "false"
    ensures !Affirms(t)
  {
    assert ToLower(t) == t;
    FalseLacksWords(t);
    FalseLacksMoreWords(t);
    assert !HasNonZeroDigit(t);
  }

  /** Reading back what `bool` rendered gives the boolean the value itself reads as. */
  lemma BoolRoundTrip(h: Heap, h': Heap, val: Value, op: string, args: Args, args': Args)
    requires Renders(op) && !val.Number? && !val.Bool?
    ensures BoolFormat(h', BoolFormat(h, val, op, args), "unformat", args') == BoolFormat(h, val, "unformat", args)
  {
    var isTrue := Affirms(ToString(h, val));
    var r := if isTrue then "true" else "false";
    assert BoolFormat(h, val, op, args) == Str(r);
    assert BoolFormat(h, val, "unformat", args) == Bool(isTrue);
    assert ToString(h', Str(r)) == r;
    if isTrue {
      TrueAffirms(r);
    } else {
      FalseDenies(r);
    }
  }

  /** Numbers read as their truth and booleans as themselves, whatever the op. */
  lemma BoolKeepsTruth(h: Heap, val: Value, op: string, args: Args)
    requires val.Number? || val.Bool?
    ensures BoolFormat(h, val, op, args) == Bool(Truthy(val))
  {
  }

  // -------------------------------------------------------------------------
  // phone
  // -------------------------------------------------------------------------

  /** `s.substr(start, len)`: at most `len` characters, fewer at the end of the text. */
  function Substr(s: string, start: nat, len: nat): (r: string)
    ensures |r| <= len
    ensures start + len <= |s| ==> r == s[start..start + len]
  {
    if start >= |s| then "" else if start + len <= |s| then s[start..start + len] else s[start..]
  }

  /** `s.replace(/[^0-9]/g, '')` */
  function KeepDigits(s: string): (r: string)
    ensures AllDigits(r) && |r| <= |s|
    ensures AllDigits(s) ==> r == s
  {
    if s == [] then []
    else
      var rest := KeepDigits(s[1..]);
      assert AllDigits(s) ==> AllDigits(s[1..]);
      (if IsDigit(s[0]) then [s[0]] else []) + rest
  }

  lemma {:induction false} KeepDigitsJoin(a: string, b: string)
    ensures KeepDigits(a + b) == KeepDigits(a) + KeepDigits(b)
    decreases |a|
  {
    if a == [] {
      assert a + b == b;
    } else {
      assert (a + b)[0] == a[0] && (a + b)[1..] == a[1..] + b;
      KeepDigitsJoin(a[1..], b);
    }
  }

  /** `(AAA) BBB-CCCC`, skipping the first character when there are 11 or the first is '1'. */
  function PhoneLayout(t: string): string
    requires 9 <= |t| <= 11
  {
    var i := if |t| == 11 || t[0] == '1' then 1 else 0;
    "(" + Substr(t, i, 3) + ") " + Substr(t, i + 3, 3) + "-" + Substr(t, i + 6, 4)
  }

  /** The digits, with a '1' added to ten of them and a '+' put before any count other than ten or eleven. */
  function PhoneNumber(t: string): string
  {
    var d := KeepDigits(t);
    if |d| == 10 then "1" + d else if |d| == 11 then d else "+" + d
  }

  /** `phone`. */
  function Phone(h: Heap, val: Value, op: string, args: Args): Value
  {
    if op == "format" || op == "display" then
      if !Truthy(val) then Str("")
      else
        var t := ToString(h, val);
        if |t| < 9 || |t| > 11 then Str(t) else Str(PhoneLayout(t))
    else if op == "unformat" || op == "sort" then
      if IsNullish(val) || LooselyEqualsZero(h, Member(h, val, "length").value) then val
      else Str(PhoneNumber(ToString(h, val)))
    else Undefined
  }

  /** Only `length` 0 makes a string read back as itself. */
  lemma StringLengthZero(h: Heap, s: string)
    ensures LooselyEqualsZero(h, Member(h, Str(s), "length").value) <==> s == ""
  {
    assert IsStringOwnKey(s, "length");
  }

  lemma PhoneReadsText(h: Heap, s: string, op: string, args: Args)
    requires op == "unformat" || op == "sort"
    ensures Phone(h, Str(s), op, args) == if s == "" then Str("") else Str(PhoneNumber(s))
  {
    StringLengthZero(h, s);
  }

  /** The digit rule applied to its own result changes nothing. */
  lemma PhoneNumberFixed(s: string)
    ensures PhoneNumber(s) != "" && PhoneNumber(PhoneNumber(s)) == PhoneNumber(s)
  {
    var d := KeepDigits(s);
    if |d| == 10 {
      KeepDigitsJoin("1", d);
      assert KeepDigits("1") == "1";
    } else if |d| != 11 {
      KeepDigitsJoin("+", d);
      assert KeepDigits("+") == "";
      assert "" + d == d;
    }
  }

  lemma PhoneNumberShape(s: string)
    ensures var r := PhoneNumber(s);
            (|r| == 11 && AllDigits(r)) || (r[0] == '+' && AllDigits(r[1..]) && |r| != 11 && |r| != 12)
  {
    var d := KeepDigits(s);
    if |d| == 10 {
      assert forall i :: 0 <= i < |d| ==> ("1" + d)[i + 1] == d[i];
    } else if |d| != 11 {
      assert ("+" + d)[1..] == d;
    }
  }

  /** What `phone` reads back from a string: the string when empty, and else eleven digits, or '+' and any other count of digits. */
  lemma PhoneNumberForms(h: Heap, s: string, op: string, args: Args)
    requires op == "unformat" || op == "sort"
    ensures var r := Phone(h, Str(s), op, args);
            r.Str?
            && (s == "" ==> r.s == "")
            && (s != "" ==> (|r.s| == 11 && AllDigits(r.s))
                            || (r.s[0] == '+' && AllDigits(r.s[1..]) && |r.s| != 11 && |r.s| != 12))
  {
    PhoneReadsText(h, s, op, args);
    PhoneNumberShape(s);
  }

  /** Reading back what `phone` read back changes nothing. */
  lemma PhoneNumberIdempotent(h: Heap, h': Heap, s: string, op: string, op': string, args: Args, args': Args)
    requires op == "unformat" || op == "sort"
    requires op' == "unformat" || op' == "sort"
    ensures Phone(h', Phone(h, Str(s), op, args), op', args') == Phone(h, Str(s), op, args)
  {
    PhoneReadsText(h, s, op, args);
    if s != "" {
      PhoneNumberFixed(s);
      PhoneReadsText(h', PhoneNumber(s), op', args');
    } else {
      PhoneReadsText(h', s, op', args');
    }
  }

  /** Text shorter than nine or longer than eleven characters is rendered as it is. */
  lemma PhoneLengthGuard(h: Heap, val: Value, op: string, args: Args)
    requires op == "format" || op == "display"
    requires Truthy(val) && (|ToString(h, val)| < 9 || |ToString(h, val)| > 11)
    ensures Phone(h, val, op, args) == Str(ToString(h, val))
  {
  }

  lemma {:induction false} NoDigitsKept(p: string)
    requires forall i :: 0 <= i < |p| ==> !IsDigit(p[i])
    ensures KeepDigits(p) == ""
    decreases |p|
  {
    if p != [] {
      NoDigitsKept(p[1..]);
    }
  }

  /** The digits of a rendered number, read back. */
  lemma LayoutDigits(a: string, b: string, c: string)
    requires AllDigits(a) && AllDigits(b) && AllDigits(c)
    ensures KeepDigits("(" + a + ") " + b + "-" + c) == a + b + c
  {
    NoDigitsKept("(");
    NoDigitsKept(") ");
    NoDigitsKept("-");
    var s1 := "(" + a;
    KeepDigitsJoin("(", a);
    assert KeepDigits(s1) == a;
    var s2 := s1 + ") ";
    KeepDigitsJoin(s1, ") ");
    assert KeepDigits(s2) == a;
    var s3 := s2 + b;
    KeepDigitsJoin(s2, b);
    assert KeepDigits(s3) == a + b;
    var s4 := s3 + "-";
    KeepDigitsJoin(s3, "-");
    assert KeepDigits(s4) == a + b;
    KeepDigitsJoin(s4, c);
  }

  lemma PhoneRendersText(h: Heap, t: string, op: string, args: Args)
    requires op == "format" || op == "display"
    requires 9 <= |t| <= 11
    ensures Phone(h, Str(t), op, args) == Str(PhoneLayout(t))
  {
  }

  lemma TenDigitsLayout(d: string)
    requires |d| == 10 && AllDigits(d) && d[0] != '1'
    ensures PhoneLayout(d) == "(" + d[..3] + ") " + d[3..6] + "-" + d[6..]
    ensures PhoneNumber(PhoneLayout(d)) == "1" + d
  {
    assert d[0..3] == d[..3] && d[6..10] == d[6..];
    LayoutDigits(d[..3], d[3..6], d[6..]);
    assert d[..3] + d[3..6] + d[6..] == d;
  }

  /** Ten digits not starting with '1' render as `(AAA) BBB-CCCC`, which reads back as '1' and the ten digits. */
  lemma PhoneTenDigits(h: Heap, h': Heap, d: string, args: Args, args': Args)
    requires |d| == 10 && AllDigits(d) && d[0] != '1'
    ensures Phone(h, Str(d), "format", args) == Str("(" + d[..3] + ") " + d[3..6] + "-" + d[6..])
    ensures Phone(h', Phone(h, Str(d), "format", args), "unformat", args') == Str("1" + d)
  {
    PhoneRendersText(h, d, "format", args);
    TenDigitsLayout(d);
    PhoneReadsText(h', PhoneLayout(d), "unformat", args');
  }

  lemma ElevenDigitsLayout(d: string)
    requires |d| == 11 && AllDigits(d) && d[0] == '1'
    ensures PhoneLayout(d) == "(" + d[1..4] + ") " + d[4..7] + "-" + d[7..]
    ensures PhoneNumber(PhoneLayout(d)) == d
  {
    assert d[7..11] == d[7..];
    LayoutDigits(d[1..4], d[4..7], d[7..]);
    assert d[1..4] + d[4..7] + d[7..] == d[1..];
    assert "1" + d[1..] == d;
  }

  /** Eleven digits starting with '1' render without the '1' and read back as they were. */
  lemma PhoneElevenDigits(h: Heap, h': Heap, d: string, args: Args, args': Args)
    requires |d| == 11 && AllDigits(d) && d[0] == '1'
    ensures Phone(h, Str(d), "format", args) == Str("(" + d[1..4] + ") " + d[4..7] + "-" + d[7..])
    ensures Phone(h', Phone(h, Str(d), "format", args), "unformat", args') == Str(d)
  {
    PhoneRendersText(h, d, "format", args);
    ElevenDigitsLayout(d);
    PhoneReadsText(h', PhoneLayout(d), "unformat", args');
  }

  /** Nine characters starting with '1' lose the '1', and the last group keeps the two characters left. */
  lemma PhoneNineFromOne(h: Heap, t: string, args: Args)
    requires |t| == 9 && t[0] == '1'
    ensures Phone(h, Str(t), "format", args) == Str("(" + t[1..4] + ") " + t[4..7] + "-" + t[7..])
  {
  }

  // -------------------------------------------------------------------------
  // url
  // -------------------------------------------------------------------------

  /** The length of the run of word characters `\w` at the front of `t`. */
  function WordRun(t: string): (n: nat)
    ensures n <= |t| && (n < |t| ==> !IsWordChar(t[n]))
    ensures forall i :: 0 <= i < n ==> IsWordChar(t[i])
  {
    if t == [] || !IsWordChar(t[0]) then 0
    else
      var n := WordRun(t[1..]);
      assert forall i :: 1 <= i < n + 1 ==> t[i] == t[1..][i - 1];
      1 + n
  }

  /** `t.match(/^\w+:\/\//) != null`: the word run ends at `://`, since `:` is not a word character. */
  predicate HasScheme(t: string)
  {
    var n := WordRun(t);
    n >= 1 && StartsWith(t[n..], "://")
  }

  /** `url`. */
  function Url(h: Heap, val: Value, op: string, args: Args): Value
  {
    if op == "validate" then Undefined
    else if op == "format" || op == "display" then
      if !Truthy(val) || !val.Str? then Str("")
      else if AllSpace(val.s) then Str("")
      else if !HasScheme(val.s) then Str("http://" + val.s)
      else val
    else val
  }

  lemma {:induction false} WordRunFront(w: string, rest: string)
    requires forall i :: 0 <= i < |w| ==> IsWordChar(w[i])
    ensures WordRun(w + rest) == |w| + WordRun(rest)
    decreases |w|
  {
    if w == [] {
      assert w + rest == rest;
    } else {
      assert (w + rest)[0] == w[0] && (w + rest)[1..] == w[1..] + rest;
      WordRunFront(w[1..], rest);
    }
  }

  lemma HttpScheme(t: string)
    ensures HasScheme("http://" + t) && !AllSpace("http://" + t)
  {
    var u := "http://" + t;
    assert u == "http" + ("://" + t);
    WordRunFront("http", "://" + t);
    assert WordRun("://" + t) == 0;
    assert u[4..] == "://" + t;
    assert ("://" + t)[..3] == "://";
    assert !IsSpace(u[0]);
  }

  /**
   * Rendered by `url`, a value is '' or text with a scheme, which renders
   * as itself again; every op but validate, format and display gives the
   * value back.
   */
  lemma UrlIdempotent(h: Heap, h': Heap, val: Value, op: string, op': string, args: Args, args': Args)
    requires op == "format" || op == "display"
    requires op' == "format" || op' == "display"
    ensures var r := Url(h, val, op, args);
            (r == Str("") || (r.Str? && HasScheme(r.s))) && Url(h', r, op', args') == r
  {
    if val.Str? {
      HttpScheme(val.s);
    }
  }

  // -------------------------------------------------------------------------
  // The registry
  // -------------------------------------------------------------------------

  /** The formatters modelled here, under the names they are registered with. */
  function FormatterPool(pretty: Prettifier): (pool: Pool)
    ensures forall name :: name in pool ==> pool[name].Callable?
  {
    map["prettify" := Callable(Prettify(pretty)), "htmlSafe" := Callable(HtmlSafe), "default" := Callable(Default),
        "bool" := Callable(BoolFormat), "phone" := Callable(Phone), "url" := Callable(Url)]
  }

  lemma HtmlSafeStep(pretty: Prettifier)
    ensures Steps(FormatterPool(pretty), Text("htmlSafe")) == Ok([Wrapped(map[], HtmlSafe)])
  {
    var pool := FormatterPool(pretty);
    assert IsWord("htmlSafe");
    OneRule(pool, "htmlSafe", []);
    assert RuleText("htmlSafe", []) == "htmlSafe" && PutAll(map[], []) == map[];
  }

  /** `formatterFunction('htmlSafe')` escapes text under a rendering op, and reads the escaped text back under unformat. */
  lemma HtmlSafeChain(pretty: Prettifier, h: Heap, s: string, op: string, fa: Args, ua: Args)
    requires Renders(op) && !Contains(s, LessThan) && !Contains(s, GreaterThan)
    ensures var steps := Steps(FormatterPool(pretty), Text("htmlSafe"));
            steps.Ok?
            && Call(h, steps.value, fa, Str(s), op, ua) == Returns(Ok(Str(Escape(s))))
            && Call(h, steps.value, fa, Str(Escape(s)), "unformat", ua) == Returns(Ok(Str(s)))
  {
    HtmlSafeStep(pretty);
    var step := Wrapped(map[], HtmlSafe);
    var formatterArgs := Assign(ua, fa);
    StepReplaces(h, step, [], Str(s), op, formatterArgs);
    StepReplaces(h, step, [], Str(Escape(s)), "unformat", formatterArgs);
    assert [step] + [] == [step];
    assert Escape("") == "";
    assert Unescape("") == "";
    HtmlRoundTrip(s);
  }
}

/**
 * The anchored regular expressions the validators test values with
 * (`/^…$/.test(text)`), as a small matcher: a pattern matches `t[i..j]`
 * when some way through its alternatives and repetitions spells out
 * exactly those characters. For a pattern anchored at both ends this is
 * what the backtracking matcher decides, since none of the repeated
 * parts here can match the empty text.
 */
module Regex {
  import opened JsCore

  /** A character class. */
  datatype Class =
    | Digit                        // \d
    | NonDigit                     // \D
    | Exactly(c: char)
    | Between(lo: char, hi: char)  // [lo-hi]
    | AlphaNum                     // [0-9a-zA-Z]

  predicate InClass(k: Class, c: char)
  {
    match k
    case Digit => IsDigit(c)
    case NonDigit => !IsDigit(c)
    case Exactly(x) => c == x
    case Between(lo, hi) => lo <= c <= hi
    case AlphaNum => IsDigit(c) || IsAsciiLetter(c)
  }

  datatype Re =
    | Char(k: Class)
    | Cat(first: Re, second: Re)
    | Alt(left: Re, right: Re)
    | Repeat(body: Re, min: nat, max: nat)   // body{min,max}
    | Many(body: Re, least: nat)             // body{least,}

  /** `x?` */
  function Opt(x: Re): Re { Repeat(x, 0, 1) }

  /** Whether `r` matches exactly `t[i..j]`. */
  predicate Match(r: Re, t: string, i: nat, j: nat)
    requires i <= j <= |t|
    decreases r, 0
  {
    match r
    case Char(k) => j == i + 1 && InClass(k, t[i])
    case Cat(a, b) => exists m :: i <= m <= j && Match(a, t, i, m) && Match(b, t, m, j)
    case Alt(a, b) => Match(a, t, i, j) || Match(b, t, i, j)
    case Repeat(x, lo, hi) => MatchRepeat(x, lo, hi, t, i, j)
    case Many(x, lo) => MatchMany(x, lo, t, i, j)
  }

  /** `x{lo,hi}` on `t[i..j]`: done once nothing is owed, or one more `x` and the rest. */
  predicate MatchRepeat(x: Re, lo: nat, hi: nat, t: string, i: nat, j: nat)
    requires i <= j <= |t|
    decreases x, hi + 1
  {
    (lo == 0 && i == j)
    || (hi > 0 && exists m :: i <= m <= j && Match(x, t, i, m) && MatchRepeat(x, if lo == 0 then 0 else lo - 1, hi - 1, t, m, j))
  }

  /** `x{lo,}` on `t[i..j]`; an iteration that matches nothing is no iteration. */
  predicate MatchMany(x: Re, lo: nat, t: string, i: nat, j: nat)
    requires i <= j <= |t|
    decreases x, j - i + 1
  {
    (lo == 0 && i == j)
    || exists m :: i < m <= j && Match(x, t, i, m) && MatchMany(x, if lo == 0 then 0 else lo - 1, t, m, j)
  }

  /** `/^r$/.test(t)` */
  predicate Test(r: Re, t: string)
  {
    Match(r, t, 0, |t|)
  }

  /** The split point of a concatenation's match. */
  lemma CatSplit(a: Re, b: Re, t: string, i: nat, j: nat) returns (m: nat)
    requires i <= j <= |t| && Match(Cat(a, b), t, i, j)
    ensures i <= m <= j && Match(a, t, i, m) && Match(b, t, m, j)
  {
    m :| i <= m <= j && Match(a, t, i, m) && Match(b, t, m, j);
  }

  /** The end of the first iteration of a bounded repetition that matched something. */
  lemma RepeatSplit(x: Re, lo: nat, hi: nat, t: string, i: nat, j: nat) returns (m: nat)
    requires i <= j <= |t| && MatchRepeat(x, lo, hi, t, i, j) && !(lo == 0 && i == j)
    ensures hi > 0 && i <= m <= j && Match(x, t, i, m) && MatchRepeat(x, if lo == 0 then 0 else lo - 1, hi - 1, t, m, j)
  {
    m :| i <= m <= j && Match(x, t, i, m) && MatchRepeat(x, if lo == 0 then 0 else lo - 1, hi - 1, t, m, j);
  }

  /** The end of the first iteration of an unbounded repetition that matched something. */
  lemma ManySplit(x: Re, lo: nat, t: string, i: nat, j: nat) returns (m: nat)
    requires i <= j <= |t| && MatchMany(x, lo, t, i, j) && !(lo == 0 && i == j)
    ensures i < m <= j && Match(x, t, i, m) && MatchMany(x, if lo == 0 then 0 else lo - 1, t, m, j)
  {
    m :| i < m <= j && Match(x, t, i, m) && MatchMany(x, if lo == 0 then 0 else lo - 1, t, m, j);
  }

  // -------------------------------------------------------------------------
  // Runs of one class
  // -------------------------------------------------------------------------

  /** Whether every character of `t[i..j]` is in class `k`. */
  predicate AllIn(k: Class, t: string, i: nat, j: nat)
    requires i <= j <= |t|
  {
    forall p :: i <= p < j ==> InClass(k, t[p])
  }

  /** `[k]{lo,hi}` matches exactly the runs of `k` of a length from `lo` to `hi`. */
  lemma {:induction false} RepeatRun(k: Class, lo: nat, hi: nat, t: string, i: nat, j: nat)
    requires i <= j <= |t|
    ensures MatchRepeat(Char(k), lo, hi, t, i, j) <==> lo <= j - i <= hi && AllIn(k, t, i, j)
    decreases hi
  {
    var lo' := if lo == 0 then 0 else lo - 1;
    if MatchRepeat(Char(k), lo, hi, t, i, j) && !(lo == 0 && i == j) {
      var m := RepeatSplit(Char(k), lo, hi, t, i, j);
      RepeatRun(k, lo', hi - 1, t, m, j);
    }
    if lo <= j - i <= hi && AllIn(k, t, i, j) && i < j {
      RepeatRun(k, lo', hi - 1, t, i + 1, j);
      assert Match(Char(k), t, i, i + 1);
    }
  }

  /** `[k]{lo,}` matches exactly the runs of `k` at least `lo` long. */
  lemma {:induction false} ManyRun(k: Class, lo: nat, t: string, i: nat, j: nat)
    requires i <= j <= |t|
    ensures MatchMany(Char(k), lo, t, i, j) <==> lo <= j - i && AllIn(k, t, i, j)
    decreases j - i
  {
    var lo' := if lo == 0 then 0 else lo - 1;
    if MatchMany(Char(k), lo, t, i, j) && !(lo == 0 && i == j) {
      var m := ManySplit(Char(k), lo, t, i, j);
      ManyRun(k, lo', t, m, j);
    }
    if lo <= j - i && AllIn(k, t, i, j) && i < j {
      ManyRun(k, lo', t, i + 1, j);
      assert Match(Char(k), t, i, i + 1);
    }
  }

  /** `[k]?` matches nothing, or one character of `k`. */
  lemma OptChar(k: Class, t: string, i: nat, j: nat)
    requires i <= j <= |t|
    ensures Match(Opt(Char(k)), t, i, j) <==> j == i || (j == i + 1 && InClass(k, t[i]))
  {
    RepeatRun(k, 0, 1, t, i, j);
  }

  /** Two single characters in a row. */
  lemma PairMatch(a: Class, b: Class, t: string, i: nat, j: nat)
    requires i <= j <= |t|
    ensures Match(Cat(Char(a), Char(b)), t, i, j) <==> j == i + 2 && InClass(a, t[i]) && InClass(b, t[i + 1])
  {
    if j == i + 2 && InClass(a, t[i]) && InClass(b, t[i + 1]) {
      assert Match(Char(a), t, i, i + 1) && Match(Char(b), t, i + 1, j);
    }
  }

  /** An optional character of `k` followed by `r` up to the end. */
  lemma OptThen(k: Class, r: Re, t: string, i: nat)
    requires i <= |t|
    ensures Match(Cat(Opt(Char(k)), r), t, i, |t|)
            <==> Match(r, t, i, |t|) || (i < |t| && InClass(k, t[i]) && Match(r, t, i + 1, |t|))
  {
    if Match(Cat(Opt(Char(k)), r), t, i, |t|) {
      var m := CatSplit(Opt(Char(k)), r, t, i, |t|);
      OptChar(k, t, i, m);
    }
    if Match(r, t, i, |t|) {
      OptChar(k, t, i, i);
    } else if i < |t| && InClass(k, t[i]) && Match(r, t, i + 1, |t|) {
      OptChar(k, t, i, i + 1);
    }
  }

  // -------------------------------------------------------------------------
  // Digits a match must contain
  // -------------------------------------------------------------------------

  /** The number of decimal digits in `t[i..j]`. */
  function DigitCount(t: string, i: nat, j: nat): nat
    requires i <= j <= |t|
    decreases j - i
  {
    if i == j then 0 else (if IsDigit(t[i]) then 1 else 0) + DigitCount(t, i + 1, j)
  }

  lemma {:induction false} DigitCountSplit(t: string, i: nat, m: nat, j: nat)
    requires i <= m <= j <= |t|
    ensures DigitCount(t, i, j) == DigitCount(t, i, m) + DigitCount(t, m, j)
    decreases m - i
  {
    if i < m {
      DigitCountSplit(t, i + 1, m, j);
    }
  }

  /** Whether a class holds digits only. */
  predicate OnlyDigits(k: Class)
  {
    k == Digit || (k.Between? && '0' <= k.lo && k.hi <= '9') || (k.Exactly? && IsDigit(k.c))
  }

  /** The fewest digits any text `r` matches can hold. */
  function MinDigits(r: Re): nat
  {
    match r
    case Char(k) => if OnlyDigits(k) then 1 else 0
    case Cat(a, b) => MinDigits(a) + MinDigits(b)
    case Alt(a, b) => if MinDigits(a) <= MinDigits(b) then MinDigits(a) else MinDigits(b)
    case Repeat(x, lo, _) => lo * MinDigits(x)
    case Many(x, lo) => lo * MinDigits(x)
  }

  /** Every text a pattern matches holds at least `MinDigits` digits. */
  lemma {:induction false} MatchHasDigits(r: Re, t: string, i: nat, j: nat)
    requires i <= j <= |t| && Match(r, t, i, j)
    ensures DigitCount(t, i, j) >= MinDigits(r)
    decreases r, 0
  {
    match r
    case Char(k) =>
      assert DigitCount(t, i + 1, j) == 0;
    case Cat(a, b) =>
      var m := CatSplit(a, b, t, i, j);
      MatchHasDigits(a, t, i, m);
      MatchHasDigits(b, t, m, j);
      DigitCountSplit(t, i, m, j);
    case Alt(a, b) =>
      if Match(a, t, i, j) {
        MatchHasDigits(a, t, i, j);
      } else {
        MatchHasDigits(b, t, i, j);
      }
    case Repeat(x, lo, hi) =>
      RepeatHasDigits(x, lo, hi, t, i, j);
    case Many(x, lo) =>
      ManyHasDigits(x, lo, t, i, j);
  }

  lemma {:induction false} RepeatHasDigits(x: Re, lo: nat, hi: nat, t: string, i: nat, j: nat)
    requires i <= j <= |t| && MatchRepeat(x, lo, hi, t, i, j)
    ensures DigitCount(t, i, j) >= lo * MinDigits(x)
    decreases x, hi + 1
  {
    if lo > 0 {
      var m := RepeatSplit(x, lo, hi, t, i, j);
      MatchHasDigits(x, t, i, m);
      RepeatHasDigits(x, lo - 1, hi - 1, t, m, j);
      DigitCountSplit(t, i, m, j);
      Times(lo, MinDigits(x));
    }
  }

  lemma {:induction false} ManyHasDigits(x: Re, lo: nat, t: string, i: nat, j: nat)
    requires i <= j <= |t| && MatchMany(x, lo, t, i, j)
    ensures DigitCount(t, i, j) >= lo * MinDigits(x)
    decreases x, j - i + 1
  {
    if lo > 0 {
      var m := ManySplit(x, lo, t, i, j);
      MatchHasDigits(x, t, i, m);
      ManyHasDigits(x, lo - 1, t, m, j);
      DigitCountSplit(t, i, m, j);
      Times(lo, MinDigits(x));
    }
  }

  lemma Times(n: nat, d: nat)
    requires n > 0
    ensures n * d == (n - 1) * d + d
  {
  }

  // -------------------------------------------------------------------------
  // Characters a match can hold
  // -------------------------------------------------------------------------

  /** Whether some class of `r` holds `c`. */
  predicate Mentions(r: Re, c: char)
  {
    match r
    case Char(k) => InClass(k, c)
    case Cat(a, b) => Mentions(a, c) || Mentions(b, c)
    case Alt(a, b) => Mentions(a, c) || Mentions(b, c)
    case Repeat(x, _, _) => Mentions(x, c)
    case Many(x, _) => Mentions(x, c)
  }

  /** Every character of a matched text is held by some class of the pattern. */
  lemma {:induction false} MatchMentions(r: Re, t: string, i: nat, j: nat, p: nat)
    requires i <= p < j <= |t| && Match(r, t, i, j)
    ensures Mentions(r, t[p])
    decreases r, 0
  {
    match r
    case Char(k) =>
    case Cat(a, b) =>
      var m := CatSplit(a, b, t, i, j);
      if p < m {
        MatchMentions(a, t, i, m, p);
      } else {
        MatchMentions(b, t, m, j, p);
      }
    case Alt(a, b) =>
      if Match(a, t, i, j) {
        MatchMentions(a, t, i, j, p);
      } else {
        MatchMentions(b, t, i, j, p);
      }
    case Repeat(x, lo, hi) =>
      RepeatMentions(x, lo, hi, t, i, j, p);
    case Many(x, lo) =>
      ManyMentions(x, lo, t, i, j, p);
  }

  lemma {:induction false} RepeatMentions(x: Re, lo: nat, hi: nat, t: string, i: nat, j: nat, p: nat)
    requires i <= p < j <= |t| && MatchRepeat(x, lo, hi, t, i, j)
    ensures Mentions(x, t[p])
    decreases x, hi + 1
  {
    var m := RepeatSplit(x, lo, hi, t, i, j);
    if p < m {
      MatchMentions(x, t, i, m, p);
    } else {
      RepeatMentions(x, if lo == 0 then 0 else lo - 1, hi - 1, t, m, j, p);
    }
  }

  lemma {:induction false} ManyMentions(x: Re, lo: nat, t: string, i: nat, j: nat, p: nat)
    requires i <= p < j <= |t| && MatchMany(x, lo, t, i, j)
    ensures Mentions(x, t[p])
    decreases x, j - i + 1
  {
    var m := ManySplit(x, lo, t, i, j);
    if p < m {
      MatchMentions(x, t, i, m, p);
    } else {
      ManyMentions(x, if lo == 0 then 0 else lo - 1, t, m, j, p);
    }
  }
}

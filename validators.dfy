/**
 * The validator registry (dist/validators.js and lib/validators.js): rule
 * functions `(val, op, args)` that return `undefined` when the value is
 * acceptable and `{type: 'error', message}` when it is not, the pool they
 * are registered in, and `validatorFunction`, the chain factory bound to
 * that pool. The two editions differ only in `phone`: dist tests a
 * pattern, lib counts digits.
 */
module Validators {
  import opened JsCore
  import opened Predicates
  import opened RuleSpec
  import opened Chain
  import opened Regex

  // -------------------------------------------------------------------------
  // Arguments and comparisons
  // -------------------------------------------------------------------------

  /** `args.message || fallback` */
  function MessageOr(args: Args, fallback: string): (r: Value)
    requires fallback != []
    ensures Truthy(r)
  {
    if Truthy(ArgOf(args, "message")) then ArgOf(args, "message") else Str(fallback)
  }

  /** `a < b` on numbers: false whenever either is NaN. */
  predicate NumLess(a: Num, b: Num)
  {
    !a.NaN? && !b.NaN? && a != b
    && (a == Infinity(true) || b == Infinity(false) || (a.Finite? && b.Finite? && a.r < b.r))
  }

  /** `a >= b` on numbers. */
  predicate NumAtLeast(a: Num, b: Num)
  {
    !a.NaN? && !b.NaN? && !NumLess(a, b)
  }

  /** `instanceOf(v, 'number')`: a finite number, primitive or boxed. */
  predicate IsNumber(h: Heap, v: Value)
  {
    TestType(h, v, "number")
  }

  /** The numbers `instanceOf` accepts are finite. */
  lemma NumberIsFinite(h: Heap, v: Value)
    requires IsNumber(h, v)
    ensures ToNumber(h, v).Finite?
  {
  }

  // -------------------------------------------------------------------------
  // The patterns
  // -------------------------------------------------------------------------

  /** `/^\d+$/` */
  const NumericRe: Re := Many(Char(Digit), 1)

  /** `/^[0-9a-zA-Z]+$/` */
  const AlphaNumRe: Re := Many(Char(AlphaNum), 1)

  /** `(0[1-9]|1[0-2])` */
  const MonthRe: Re := Alt(Cat(Char(Exactly('0')), Char(Between('1', '9'))), Cat(Char(Exactly('1')), Char(Between('0', '2'))))

  /** `([12]\d|0[1-9]|3[01])` */
  const DayRe: Re :=
    Alt(Alt(Cat(Char(Between('1', '2')), Char(Digit)), Cat(Char(Exactly('0')), Char(Between('1', '9')))),
        Cat(Char(Exactly('3')), Char(Between('0', '1'))))

  /** `(\d{4})` */
  const YearRe: Re := Repeat(Char(Digit), 4, 4)

  /** `/^(0[1-9]|1[0-2])\D?([12]\d|0[1-9]|3[01])\D?(\d{4})$/` */
  const DateRe: Re := Cat(MonthRe, Cat(Opt(Char(NonDigit)), Cat(DayRe, Cat(Opt(Char(NonDigit)), YearRe))))

  /** `(-| )?` */
  const SepRe: Re := Opt(Alt(Char(Exactly('-')), Char(Exactly(' '))))

  /** `\d{lo,hi}` */
  function Digits(lo: nat, hi: nat): Re { Repeat(Char(Digit), lo, hi) }

  /** `(\+\d{1,3}(-| )?\(?\d\)?(-| )?\d{1,5})` */
  const IntlRe: Re :=
    Cat(Char(Exactly('+')), Cat(Digits(1, 3), Cat(SepRe, Cat(Opt(Char(Exactly('('))), Cat(Char(Digit),
      Cat(Opt(Char(Exactly(')'))), Cat(SepRe, Digits(1, 5))))))))

  /** `(\(?\d{2,6}\)?)` */
  const AreaRe: Re := Cat(Opt(Char(Exactly('('))), Cat(Digits(2, 6), Opt(Char(Exactly(')')))))

  /** `(( x| ext)\d{1,5}){0,1}` */
  const ExtensionRe: Re :=
    Repeat(Cat(Alt(Cat(Char(Exactly(' ')), Char(Exactly('x'))),
                   Cat(Char(Exactly(' ')), Cat(Char(Exactly('e')), Cat(Char(Exactly('x')), Char(Exactly('t')))))),
               Digits(1, 5)), 0, 1)

  /** The dist `phone` pattern. */
  const PhoneRe: Re :=
    Cat(Alt(IntlRe, AreaRe), Cat(SepRe, Cat(Digits(3, 4), Cat(SepRe, Cat(Digits(4, 4), ExtensionRe)))))

  // -------------------------------------------------------------------------
  // The rules
  // -------------------------------------------------------------------------

  function Error(message: Value): Value { Failure(message) }

  /** `greater`: an error when both are numbers and `args.value >= val`. */
  function Greater(h: Heap, val: Value, op: string, args: Args): Value
  {
    var limit := ArgOf(args, "value");
    if !IsNumber(h, val) || !IsNumber(h, limit) then Undefined
    else if NumAtLeast(ToNumber(h, limit), ToNumber(h, val)) then Error(Str("Must be larger than " + ToString(h, limit)))
    else Undefined
  }

  /** `smaller`: an error when both are numbers and `args.value <= val`. */
  function Smaller(h: Heap, val: Value, op: string, args: Args): Value
  {
    var limit := ArgOf(args, "value");
    if !IsNumber(h, val) || !IsNumber(h, limit) then Undefined
    else if NumAtLeast(ToNumber(h, val), ToNumber(h, limit)) then Error(Str("Must be smaller than " + ToString(h, limit)))
    else Undefined
  }

  const PasswordMessage: string := "Password must be at least 8 characters long"

  /** `password`: an error when `val.length < 8`. */
  function Password(h: Heap, val: Value, op: string, args: Args): Value
  {
    if IsEmptyValue(h, val) then Undefined
    else if NumLess(ToNumber(h, Member(h, val, "length").value), Finite(8.0)) then Error(Str(PasswordMessage))
    else Undefined
  }

  /** `positive`: an error for a number below 0. */
  function Positive(h: Heap, val: Value, op: string, args: Args): Value
  {
    var message := MessageOr(args, "Value must be positive");
    if IsEmptyValue(h, val) || !IsNumber(h, val) then Undefined
    else if NumLess(ToNumber(h, val), Finite(0.0)) then Error(message)
    else Undefined
  }

  /** What `required` checks: element 0 of a non-empty array when `args.connectWith` is set, else the value. */
  function RequiredSubject(h: Heap, val: Value, args: Args): Value
  {
    if IsArray(h, val) && h[val.addr].length > 0 && Truthy(ArgOf(args, "connectWith")) then Member(h, val, "0").value
    else val
  }

  /** `required`: an error when the value checked is empty in the sense of `noe`. */
  function Required(h: Heap, val: Value, op: string, args: Args): Value
  {
    var message := MessageOr(args, "Value required");
    if IsEmptyValue(h, RequiredSubject(h, val, args)) then Error(message) else Undefined
  }

  /** `number`: an error when `parseFloat` finds no number. */
  function NumberRule(h: Heap, val: Value, op: string, args: Args): Value
  {
    if IsEmptyValue(h, val) then Undefined
    else if ParseFloat(ToString(h, val)) == NaN then Error(MessageOr(args, "Invalid number"))
    else Undefined
  }

  /** A rule that tests the text of a non-empty value against a pattern. */
  function PatternRule(h: Heap, val: Value, args: Args, re: Re, fallback: string): Value
    requires fallback != []
  {
    if IsEmptyValue(h, val) then Undefined
    else if !Test(re, ToString(h, val)) then Error(MessageOr(args, fallback))
    else Undefined
  }

  function Numeric(h: Heap, val: Value, op: string, args: Args): Value
  {
    PatternRule(h, val, args, NumericRe, "Can only be digits")
  }

  function AlphaNumeric(h: Heap, val: Value, op: string, args: Args): Value
  {
    PatternRule(h, val, args, AlphaNumRe, "Must be alpha-numeric")
  }

  function Date(h: Heap, val: Value, op: string, args: Args): Value
  {
    PatternRule(h, val, args, DateRe, "Invalid date")
  }

  /** The dist `phone`: the pattern above. */
  function DistPhone(h: Heap, val: Value, op: string, args: Args): Value
  {
    PatternRule(h, val, args, PhoneRe, "Invalid phone number")
  }

  /** The lib `phone`: an error when fewer than 10 digits remain after dropping every non-digit. */
  function LibPhone(h: Heap, val: Value, op: string, args: Args): Value
  {
    var text := ToString(h, val);
    if IsEmptyValue(h, val) then Undefined
    else if DigitCount(text, 0, |text|) < 10 then Error(MessageOr(args, "Invalid phone number"))
    else Undefined
  }

  /**
   * `email` and `url`, whose patterns are given as the test `looksRight`
   * on the text of the value.
   */
  function TextRule(looksRight: string -> bool, fallback: string): RuleFn
    requires fallback != []
  {
    (h: Heap, val: Value, op: string, args: Args) =>
      if IsEmptyValue(h, val) then Undefined
      else if !looksRight(ToString(h, val)) then Error(MessageOr(args, fallback))
      else Undefined
  }

  /** Which copy of the registry. */
  datatype Edition = Dist | Lib

  /** The registered validators; `email` and `url` stand for the given pattern tests. */
  function Validators(ed: Edition, isEmail: string -> bool, isUrl: string -> bool): (pool: Pool)
    ensures forall name :: name in pool ==> pool[name].Callable?
  {
    map["greater" := Callable(Greater), "smaller" := Callable(Smaller), "password" := Callable(Password),
        "positive" := Callable(Positive), "required" := Callable(Required), "number" := Callable(NumberRule),
        "numeric" := Callable(Numeric), "alphanum" := Callable(AlphaNumeric),
        "email" := Callable(TextRule(isEmail, "Invalid email address")),
        "url" := Callable(TextRule(isUrl, "Invalid URL")), "date" := Callable(Date),
        "phone" := Callable(if ed == Dist then DistPhone else LibPhone)]
  }

  // -------------------------------------------------------------------------
  // What each rule accepts
  // -------------------------------------------------------------------------

  /** `greater` rejects exactly two numbers with `args.value >= val`, and says by how much it must be larger. */
  lemma GreaterIff(h: Heap, val: Value, op: string, args: Args)
    ensures var limit := ArgOf(args, "value");
            var r := Greater(h, val, op, args);
            (r != Undefined <==> IsNumber(h, val) && IsNumber(h, limit) && ToNumber(h, limit).r >= ToNumber(h, val).r)
            && (r != Undefined ==> r == Failure(Str("Must be larger than " + ToString(h, limit))))
  {
    var limit := ArgOf(args, "value");
    if IsNumber(h, val) && IsNumber(h, limit) {
      NumberIsFinite(h, val);
      NumberIsFinite(h, limit);
    }
  }

  /** `smaller` rejects exactly two numbers with `args.value <= val`. */
  lemma SmallerIff(h: Heap, val: Value, op: string, args: Args)
    ensures var limit := ArgOf(args, "value");
            var r := Smaller(h, val, op, args);
            (r != Undefined <==> IsNumber(h, val) && IsNumber(h, limit) && ToNumber(h, limit).r <= ToNumber(h, val).r)
            && (r != Undefined ==> r == Failure(Str("Must be smaller than " + ToString(h, limit))))
  {
    var limit := ArgOf(args, "value");
    if IsNumber(h, val) && IsNumber(h, limit) {
      NumberIsFinite(h, val);
      NumberIsFinite(h, limit);
    }
  }

  /** On text that is not blank, `password` rejects exactly what is shorter than 8 characters. */
  lemma PasswordLength(h: Heap, s: string, op: string, args: Args)
    requires !AllSpace(s)
    ensures Password(h, Str(s), op, args) != Undefined <==> |s| < 8
    ensures Password(h, Str(s), op, args) != Undefined ==> Password(h, Str(s), op, args) == Failure(Str(PasswordMessage))
  {
    assert IsStringOwnKey(s, "length");
  }

  /** `positive` rejects exactly the negative numbers, with the given message or its own. */
  lemma PositiveIff(h: Heap, val: Value, op: string, args: Args)
    ensures var r := Positive(h, val, op, args);
            (r != Undefined <==> !IsEmptyValue(h, val) && IsNumber(h, val) && ToNumber(h, val).r < 0.0)
            && (r != Undefined ==> r == Failure(MessageOr(args, "Value must be positive")))
  {
    if IsNumber(h, val) {
      NumberIsFinite(h, val);
    }
  }

  /** `required` rejects exactly an empty value, with `args.message` when one is given. */
  lemma RequiredIff(h: Heap, val: Value, op: string, args: Args)
    requires !Truthy(ArgOf(args, "connectWith"))
    ensures var r := Required(h, val, op, args);
            (r != Undefined <==> IsEmptyValue(h, val))
            && (r != Undefined ==> r == Failure(MessageOr(args, "Value required")))
  {
  }

  /** With `connectWith`, only element 0 of a non-empty array is checked. */
  lemma RequiredConnectWith(h: Heap, a: Addr, op: string, args: Args)
    requires a < |h| && h[a].kind.ArrayObject? && h[a].length > 0 && Truthy(ArgOf(args, "connectWith"))
    ensures Required(h, Ref(a), op, args) != Undefined <==> IsEmptyValue(h, ObjGet(h[a], "0"))
  {
  }

  /** Every rule but `required`, `greater` and `smaller` accepts a value `noe` calls empty. */
  lemma EmptyPasses(ed: Edition, isEmail: string -> bool, isUrl: string -> bool, name: string, h: Heap, val: Value,
                    op: string, args: Args)
    requires IsEmptyValue(h, val)
    requires name in Validators(ed, isEmail, isUrl) && name !in {"required", "greater", "smaller"}
    ensures Validators(ed, isEmail, isUrl)[name].fn(h, val, op, args) == Undefined
  {
  }

  /** `numeric` rejects exactly non-empty values whose text is not all digits. */
  lemma NumericIff(h: Heap, val: Value, op: string, args: Args)
    ensures var t := ToString(h, val);
            Numeric(h, val, op, args) != Undefined <==> !IsEmptyValue(h, val) && (t == [] || !AllDigits(t))
  {
    var t := ToString(h, val);
    ManyRun(Digit, 1, t, 0, |t|);
  }

  /** `alphanum` rejects exactly non-empty values whose text is not all ASCII letters and digits. */
  lemma AlphaNumericIff(h: Heap, val: Value, op: string, args: Args)
    ensures var t := ToString(h, val);
            AlphaNumeric(h, val, op, args) != Undefined
            <==> !IsEmptyValue(h, val) && (t == [] || exists i :: 0 <= i < |t| && !(IsDigit(t[i]) || IsAsciiLetter(t[i])))
  {
    var t := ToString(h, val);
    ManyRun(AlphaNum, 1, t, 0, |t|);
  }

  /** The lib `phone` rejects exactly non-empty values with fewer than 10 digits. */
  lemma LibPhoneIff(h: Heap, val: Value, op: string, args: Args)
    ensures var t := ToString(h, val);
            LibPhone(h, val, op, args) != Undefined <==> !IsEmptyValue(h, val) && DigitCount(t, 0, |t|) < 10
  {
  }

  lemma IntlMinDigits() ensures MinDigits(IntlRe) == 3 {}

  lemma AreaMinDigits() ensures MinDigits(AreaRe) == 2 {}

  lemma TailMinDigits()
    ensures MinDigits(Cat(SepRe, Cat(Digits(3, 4), Cat(SepRe, Cat(Digits(4, 4), ExtensionRe))))) == 7
  {
  }

  lemma PhoneMinDigits()
    ensures MinDigits(PhoneRe) == 9
  {
    IntlMinDigits();
    AreaMinDigits();
    TailMinDigits();
  }

  /** Every text the dist phone pattern accepts holds at least 9 digits. */
  lemma PhoneDigits(t: string)
    requires Test(PhoneRe, t)
    ensures DigitCount(t, 0, |t|) >= 9
  {
    MatchHasDigits(PhoneRe, t, 0, |t|);
    PhoneMinDigits();
  }

  /** A character of the phone layout other than a digit. */
  predicate PhoneSymbol(c: char)
  {
    c == '+' || c == '-' || c == '(' || c == ')' || c == ' ' || c == 'x' || c == 'e' || c == 't'
  }

  lemma OptMentions(x: Re, c: char)
    ensures Mentions(Opt(x), c) <==> Mentions(x, c)
  {
  }

  lemma CatMentions(x: Re, y: Re, c: char)
    ensures Mentions(Cat(x, y), c) <==> Mentions(x, c) || Mentions(y, c)
  {
  }

  lemma ExactlyMentions(x: char, c: char)
    ensures Mentions(Char(Exactly(x)), c) <==> c == x
  {
  }

  lemma DigitsMentions(lo: nat, hi: nat, c: char)
    ensures Mentions(Digits(lo, hi), c) <==> IsDigit(c)
  {
  }

  lemma SepAlphabet(c: char)
    ensures Mentions(SepRe, c) ==> c == '-' || c == ' '
  {
    OptMentions(Alt(Char(Exactly('-')), Char(Exactly(' '))), c);
    ExactlyMentions('-', c);
    ExactlyMentions(' ', c);
  }

  lemma IntlAlphabet(c: char)
    requires Mentions(IntlRe, c)
    ensures IsDigit(c) || PhoneSymbol(c)
  {
    var open := Opt(Char(Exactly('(')));
    var close := Opt(Char(Exactly(')')));
    OptMentions(Char(Exactly('(')), c);
    OptMentions(Char(Exactly(')')), c);
    ExactlyMentions('(', c);
    ExactlyMentions(')', c);
    ExactlyMentions('+', c);
    DigitsMentions(1, 3, c);
    DigitsMentions(1, 5, c);
    SepAlphabet(c);
    CatMentions(SepRe, Digits(1, 5), c);
    var intl6 := Cat(close, Cat(SepRe, Digits(1, 5)));
    CatMentions(close, Cat(SepRe, Digits(1, 5)), c);
    var intl5 := Cat(Char(Digit), intl6);
    CatMentions(Char(Digit), intl6, c);
    var intl4 := Cat(open, intl5);
    CatMentions(open, intl5, c);
    var intl3 := Cat(SepRe, intl4);
    CatMentions(SepRe, intl4, c);
    var intl2 := Cat(Digits(1, 3), intl3);
    CatMentions(Digits(1, 3), intl3, c);
    CatMentions(Char(Exactly('+')), intl2, c);
  }

  lemma AreaAlphabet(c: char)
    requires Mentions(AreaRe, c)
    ensures IsDigit(c) || PhoneSymbol(c)
  {
    var open := Opt(Char(Exactly('(')));
    var close := Opt(Char(Exactly(')')));
    OptMentions(Char(Exactly('(')), c);
    OptMentions(Char(Exactly(')')), c);
    ExactlyMentions('(', c);
    ExactlyMentions(')', c);
    DigitsMentions(2, 6, c);
    CatMentions(Digits(2, 6), close, c);
    CatMentions(open, Cat(Digits(2, 6), close), c);
  }

  lemma ExtensionAlphabet(c: char)
    requires Mentions(ExtensionRe, c)
    ensures IsDigit(c) || PhoneSymbol(c)
  {
    DigitsMentions(1, 5, c);
    ExactlyMentions(' ', c);
    ExactlyMentions('x', c);
    ExactlyMentions('e', c);
    ExactlyMentions('t', c);
    var ext3 := Cat(Char(Exactly('x')), Char(Exactly('t')));
    CatMentions(Char(Exactly('x')), Char(Exactly('t')), c);
    var ext2 := Cat(Char(Exactly('e')), ext3);
    CatMentions(Char(Exactly('e')), ext3, c);
    var ext := Cat(Char(Exactly(' ')), ext2);
    CatMentions(Char(Exactly(' ')), ext2, c);
    var x := Cat(Char(Exactly(' ')), Char(Exactly('x')));
    CatMentions(Char(Exactly(' ')), Char(Exactly('x')), c);
    CatMentions(Alt(x, ext), Digits(1, 5), c);
  }

  /** The characters the dist phone pattern names: digits and `+-() xet`. */
  lemma PhoneAlphabet(c: char)
    requires Mentions(PhoneRe, c)
    ensures IsDigit(c) || PhoneSymbol(c)
  {
    DigitsMentions(3, 4, c);
    DigitsMentions(4, 4, c);
    SepAlphabet(c);
    var tail4 := Cat(SepRe, Cat(Digits(4, 4), ExtensionRe));
    CatMentions(Digits(4, 4), ExtensionRe, c);
    CatMentions(SepRe, Cat(Digits(4, 4), ExtensionRe), c);
    var tail2 := Cat(SepRe, Cat(Digits(3, 4), tail4));
    CatMentions(Digits(3, 4), tail4, c);
    CatMentions(SepRe, Cat(Digits(3, 4), tail4), c);
    CatMentions(Alt(IntlRe, AreaRe), tail2, c);
    if Mentions(IntlRe, c) {
      IntlAlphabet(c);
    } else if Mentions(AreaRe, c) {
      AreaAlphabet(c);
    } else if Mentions(ExtensionRe, c) {
      ExtensionAlphabet(c);
    }
  }

  /** Every character of a text the dist phone pattern accepts is a digit or one of `+-() xet`. */
  lemma PhoneCharacters(t: string, p: nat)
    requires Test(PhoneRe, t) && p < |t|
    ensures IsDigit(t[p]) || PhoneSymbol(t[p])
  {
    MatchMentions(PhoneRe, t, 0, |t|, p);
    PhoneAlphabet(t[p]);
  }

  /** So the dist `phone` rejects a value whose text holds fewer than 9 digits, as the lib one does below 10. */
  lemma DistPhoneNeedsNineDigits(h: Heap, val: Value, op: string, args: Args)
    requires !IsEmptyValue(h, val)
    ensures var t := ToString(h, val);
            DigitCount(t, 0, |t|) < 9
            ==> (DistPhone(h, val, op, args) == Failure(MessageOr(args, "Invalid phone number"))
                 && LibPhone(h, val, op, args) == Failure(MessageOr(args, "Invalid phone number")))
  {
    var t := ToString(h, val);
    if Test(PhoneRe, t) {
      PhoneDigits(t);
    }
  }

  // -------------------------------------------------------------------------
  // The date pattern
  // -------------------------------------------------------------------------

  /** Two digits reading as a month, 01 to 12. */
  predicate IsMonth(s: string)
  {
    |s| == 2 && AllDigits(s) && 1 <= DigitsValue(s) <= 12
  }

  /** Two digits reading as a day, 01 to 31. */
  predicate IsDay(s: string)
  {
    |s| == 2 && AllDigits(s) && 1 <= DigitsValue(s) <= 31
  }

  /** From `p`: a day, then the year, either directly or after one non-digit, up to the end. */
  predicate DayYearAt(t: string, p: nat)
  {
    p + 2 <= |t| && IsDay(t[p..p + 2])
    && ((|t| == p + 6 && AllDigits(t[p + 2..])) || (|t| == p + 7 && !IsDigit(t[p + 2]) && AllDigits(t[p + 3..])))
  }

  /** MM, at most one non-digit, DD, at most one non-digit, YYYY. */
  predicate DateShape(t: string)
  {
    2 <= |t| && IsMonth(t[..2]) && (DayYearAt(t, 2) || (3 <= |t| && !IsDigit(t[2]) && DayYearAt(t, 3)))
  }

  lemma TwoDigits(s: string)
    requires |s| == 2 && AllDigits(s)
    ensures DigitsValue(s) == 10 * DigitValue(s[0]) + DigitValue(s[1])
  {
    assert s[..1][..0] == [];
    assert s[..|s| - 1] == s[..1];
    assert DigitsValue(s[..1]) == DigitValue(s[0]);
  }

  lemma MonthMatch(t: string, i: nat, j: nat)
    requires i <= j <= |t|
    ensures Match(MonthRe, t, i, j) <==> j == i + 2 && IsMonth(t[i..j])
  {
    PairMatch(Exactly('0'), Between('1', '9'), t, i, j);
    PairMatch(Exactly('1'), Between('0', '2'), t, i, j);
    if j == i + 2 {
      var s := t[i..j];
      assert s[0] == t[i] && s[1] == t[i + 1];
      if AllDigits(s) {
        TwoDigits(s);
      }
    }
  }

  lemma DayMatch(t: string, i: nat, j: nat)
    requires i <= j <= |t|
    ensures Match(DayRe, t, i, j) <==> j == i + 2 && IsDay(t[i..j])
  {
    PairMatch(Between('1', '2'), Digit, t, i, j);
    PairMatch(Exactly('0'), Between('1', '9'), t, i, j);
    PairMatch(Exactly('3'), Between('0', '1'), t, i, j);
    if j == i + 2 {
      var s := t[i..j];
      assert s[0] == t[i] && s[1] == t[i + 1];
      if AllDigits(s) {
        TwoDigits(s);
      }
    }
  }

  lemma YearMatch(t: string, q: nat)
    requires q <= |t|
    ensures Match(YearRe, t, q, |t|) <==> |t| == q + 4 && AllDigits(t[q..])
  {
    RepeatRun(Digit, 4, 4, t, q, |t|);
    if AllIn(Digit, t, q, |t|) {
      forall x | 0 <= x < |t[q..]| ensures IsDigit(t[q..][x]) {
        assert t[q..][x] == t[q + x];
      }
    }
    if AllDigits(t[q..]) {
      forall p | q <= p < |t| ensures IsDigit(t[p]) {
        assert t[p] == t[q..][p - q];
      }
    }
  }

  lemma MonthThen(r: Re, t: string)
    ensures Match(Cat(MonthRe, r), t, 0, |t|) <==> 2 <= |t| && IsMonth(t[..2]) && Match(r, t, 2, |t|)
  {
    if Match(Cat(MonthRe, r), t, 0, |t|) {
      var m := CatSplit(MonthRe, r, t, 0, |t|);
      MonthMatch(t, 0, m);
    }
    if 2 <= |t| && IsMonth(t[..2]) && Match(r, t, 2, |t|) {
      MonthMatch(t, 0, 2);
      assert t[0..2] == t[..2];
    }
  }

  lemma DayThen(r: Re, t: string, p: nat)
    requires p <= |t|
    ensures Match(Cat(DayRe, r), t, p, |t|) <==> p + 2 <= |t| && IsDay(t[p..p + 2]) && Match(r, t, p + 2, |t|)
  {
    if Match(Cat(DayRe, r), t, p, |t|) {
      var m := CatSplit(DayRe, r, t, p, |t|);
      DayMatch(t, p, m);
    }
    if p + 2 <= |t| && IsDay(t[p..p + 2]) && Match(r, t, p + 2, |t|) {
      DayMatch(t, p, p + 2);
    }
  }

  /** The tail `\D?(\d{4})` from position `q`. */
  lemma YearTail(t: string, q: nat)
    requires q <= |t|
    ensures Match(Cat(Opt(Char(NonDigit)), YearRe), t, q, |t|)
            <==> (|t| == q + 4 && AllDigits(t[q..])) || (|t| == q + 5 && !IsDigit(t[q]) && AllDigits(t[q + 1..]))
  {
    OptThen(NonDigit, YearRe, t, q);
    YearMatch(t, q);
    if q < |t| {
      YearMatch(t, q + 1);
    }
  }

  /** The part `([12]\d|0[1-9]|3[01])\D?(\d{4})` from position `p`. */
  lemma DayYear(t: string, p: nat)
    requires p <= |t|
    ensures Match(Cat(DayRe, Cat(Opt(Char(NonDigit)), YearRe)), t, p, |t|) <==> DayYearAt(t, p)
  {
    DayThen(Cat(Opt(Char(NonDigit)), YearRe), t, p);
    if p + 2 <= |t| {
      YearTail(t, p + 2);
    }
  }

  /** The date pattern accepts exactly the texts laid out as MM, an optional non-digit, DD, an optional non-digit, YYYY. */
  lemma DateIff(t: string)
    ensures Test(DateRe, t) <==> DateShape(t)
  {
    var r2 := Cat(DayRe, Cat(Opt(Char(NonDigit)), YearRe));
    var r1 := Cat(Opt(Char(NonDigit)), r2);
    assert DateRe == Cat(MonthRe, r1);
    MonthThen(r1, t);
    if 2 <= |t| {
      OptThen(NonDigit, r2, t, 2);
      assert Match(r1, t, 2, |t|) <==> Match(r2, t, 2, |t|) || (3 <= |t| && !IsDigit(t[2]) && Match(r2, t, 3, |t|));
      DayYear(t, 2);
      if 3 <= |t| {
        DayYear(t, 3);
      }
    }
  }

  // -------------------------------------------------------------------------
  // validatorFunction
  // -------------------------------------------------------------------------

  /** Whether `text` holds no `u` and no `l`, in either case. */
  predicate NoUorL(text: string)
  {
    forall i :: 0 <= i < |text| ==> LowerChar(text[i]) != 'u' && LowerChar(text[i]) != 'l'
  }

  /** Text without a `u` or an `l`, in either case, cannot mention `true` or `false`. */
  lemma NoBooleanWord(text: string)
    requires NoUorL(text)
    ensures !MentionsBoolean(text)
  {
    var lower := ToLower(text);
    if Contains(lower, "true") {
      ContainsChar(lower, "true", 2);
    }
    if Contains(lower, "false") {
      ContainsChar(lower, "false", 2);
    }
  }

  lemma TwoRulesRead(pool: Pool, first: string, second: string)
    requires IsWord(first) && IsWord(second)
    ensures Steps(pool, Text(RuleListText([(first, []), (second, [])])))
            == Ok(WrapAll(pool, Registered(pool, WrittenRules([(first, []), (second, [])]))))
  {
    var ws: seq<(string, seq<(string, string)>)> := [(first, []), (second, [])];
    assert ws[0] == (first, []) && ws[1] == (second, []);
    assert IsPlainRules(ws);
    TextChain(pool, ws);
  }

  lemma TwoRulesWrapped(pool: Pool, first: string, second: string)
    requires IsRegistered(pool, first) && IsRegistered(pool, second)
    ensures WrapAll(pool, Registered(pool, WrittenRules([(first, []), (second, [])])))
            == [Wrapped(map[], pool[first].fn), Wrapped(map[], pool[second].fn)]
  {
    var ws: seq<(string, seq<(string, string)>)> := [(first, []), (second, [])];
    assert ws[1..] == [(second, [])] && ws[1..][1..] == [];
    var one := Rule(first, map[]);
    var two := Rule(second, map[]);
    assert WrittenRules(ws[1..]) == [two] + WrittenRules([]);
    assert WrittenRules(ws) == [one, two];
    assert [one, two][1..] == [two];
    assert Registered(pool, [two]) == [two] + Registered(pool, []);
    assert Registered(pool, [one, two]) == [one] + Registered(pool, [two]);
    assert WrapAll(pool, [two]) == [Wrapped(map[], FunctionOf(pool, second))] + WrapAll(pool, []);
    assert WrapAll(pool, [one, two]) == [Wrapped(map[], FunctionOf(pool, first))] + WrapAll(pool, [two]);
  }

  lemma TwoRulesText(first: string, second: string)
    ensures RuleListText([(first, []), (second, [])]) == first + "," + second
  {
    var ws: seq<(string, seq<(string, string)>)> := [(first, []), (second, [])];
    assert ws[1..] == [(second, [])] && ws[1..][1..] == [];
    assert RuleListText(ws[1..]) == second + RulesRest([]);
    assert RuleListText(ws) == first + RulesRest(ws[1..]);
  }

  /** Two registered rules without arguments become two wrapped steps, in order. */
  lemma TwoRules(pool: Pool, first: string, second: string)
    requires IsWord(first) && IsWord(second) && IsRegistered(pool, first) && IsRegistered(pool, second)
    ensures Steps(pool, Text(first + "," + second)) == Ok([Wrapped(map[], pool[first].fn), Wrapped(map[], pool[second].fn)])
  {
    TwoRulesRead(pool, first, second);
    TwoRulesWrapped(pool, first, second);
    TwoRulesText(first, second);
  }

  /** What the registry holds under the names the examples use. */
  lemma Registrations(ed: Edition, isEmail: string -> bool, isUrl: string -> bool)
    ensures var pool := Validators(ed, isEmail, isUrl);
            IsRegistered(pool, "required") && pool["required"].fn == Required
            && IsRegistered(pool, "email") && pool["email"].fn == TextRule(isEmail, "Invalid email address")
  {
  }

  lemma Words()
    ensures IsWord("required") && IsWord("email")
  {
  }

  /** In a pool holding `required`, `validatorFunction('required')` rejects `undefined` with 'Value required'. */
  lemma RequiredRejectsIn(pool: Pool, h: Heap)
    requires IsRegistered(pool, "required") && pool["required"].fn == Required
    ensures var steps := Steps(pool, Text("required"));
            steps.Ok?
            && Call(h, steps.value, map[], Undefined, "validate", map[])
               == Settles(RejectsError(Failure(Str("Value required")), Undefined, Fresh(map[])))
  {
    Words();
    OneRule(pool, "required", []);
    assert Assign(map[], map[]) == map[];
    assert Required(h, Undefined, "validate", map[]) == Failure(Str("Value required"));
    assert [Wrapped(map[], Required)] == [Wrapped(map[], Required)] + [];
    WrappedFails(h, map[], Required, [], Undefined, map[], Fresh(map[]));
  }

  /** `validatorFunction('required')` rejects `undefined` with the error 'Value required'. */
  lemma RequiredRejectsUndefined(ed: Edition, isEmail: string -> bool, isUrl: string -> bool, h: Heap)
    ensures var steps := Steps(Validators(ed, isEmail, isUrl), Text("required"));
            steps.Ok?
            && Call(h, steps.value, map[], Undefined, "validate", map[])
               == Settles(RejectsError(Failure(Str("Value required")), Undefined, Fresh(map[])))
  {
    Registrations(ed, isEmail, isUrl);
    RequiredRejectsIn(Validators(ed, isEmail, isUrl), h);
  }

  lemma RequiredResolvesIn(pool: Pool, h: Heap)
    requires IsRegistered(pool, "required") && pool["required"].fn == Required
    ensures var steps := Steps(pool, Text("required"));
            steps.Ok?
            && Call(h, steps.value, map[], Str("not empty"), "validate", map[])
               == Settles(Resolves(Str("not empty"), Fresh(map[])))
  {
    Words();
    OneRule(pool, "required", []);
    var step := Wrapped(map[], Required);
    assert !AllSpace("not empty") by {
      assert !IsSpace("not empty"[0]);
    }
    StringEmptyIffBlank(h, "not empty");
    assert RequiredSubject(h, Str("not empty"), map[]) == Str("not empty");
    assert Required(h, Str("not empty"), "validate", map[]) == Undefined;
    assert Assign(map[], map[]) == map[];
    assert Apply(h, step, Str("not empty"), "validate", map[]) == Ok(Output(Fresh(map[]), Undefined));
    assert [step][1..] == [];
    assert Check(h, [step], Str("not empty"), map[], Fresh(map[]), false)
        == Check(h, [], Str("not empty"), map[], Fresh(map[]), false);
  }

  /** `validatorFunction('required')` resolves with a non-empty text itself. */
  lemma RequiredResolves(ed: Edition, isEmail: string -> bool, isUrl: string -> bool, h: Heap)
    ensures var steps := Steps(Validators(ed, isEmail, isUrl), Text("required"));
            steps.Ok?
            && Call(h, steps.value, map[], Str("not empty"), "validate", map[])
               == Settles(Resolves(Str("not empty"), Fresh(map[])))
  {
    Registrations(ed, isEmail, isUrl);
    RequiredResolvesIn(Validators(ed, isEmail, isUrl), h);
  }

  /** A wrapped step whose rule returns a falsy value lets validation go on with that step's arguments. */
  lemma WrappedPasses(h: Heap, parsed: Args, f: RuleFn, rest: seq<Step>, val: Value, fa: Args, p: Payload)
    requires !Truthy(f(h, val, "validate", Assign(parsed, fa)))
    ensures Check(h, [Wrapped(parsed, f)] + rest, val, fa, p, false) == Check(h, rest, val, fa, Fresh(Assign(parsed, fa)), false)
  {
    var steps := [Wrapped(parsed, f)] + rest;
    assert steps[0] == Wrapped(parsed, f) && steps[1..] == rest;
  }

  /** A wrapped step whose rule returns an error object rejects with it. */
  lemma WrappedFails(h: Heap, parsed: Args, f: RuleFn, rest: seq<Step>, val: Value, fa: Args, p: Payload)
    requires f(h, val, "validate", Assign(parsed, fa)).Failure?
    ensures Check(h, [Wrapped(parsed, f)] + rest, val, fa, p, false)
            == RejectsError(f(h, val, "validate", Assign(parsed, fa)), val, Fresh(Assign(parsed, fa)))
  {
    var steps := [Wrapped(parsed, f)] + rest;
    assert steps[0] == Wrapped(parsed, f) && steps[1..] == rest;
  }

  /** `required` accepts text that is not blank. */
  lemma RequiredText(h: Heap, text: string, op: string, args: Args)
    requires !AllSpace(text)
    ensures Required(h, Str(text), op, args) == Undefined
  {
    StringEmptyIffBlank(h, text);
  }

  /** `email` and `url` on text that is not blank: its test decides. */
  lemma TextRuleOn(looksRight: string -> bool, fallback: string, h: Heap, text: string, op: string, args: Args)
    requires fallback != [] && !AllSpace(text)
    ensures TextRule(looksRight, fallback)(h, Str(text), op, args)
            == if looksRight(text) then Undefined else Failure(MessageOr(args, fallback))
  {
    StringEmptyIffBlank(h, text);
    assert ToString(h, Str(text)) == text;
  }

  /** In a pool holding `required` and `email`, the chain `'required,email'` stops at the first rule that fails. */
  lemma RequiredEmailIn(pool: Pool, isEmail: string -> bool, h: Heap, text: string)
    requires IsRegistered(pool, "required") && pool["required"].fn == Required
    requires IsRegistered(pool, "email") && pool["email"].fn == TextRule(isEmail, "Invalid email address")
    requires !AllSpace(text)
    ensures var steps := Steps(pool, Text("required,email"));
            var r := Call(h, steps.value, map[], Str(text), "validate", map[]);
            steps.Ok?
            && (!isEmail(text) ==> r == Settles(RejectsError(Failure(Str("Invalid email address")), Str(text), Fresh(map[]))))
            && (isEmail(text) ==> r == Settles(Resolves(Str(text), Fresh(map[]))))
  {
    Words();
    TwoRules(pool, "required", "email");
    assert "required" + "," + "email" == "required,email";
    var email := TextRule(isEmail, "Invalid email address");
    var second := [Wrapped(map[], email)];
    assert [Wrapped(map[], Required), Wrapped(map[], email)] == [Wrapped(map[], Required)] + second;
    assert Assign(map[], map[]) == map[];
    RequiredText(h, text, "validate", map[]);
    WrappedPasses(h, map[], Required, second, Str(text), map[], Fresh(map[]));
    TextRuleOn(isEmail, "Invalid email address", h, text, "validate", map[]);
    assert second == second + [];
    if isEmail(text) {
      WrappedPasses(h, map[], email, [], Str(text), map[], Fresh(map[]));
    } else {
      assert MessageOr(map[], "Invalid email address") == Str("Invalid email address");
      WrappedFails(h, map[], email, [], Str(text), map[], Fresh(map[]));
    }
  }

  /**
   * `validatorFunction('required,email')` rejects 'derp' with 'Invalid email
   * address' and resolves 'derp@test.com', given an email test that says so.
   */
  lemma RequiredEmailChain(ed: Edition, isEmail: string -> bool, isUrl: string -> bool, h: Heap)
    requires !isEmail("derp") && isEmail("derp@test.com")
    ensures var steps := Steps(Validators(ed, isEmail, isUrl), Text("required,email"));
            steps.Ok?
            && Call(h, steps.value, map[], Str("derp"), "validate", map[])
               == Settles(RejectsError(Failure(Str("Invalid email address")), Str("derp"), Fresh(map[])))
            && Call(h, steps.value, map[], Str("derp@test.com"), "validate", map[])
               == Settles(Resolves(Str("derp@test.com"), Fresh(map[])))
  {
    Registrations(ed, isEmail, isUrl);
    var pool := Validators(ed, isEmail, isUrl);
    assert !IsSpace("derp"[0]) && !IsSpace("derp@test.com"[0]);
    RequiredEmailIn(pool, isEmail, h, "derp");
    RequiredEmailIn(pool, isEmail, h, "derp@test.com");
  }

  lemma StaticArgsPlain()
    ensures IsPlainPairs([("test", "derp"), ("hello", "true")])
  {
    var kvs := [("test", "derp"), ("hello", "true")];
    assert IsWord("test") && IsWord("hello");
    assert IsPlainValue("derp") && IsPlainValue("true");
  }

  lemma StaticArgsText()
    ensures RuleText("email", [("test", "derp"), ("hello", "true")]) == "email(test:derp,hello:true)"
  {
    var kvs := [("test", "derp"), ("hello", "true")];
    assert kvs[1..] == [("hello", "true")] && kvs[1..][1..] == [];
    assert ArgList(kvs[1..]) == "hello:true" + ListRest([]);
    assert ArgList(kvs) == "test:derp" + ListRest(kvs[1..]);
  }

  lemma DerpIsText()
    ensures Coerce("derp") == Str("derp")
  {
    NoBooleanWord("derp");
    CoerceText("derp");
  }

  lemma TrueIsBoolean()
    ensures Coerce("true") == Bool(true)
  {
    assert ToLower("true") == "true";
    CoerceTrue("true");
  }

  /** Assigning one more written pair. */
  lemma PutAllFront(args: Args, key: string, text: string, rest: seq<(string, string)>)
    requires key != "__proto__"
    ensures PutAll(args, [(key, text)] + rest) == PutAll(args[key := Coerce(text)], rest)
  {
    var kvs := [(key, text)] + rest;
    assert kvs[0] == (key, text) && kvs[1..] == rest;
  }

  lemma StaticArgsBag()
    ensures PutAll(map[], [("test", "derp"), ("hello", "true")]) == map["test" := Str("derp"), "hello" := Bool(true)]
  {
    DerpIsText();
    TrueIsBoolean();
    var m := map["test" := Str("derp")];
    PutAllFront(map[], "test", "derp", [("hello", "true")]);
    PutAllFront(m, "hello", "true", []);
    assert [("test", "derp"), ("hello", "true")] == [("test", "derp")] + [("hello", "true")];
    assert [("hello", "true")] == [("hello", "true")] + [];
  }

  lemma StaticArgsSteps(pool: Pool)
    requires IsRegistered(pool, "email")
    ensures Steps(pool, Text("email(test:derp,hello:true)"))
            == Ok([Wrapped(map["test" := Str("derp"), "hello" := Bool(true)], pool["email"].fn)])
  {
    StaticArgsPlain();
    StaticArgsText();
    StaticArgsBag();
    Words();
    OneRule(pool, "email", [("test", "derp"), ("hello", "true")]);
  }

  /** A chain of `email` alone, with parsed arguments `bag`, resolves a text its test accepts, with `bag`. */
  lemma EmailAccepts(isEmail: string -> bool, h: Heap, text: string, bag: Args)
    requires !AllSpace(text) && isEmail(text)
    ensures Call(h, [Wrapped(bag, TextRule(isEmail, "Invalid email address"))], map[], Str(text), "validate", map[])
            == Settles(Resolves(Str(text), Fresh(bag)))
  {
    var email := TextRule(isEmail, "Invalid email address");
    assert Assign(map[], map[]) == map[];
    assert Assign(bag, map[]) == bag;
    TextRuleOn(isEmail, "Invalid email address", h, text, "validate", bag);
    assert [Wrapped(bag, email)] == [Wrapped(bag, email)] + [];
    WrappedPasses(h, bag, email, [], Str(text), map[], Fresh(map[]));
  }

  lemma StaticArgsIn(pool: Pool, isEmail: string -> bool, h: Heap)
    requires IsRegistered(pool, "email") && pool["email"].fn == TextRule(isEmail, "Invalid email address")
    requires isEmail("derp@test.com")
    ensures var steps := Steps(pool, Text("email(test:derp,hello:true)"));
            steps.Ok?
            && Call(h, steps.value, map[], Str("derp@test.com"), "validate", map[])
               == Settles(Resolves(Str("derp@test.com"), Fresh(map["test" := Str("derp"), "hello" := Bool(true)])))
  {
    StaticArgsSteps(pool);
    assert !IsSpace("derp@test.com"[0]);
    EmailAccepts(isEmail, h, "derp@test.com", map["test" := Str("derp"), "hello" := Bool(true)]);
  }

  /** The static arguments of `email(test:derp,hello:true)` reach the result: the chain resolves with them. */
  lemma StaticArgsChain(ed: Edition, isEmail: string -> bool, isUrl: string -> bool, h: Heap)
    requires isEmail("derp@test.com")
    ensures var steps := Steps(Validators(ed, isEmail, isUrl), Text("email(test:derp,hello:true)"));
            steps.Ok?
            && Call(h, steps.value, map[], Str("derp@test.com"), "validate", map[])
               == Settles(Resolves(Str("derp@test.com"), Fresh(map["test" := Str("derp"), "hello" := Bool(true)])))
  {
    Registrations(ed, isEmail, isUrl);
    StaticArgsIn(Validators(ed, isEmail, isUrl), isEmail, h);
  }

  /** `required(message:m)` with a message `m` written as is, starting with a letter and mentioning no boolean. */
  predicate PlainMessage(m: string)
  {
    IsPlainValue(m) && m != [] && IsAsciiLetter(m[0]) && !MentionsBoolean(m)
  }

  lemma MessageText(m: string)
    ensures RuleText("required", [("message", m)]) == "required(message:" + m + ")"
  {
    var kvs := [("message", m)];
    assert kvs[0] == ("message", m) && kvs[1..] == [];
    assert ArgList(kvs) == "message:" + m + ListRest([]);
  }

  lemma MessageBag(m: string)
    requires PlainMessage(m)
    ensures PutAll(map[], [("message", m)]) == map["message" := Str(m)]
  {
    var kvs := [("message", m)];
    assert kvs[0] == ("message", m) && kvs[1..] == [];
    CoerceText(m);
    var bag := map["message" := Str(m)];
    assert RuleSpec.Put(map[], "message", Str(m)) == bag;
    assert PutAll(map[], kvs) == PutAll(bag, []);
  }

  lemma CustomMessageIn(pool: Pool, h: Heap, m: string)
    requires IsRegistered(pool, "required") && pool["required"].fn == Required
    requires PlainMessage(m)
    ensures var steps := Steps(pool, Text("required(message:" + m + ")"));
            steps.Ok?
            && Call(h, steps.value, map[], Null, "validate", map[])
               == Settles(RejectsError(Failure(Str(m)), Null, Fresh(map["message" := Str(m)])))
  {
    assert IsWord("message");
    Words();
    assert IsPlainPairs([("message", m)]);
    MessageText(m);
    MessageBag(m);
    OneRule(pool, "required", [("message", m)]);
    var bag := map["message" := Str(m)];
    assert Assign(map[], map[]) == map[];
    assert Assign(bag, map[]) == bag;
    assert MessageOr(bag, "Value required") == Str(m);
    assert Required(h, Null, "validate", bag) == Failure(Str(m));
    assert [Wrapped(bag, Required)] == [Wrapped(bag, Required)] + [];
    WrappedFails(h, bag, Required, [], Null, map[], Fresh(map[]));
  }

  /** A message given in the specification replaces the rule's own: `null` is rejected with it. */
  lemma CustomMessageChain(ed: Edition, isEmail: string -> bool, isUrl: string -> bool, h: Heap, m: string)
    requires PlainMessage(m)
    ensures var steps := Steps(Validators(ed, isEmail, isUrl), Text("required(message:" + m + ")"));
            steps.Ok?
            && Call(h, steps.value, map[], Null, "validate", map[])
               == Settles(RejectsError(Failure(Str(m)), Null, Fresh(map["message" := Str(m)])))
  {
    Registrations(ed, isEmail, isUrl);
    CustomMessageIn(Validators(ed, isEmail, isUrl), h, m);
  }

  lemma ExamplePlainValue() ensures IsPlainValue("Hawt dog! It is empty!") {}

  lemma ExampleNoUorL() ensures NoUorL("Hawt dog! It is empty!") {}

  lemma ExampleNoBoolean(m: string)
    requires m == "Hawt dog! It is empty!"
    ensures !MentionsBoolean(m)
  {
    ExampleNoUorL();
    NoBooleanWord(m);
  }

  /** The message the example uses is such a message. */
  lemma ExampleMessagePlain(m: string)
    requires m == "Hawt dog! It is empty!"
    ensures PlainMessage(m)
  {
    ExampleNoBoolean(m);
    ExamplePlainValue();
    assert IsAsciiLetter(m[0]);
  }

  lemma ExampleSpecText()
    ensures "required(message:" + "Hawt dog! It is empty!" + ")" == "required(message:Hawt dog! It is empty!)"
  {
  }

  /** `validatorFunction('required(message:Hawt dog! It is empty!)')` rejects `null` with that message. */
  lemma ExampleMessageChain(ed: Edition, isEmail: string -> bool, isUrl: string -> bool, h: Heap)
    ensures var steps := Steps(Validators(ed, isEmail, isUrl), Text("required(message:Hawt dog! It is empty!)"));
            steps.Ok?
            && Call(h, steps.value, map[], Null, "validate", map[]).verdict.RejectsError?
            && Call(h, steps.value, map[], Null, "validate", map[]).verdict.error == Failure(Str("Hawt dog! It is empty!"))
  {
    ExampleMessagePlain("Hawt dog! It is empty!");
    ExampleSpecText();
    CustomMessageChain(ed, isEmail, isUrl, h, "Hawt dog! It is empty!");
  }
}

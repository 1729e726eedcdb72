/**
 Amounts: non-negative decimals with 18 fraction digits, held as scaled `u128` integers and
 written in one canonical form (solvency-merkle/src/lib.rs).
 */
module Amounts {
  import opened Wrappers
  import opened ByteStrings

  const SCALE: nat := 1_000_000_000_000_000_000
  const SCALE_DIGITS: nat := 18
  const U128_MAX: nat := 0xFFFF_FFFF_FFFF_FFFF_FFFF_FFFF_FFFF_FFFF

  type Amount = v: nat | v <= U128_MAX

  const ZERO_DIGIT: Byte := 48
  const DOT: Byte := 46
  const COLON: Byte := 58
  const PIPE: Byte := 124
  const SLASH: Byte := 47

  datatype AmountError = MissingInteger | BareDot | TooManyDecimals | NotDecimal | TooLarge

  // ----- decimal numerals

  predicate IsDigit(b: Byte) {
    ZERO_DIGIT <= b < ZERO_DIGIT + 10
  }

  predicate AllDigits(s: Bytes) {
    forall i :: 0 <= i < |s| ==> IsDigit(s[i])
  }

  function Pow10(k: nat): (r: nat)
    ensures r > 0
  {
    if k == 0 then 1 else 10 * Pow10(k - 1)
  }

  /** `{}` of an unsigned integer. */
  function Decimal(n: nat): (r: Bytes)
    ensures r != [] && AllDigits(r)
  {
    if n < 10 then [ZERO_DIGIT + n] else Decimal(n / 10) + [ZERO_DIGIT + n % 10]
  }

  /** `{:0>width}` */
  function PadLeft(s: Bytes, width: nat): Bytes {
    if |s| >= width then s else [ZERO_DIGIT] + PadLeft(s, width - 1)
  }

  /** `{:0<width}` */
  function PadRight(s: Bytes, width: nat): Bytes
    decreases width - |s|
  {
    if |s| >= width then s else PadRight(s + [ZERO_DIGIT], width)
  }

  /** The number a digit string denotes. */
  function Value(s: Bytes): nat
    requires AllDigits(s)
  {
    if s == [] then 0 else 10 * Value(s[..|s| - 1]) + (s[|s| - 1] - ZERO_DIGIT)
  }

  lemma {:induction false} DecimalValue(n: nat)
    ensures Value(Decimal(n)) == n
  {
    if n >= 10 {
      DecimalValue(n / 10);
      assert Decimal(n)[..|Decimal(n)| - 1] == Decimal(n / 10);
    }
  }

  lemma {:induction false} DecimalLength(n: nat, k: nat)
    requires k > 0 && n < Pow10(k)
    ensures |Decimal(n)| <= k
  {
    if n >= 10 {
      DecimalLength(n / 10, k - 1);
    }
  }

  lemma {:induction false} ValueLeadingZero(s: Bytes)
    requires AllDigits(s)
    ensures AllDigits([ZERO_DIGIT] + s) && Value([ZERO_DIGIT] + s) == Value(s)
  {
    var z := [ZERO_DIGIT] + s;
    if s != [] {
      assert z[..|z| - 1] == [ZERO_DIGIT] + s[..|s| - 1];
      ValueLeadingZero(s[..|s| - 1]);
    }
  }

  lemma {:induction false} PadLeftValue(s: Bytes, width: nat)
    requires AllDigits(s)
    ensures AllDigits(PadLeft(s, width)) && Value(PadLeft(s, width)) == Value(s)
    ensures |PadLeft(s, width)| == if |s| >= width then |s| else width
  {
    if |s| < width {
      PadLeftValue(s, width - 1);
      ValueLeadingZero(PadLeft(s, width - 1));
    }
  }

  lemma AppendZeroValue(s: Bytes)
    requires AllDigits(s)
    ensures AllDigits(s + [ZERO_DIGIT]) && Value(s + [ZERO_DIGIT]) == 10 * Value(s)
  {
    var t := s + [ZERO_DIGIT];
    assert t[..|t| - 1] == s;
  }

  lemma TimesTen(x: nat, p: nat)
    ensures (10 * x) * p == x * (10 * p)
  {
  }

  lemma {:induction false} PadRightValue(s: Bytes, width: nat)
    requires AllDigits(s) && |s| <= width
    ensures AllDigits(PadRight(s, width)) && |PadRight(s, width)| == width
    ensures Value(PadRight(s, width)) == Value(s) * Pow10(width - |s|)
    decreases width - |s|
  {
    if |s| < width {
      AppendZeroValue(s);
      PadRightValue(s + [ZERO_DIGIT], width);
      TimesTen(Value(s), Pow10(width - |s| - 1));
    } else {
      assert Pow10(0) == 1;
    }
  }

  lemma {:induction false} ValueBound(s: Bytes)
    requires AllDigits(s)
    ensures Value(s) < Pow10(|s|)
  {
    if s != [] {
      ValueBound(s[..|s| - 1]);
    }
  }

  /** Equal-length digit strings with one value are one string. */
  lemma {:induction false} ValueInjective(s: Bytes, t: Bytes)
    requires AllDigits(s) && AllDigits(t) && |s| == |t| && Value(s) == Value(t)
    ensures s == t
  {
    if s != [] {
      var n := |s| - 1;
      ValueInjective(s[..n], t[..n]);
      assert s == s[..n] + [s[n]] && t == t[..n] + [t[n]];
    }
  }

  // ----- parsing

  /** Where `c` first occurs, or the length when it does not. */
  function IndexOf(s: Bytes, c: Byte): (i: nat)
    ensures i <= |s| && c !in s[..i]
    ensures i < |s| ==> s[i] == c
  {
    if s == [] || s[0] == c then
      0
    else
      var i := 1 + IndexOf(s[1..], c);
      assert s[..i] == [s[0]] + s[1..][..i - 1];
      i
  }

  /** `parse_amount_18dp`, guard by guard. */
  function ParseAmount(s: Text): Result<Amount, AmountError> {
    var dot := IndexOf(s, DOT);
    var intPart := s[..dot];
    var fracPart := if dot < |s| then s[dot + 1..] else [];
    if intPart == [] then
      Err(MissingInteger)
    else if dot < |s| && fracPart == [] then
      Err(BareDot)
    else if |fracPart| > SCALE_DIGITS then
      Err(TooManyDecimals)
    else if !(AllDigits(intPart) && AllDigits(fracPart)) then
      Err(NotDecimal)
    else
      PadRightValue(fracPart, SCALE_DIGITS);
      var whole := Value(intPart);
      var frac := if fracPart == [] then 0 else Value(PadRight(fracPart, SCALE_DIGITS));
      if whole > U128_MAX || whole * SCALE > U128_MAX || whole * SCALE + frac > U128_MAX then
        Err(TooLarge)
      else
        Ok(whole * SCALE + frac)
  }

  /** The amount grammar: `text` is `whole`, or `whole` `.` `fraction`. */
  ghost predicate Spells(text: Bytes, whole: Bytes, fraction: Bytes) {
    && whole != [] && AllDigits(whole)
    && AllDigits(fraction) && |fraction| <= SCALE_DIGITS
    && text == if fraction == [] then whole else whole + [DOT] + fraction
  }

  ghost function Scaled(whole: Bytes, fraction: Bytes): nat
    requires AllDigits(whole) && AllDigits(fraction) && |fraction| <= SCALE_DIGITS
  {
    Value(whole) * SCALE + Value(fraction) * Pow10(SCALE_DIGITS - |fraction|)
  }

  ghost predicate Denotes(text: Bytes, v: nat) {
    exists whole, fraction :: Spells(text, whole, fraction) && v == Scaled(whole, fraction)
  }

  lemma SpellingUnique(text: Bytes, w1: Bytes, f1: Bytes, w2: Bytes, f2: Bytes)
    requires Spells(text, w1, f1) && Spells(text, w2, f2)
    ensures w1 == w2 && f1 == f2
  {
    SpelledDot(text, w1, f1);
    SpelledDot(text, w2, f2);
    if f1 != [] {
      SplitAtFirst(w1, f1, w2, f2, DOT);
    }
  }

  lemma SpelledDot(text: Bytes, whole: Bytes, fraction: Bytes)
    requires Spells(text, whole, fraction)
    ensures DOT !in whole && (DOT in text <==> fraction != [])
  {
    if fraction != [] {
      assert text[|whole|] == DOT;
    }
  }

  /** The first dot is where the whole part ends. */
  lemma SpelledParts(text: Text, whole: Bytes, fraction: Bytes)
    requires Spells(text, whole, fraction)
    ensures text[..IndexOf(text, DOT)] == whole
    ensures IndexOf(text, DOT) < |text| <==> fraction != []
    ensures fraction != [] ==> text[IndexOf(text, DOT) + 1..] == fraction
  {
    var dot := IndexOf(text, DOT);
    assert DOT !in whole;
    if fraction == [] {
      assert dot == |text|;
    } else {
      assert forall i :: 0 <= i < |whole| ==> text[i] == whole[i];
      assert text[|whole|] == DOT;
      assert dot == |whole| by {
        assert forall i :: 0 <= i < dot ==> text[i] == text[..dot][i];
      }
    }
  }

  lemma ParseFollowsSpelling(text: Text, whole: Bytes, fraction: Bytes)
    requires Spells(text, whole, fraction)
    ensures ParseAmount(text) ==
      if Scaled(whole, fraction) <= U128_MAX then Ok(Scaled(whole, fraction)) else Err(TooLarge)
  {
    assert Value([]) == 0;
    hide Value, PadRight, Pow10, AllDigits, IndexOf;
    SpelledParts(text, whole, fraction);
    PadRightValue(fraction, SCALE_DIGITS);
  }

  /** Accepted exactly when the text is in the grammar and its scaled value fits a `u128`. */
  lemma ParseAmountCorrect(text: Text, v: Amount)
    ensures ParseAmount(text) == Ok(v) <==> Denotes(text, v)
    ensures ParseAmount(text) == Err(TooLarge) <==> exists big: nat :: big > U128_MAX && Denotes(text, big)
  {
    var r := ParseAmount(text);
    if r.Ok? || r == Err(TooLarge) {
      var dot := IndexOf(text, DOT);
      var whole := text[..dot];
      var fraction := if dot < |text| then text[dot + 1..] else [];
      assert Spells(text, whole, fraction) by {
        if dot < |text| {
          assert text == text[..dot] + [text[dot]] + text[dot + 1..];
        } else {
          assert text == text[..dot];
        }
      }
      ParseFollowsSpelling(text, whole, fraction);
      assert Denotes(text, Scaled(whole, fraction));
    }
    forall u: nat | Denotes(text, u) ensures r == if u <= U128_MAX then Ok(u) else Err(TooLarge) {
      var whole, fraction :| Spells(text, whole, fraction) && u == Scaled(whole, fraction);
      ParseFollowsSpelling(text, whole, fraction);
    }
  }

  // ----- the canonical form

  /** `format_amount_18dp` */
  function FormatAmount(v: nat): (r: Bytes)
    ensures COLON !in r && PIPE !in r && SLASH !in r && r != []
  {
    var fraction := Decimal(v % SCALE);
    PadLeftValue(fraction, SCALE_DIGITS);
    Decimal(v / SCALE) + [DOT] + PadLeft(fraction, SCALE_DIGITS)
  }

  lemma ScaleIsPow10()
    ensures Pow10(SCALE_DIGITS) == SCALE
  {
    assert Pow10(6) == 1_000_000;
    assert Pow10(12) == 1_000_000 * Pow10(6);
    assert Pow10(18) == 1_000_000 * Pow10(12);
  }

  lemma FormatSpells(v: nat)
    ensures exists whole, fraction ::
      Spells(FormatAmount(v), whole, fraction) && |fraction| == SCALE_DIGITS && Scaled(whole, fraction) == v
  {
    var whole, fraction := Decimal(v / SCALE), PadLeft(Decimal(v % SCALE), SCALE_DIGITS);
    PadLeftValue(Decimal(v % SCALE), SCALE_DIGITS);
    DecimalValue(v / SCALE);
    DecimalValue(v % SCALE);
    ScaleIsPow10();
    DecimalLength(v % SCALE, SCALE_DIGITS);
    assert Pow10(0) == 1;
    assert Spells(FormatAmount(v), whole, fraction) && Scaled(whole, fraction) == v;
  }

  /** Distinct amounts never share a canonical rendering. */
  lemma FormatInjective(v: nat, w: nat)
    requires FormatAmount(v) == FormatAmount(w)
    ensures v == w
  {
    FormatSpells(v);
    FormatSpells(w);
    var w1, f1 :| Spells(FormatAmount(v), w1, f1) && |f1| == SCALE_DIGITS && Scaled(w1, f1) == v;
    var w2, f2 :| Spells(FormatAmount(w), w2, f2) && |f2| == SCALE_DIGITS && Scaled(w2, f2) == w;
    SpellingUnique(FormatAmount(v), w1, f1, w2, f2);
  }

  /** A `u128` amount renders in at most 40 bytes. */
  lemma FormatLength(v: Amount)
    ensures |FormatAmount(v)| <= 40
  {
    ScaleIsPow10();
    assert Pow10(21) == 1000 * Pow10(18);
    DecimalLength(v / SCALE, 21);
    DecimalLength(v % SCALE, SCALE_DIGITS);
    PadLeftValue(Decimal(v % SCALE), SCALE_DIGITS);
  }

  function FormatText(v: Amount): (r: Text)
    ensures r == FormatAmount(v)
  {
    FormatLength(v);
    FormatAmount(v)
  }

  /** Parsing undoes rendering, for every `u128`. */
  lemma ParseFormatRoundTrip(v: Amount)
    ensures ParseAmount(FormatText(v)) == Ok(v)
  {
    FormatSpells(v);
    assert Denotes(FormatText(v), v);
    ParseAmountCorrect(FormatText(v), v);
  }

  /** Rendering after parsing is the canonical spelling: it depends on the value alone. */
  lemma FormatParseCanonical(s: Text, t: Text)
    requires ParseAmount(s).Ok? && ParseAmount(t).Ok?
    ensures ParseAmount(FormatText(ParseAmount(s).value)) == ParseAmount(s)
    ensures ParseAmount(s) == ParseAmount(t) <==> FormatText(ParseAmount(s).value) == FormatText(ParseAmount(t).value)
  {
    ParseFormatRoundTrip(ParseAmount(s).value);
    ParseFormatRoundTrip(ParseAmount(t).value);
  }
}

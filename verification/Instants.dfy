/**
 The timestamp profile `YYYY-MM-DDTHH:MM:SS[.fff…]Z`: what is accepted, the second it names, and
 how string order relates to it (solvency-report/src/instant.rs).
 */
module Instants {
  import opened Wrappers
  import opened ByteStrings
  import opened Amounts
  import opened Calendar

  const DASH: Byte := 45
  const TEE: Byte := 84
  const ZED: Byte := 90

  predicate IsAscii(t: Bytes) {
    forall i :: 0 <= i < |t| ==> t[i] < 0x80
  }

  /** `Z`, or `.` and at least one digit and `Z`. */
  predicate ValidTail(rest: Bytes) {
    || rest == [ZED]
    || (|rest| > 2 && rest[0] == DOT && rest[|rest| - 1] == ZED && AllDigits(rest[1..|rest| - 1]))
  }

  predicate Separated(t: Bytes)
    requires |t| >= 20
  {
    t[4] == DASH && t[7] == DASH && t[10] == TEE && t[13] == COLON && t[16] == COLON
  }

  predicate Numeric(t: Bytes)
    requires |t| >= 20
  {
    && AllDigits(t[0..4]) && AllDigits(t[5..7]) && AllDigits(t[8..10])
    && AllDigits(t[11..13]) && AllDigits(t[14..16]) && AllDigits(t[17..19])
  }

  datatype Stamp = Stamp(date: Date, hour: nat, minute: nat, second: nat)

  function StampOf(t: Bytes): Stamp
    requires |t| >= 20 && Numeric(t)
  {
    Stamp(Date(Value(t[0..4]), Value(t[5..7]), Value(t[8..10])),
          Value(t[11..13]), Value(t[14..16]), Value(t[17..19]))
  }

  predicate ValidStamp(s: Stamp) {
    ValidDate(s.date) && s.hour <= 23 && s.minute <= 59 && s.second <= 59
  }

  function Seconds(s: Stamp): int {
    Days(s.date) * 86_400 + s.hour * 3_600 + s.minute * 60 + s.second
  }

  /** `parse` */
  function ParseInstant(t: Bytes): Option<int> {
    if |t| < 20 || !IsAscii(t) then None
    else if !Separated(t) then None
    else if !Numeric(t) then None
    else if !ValidTail(t[19..]) then None
    else
      var s := StampOf(t);
      if !ValidDate(s.date) then None
      else if s.hour > 23 || s.minute > 59 || s.second > 59 then None
      else Some(Seconds(s))
  }

  // ----- stamps in order

  predicate StampBefore(a: Stamp, b: Stamp) {
    || Earlier(a.date, b.date)
    || (a.date == b.date &&
        (a.hour < b.hour || (a.hour == b.hour &&
         (a.minute < b.minute || (a.minute == b.minute && a.second < b.second)))))
  }

  lemma SecondsOrder(a: Stamp, b: Stamp)
    requires ValidStamp(a) && ValidStamp(b)
    ensures StampBefore(a, b) <==> Seconds(a) < Seconds(b)
    ensures a == b <==> Seconds(a) == Seconds(b)
  {
    hide Days;
    OrderIsDayOrder(a.date, b.date);
    OrderIsDayOrder(b.date, a.date);
  }

  // ----- strings in order

  lemma BeforeSplit(a: Bytes, b: Bytes, n: nat)
    requires n <= |a| && n <= |b|
    ensures Before(a, b) <==> Before(a[..n], b[..n]) || (a[..n] == b[..n] && Before(a[n..], b[n..]))
    ensures a == b <==> a[..n] == b[..n] && a[n..] == b[n..]
  {
    BeforeDecidedByPrefix(a, b, n);
    if a[..n] == b[..n] {
      BeforeDropsCommonPrefix(a, b, n);
      BeforeIrreflexive(a[..n]);
    }
    assert a == a[..n] + a[n..] && b == b[..n] + b[n..];
  }

  /** Equal-length digit strings compare as their values do. */
  lemma {:induction false} DigitsOrder(p: Bytes, q: Bytes)
    requires AllDigits(p) && AllDigits(q) && |p| == |q|
    ensures Before(p, q) <==> Value(p) < Value(q)
    ensures p == q <==> Value(p) == Value(q)
  {
    if p != [] {
      var n := |p| - 1;
      DigitsOrder(p[..n], q[..n]);
      BeforeSplit(p, q, n);
      assert p[n..] == [p[n]] && q[n..] == [q[n]];
    }
  }

  /** Strings opening with a number and a separator compare by the number, then by what follows. */
  lemma PeelNumber(a: Bytes, b: Bytes, n: nat)
    requires n < |a| && n < |b| && AllDigits(a[..n]) && AllDigits(b[..n]) && a[n] == b[n]
    ensures Before(a, b) <==>
      Value(a[..n]) < Value(b[..n]) || (Value(a[..n]) == Value(b[..n]) && Before(a[n + 1..], b[n + 1..]))
    ensures a == b <==> Value(a[..n]) == Value(b[..n]) && a[n + 1..] == b[n + 1..]
  {
    hide Value;
    BeforeSplit(a, b, n);
    DigitsOrder(a[..n], b[..n]);
    BeforeSplit(a[n..], b[n..], 1);
    assert a[n..][..1] == [a[n]] == b[n..][..1];
    BeforeIrreflexive([a[n]]);
    assert a[n..][1..] == a[n + 1..] && b[n..][1..] == b[n + 1..];
  }

  ghost predicate Accepted(t: Bytes) {
    ParseInstant(t).Some?
  }

  lemma AcceptedMeans(t: Bytes)
    requires Accepted(t)
    ensures |t| >= 20 && Separated(t) && Numeric(t) && ValidTail(t[19..])
    ensures ValidStamp(StampOf(t)) && ParseInstant(t) == Some(Seconds(StampOf(t)))
  {
  }

  /** The part of a timestamp that names its second. */
  function Second(t: Bytes): Bytes
    requires |t| >= 19
  {
    t[..19]
  }

  lemma {:induction false} DateOrder(a: Bytes, b: Bytes)
    requires |a| >= 20 && Separated(a) && Numeric(a) && |b| >= 20 && Separated(b) && Numeric(b)
    ensures Before(a[..19], b[..19]) <==>
      || Earlier(StampOf(a).date, StampOf(b).date)
      || (StampOf(a).date == StampOf(b).date && Before(a[11..19], b[11..19]))
    ensures a[..19] == b[..19] <==> StampOf(a).date == StampOf(b).date && a[11..19] == b[11..19]
  {
    hide Value, Before;
    var s, t := a[..19], b[..19];
    assert s[..4] == a[0..4] && t[..4] == b[0..4] && s[5..] == a[5..19] && t[5..] == b[5..19];
    PeelNumber(s, t, 4);
    s, t := a[5..19], b[5..19];
    assert s[..2] == a[5..7] && t[..2] == b[5..7] && s[2] == a[7] && t[2] == b[7];
    assert s[3..] == a[8..19] && t[3..] == b[8..19];
    PeelNumber(s, t, 2);
    s, t := a[8..19], b[8..19];
    assert s[..2] == a[8..10] && t[..2] == b[8..10] && s[2] == a[10] && t[2] == b[10];
    assert s[3..] == a[11..19] && t[3..] == b[11..19];
    PeelNumber(s, t, 2);
  }

  lemma {:induction false} TimeOrder(a: Bytes, b: Bytes)
    requires |a| >= 20 && Separated(a) && Numeric(a) && |b| >= 20 && Separated(b) && Numeric(b)
    ensures
      var x, y := StampOf(a), StampOf(b);
      Before(a[11..19], b[11..19]) <==>
        x.hour < y.hour || (x.hour == y.hour && (x.minute < y.minute || (x.minute == y.minute && x.second < y.second)))
    ensures
      var x, y := StampOf(a), StampOf(b);
      a[11..19] == b[11..19] <==> x.hour == y.hour && x.minute == y.minute && x.second == y.second
  {
    hide Value, Before;
    var s, t := a[11..19], b[11..19];
    assert s[..2] == a[11..13] && t[..2] == b[11..13] && s[2] == a[13] && t[2] == b[13];
    assert s[3..] == a[14..19] && t[3..] == b[14..19];
    PeelNumber(s, t, 2);
    s, t := a[14..19], b[14..19];
    assert s[..2] == a[14..16] && t[..2] == b[14..16] && s[2] == a[16] && t[2] == b[16];
    assert s[3..] == a[17..19] && t[3..] == b[17..19];
    PeelNumber(s, t, 2);
    DigitsOrder(a[17..19], b[17..19]);
  }

  /** Among accepted strings the first 19 bytes are in the order of the instants, strictly and exactly. */
  lemma StringOrderIsInstantOrder(a: Bytes, b: Bytes)
    requires Accepted(a) && Accepted(b)
    ensures |a| >= 19 && |b| >= 19
    ensures Before(Second(a), Second(b)) <==> ParseInstant(a).value < ParseInstant(b).value
    ensures Second(a) == Second(b) <==> ParseInstant(a) == ParseInstant(b)
  {
    hide Before, Seconds, ValidStamp, ParseInstant;
    AcceptedMeans(a);
    AcceptedMeans(b);
    DateOrder(a, b);
    TimeOrder(a, b);
    SecondsOrder(StampOf(a), StampOf(b));
  }

  /** Whole strings are weakly monotone: sorting as text never sorts instants backwards. */
  lemma WholeStringsWeaklyMonotone(a: Bytes, b: Bytes)
    requires Accepted(a) && Accepted(b) && AtMost(a, b)
    ensures ParseInstant(a).value <= ParseInstant(b).value
  {
    hide ParseInstant, Before;
    StringOrderIsInstantOrder(a, b);
    StringOrderIsInstantOrder(b, a);
    if a != b {
      BeforeDecidedByPrefix(a, b, 19);
    }
  }

  /** For one pair, exactly unless both lie in one second and the first sorts before the second. */
  lemma WholeStringsExactly(a: Bytes, b: Bytes)
    requires Accepted(a) && Accepted(b)
    ensures |a| >= 19 && |b| >= 19
    ensures (Before(a, b) <==> ParseInstant(a).value < ParseInstant(b).value) <==>
      !(Second(a) == Second(b) && Before(a, b))
  {
    hide ParseInstant, Before;
    StringOrderIsInstantOrder(a, b);
    BeforeDecidedByPrefix(a, b, 19);
    AcceptedMeans(a);
    AcceptedMeans(b);
  }

  /** Strictness stops at the second: a fraction sorts before the bare second it lies within. */
  lemma FractionsOrderTextOnly(t: Bytes, fraction: Bytes)
    requires |t| == 20 && Accepted(t) && fraction != [] && AllDigits(fraction)
    ensures
      var fractional := t[..19] + [DOT] + fraction + [ZED];
      Before(fractional, t) && ParseInstant(fractional) == ParseInstant(t)
  {
    hide Value, Days;
    var stem, u := t[..19], t[..19] + [DOT] + fraction + [ZED];
    var rest := [DOT] + fraction + [ZED];
    assert u == stem + rest && u[..19] == stem && u[19..] == rest;
    assert rest[1..|rest| - 1] == fraction;
    assert t[19..] == [ZED] && [ZED][0] == ZED && rest[0] == DOT;
    BeforeSplit(u, t, 19);
    assert Before(rest, [ZED]);
    SameStem(u, t);
    assert forall i :: 0 <= i < |fraction| ==> IsDigit(fraction[i]);
    assert IsAscii(u) by {
      forall i | 0 <= i < |u| ensures u[i] < 0x80 {
        if i < 19 {
          assert u[i] == t[i];
        } else {
          assert u[i] == rest[i - 19];
        }
      }
    }
  }

  lemma SameStem(u: Bytes, t: Bytes)
    requires |u| >= 20 && |t| >= 20 && u[..19] == t[..19]
    ensures Separated(u) == Separated(t) && Numeric(u) == Numeric(t)
    ensures Numeric(t) ==> StampOf(u) == StampOf(t)
  {
    hide Value;
    forall i, j | 0 <= i <= j <= 19 ensures u[i..j] == t[i..j] {
      CutInPrefix(u, 19, i, j);
      CutInPrefix(t, 19, i, j);
    }
    assert forall i :: 0 <= i < 19 ==> u[i] == u[..19][i] && t[i] == t[..19][i];
  }

  lemma CutInPrefix(s: Bytes, n: nat, i: nat, j: nat)
    requires i <= j <= n <= |s|
    ensures s[i..j] == s[..n][i..j]
  {
  }

  // ----- every second has a spelling

  function Digits(v: nat, width: nat): Bytes {
    PadLeft(Decimal(v), width)
  }

  lemma DigitsSpell(v: nat, width: nat)
    requires width > 0 && v < Pow10(width)
    ensures |Digits(v, width)| == width && AllDigits(Digits(v, width)) && Value(Digits(v, width)) == v
  {
    DecimalValue(v);
    DecimalLength(v, width);
    PadLeftValue(Decimal(v), width);
  }

  /** The whole-second spelling of a stamp. */
  function Render(s: Stamp): Bytes
    requires s.date.year >= 0
  {
    Digits(s.date.year, 4) + [DASH] + Digits(s.date.month, 2) + [DASH] + Digits(s.date.day, 2) + [TEE]
    + Digits(s.hour, 2) + [COLON] + Digits(s.minute, 2) + [COLON] + Digits(s.second, 2) + [ZED]
  }

  /** Reading back what was laid out field by field. */
  lemma LaidOut(y: Bytes, mo: Bytes, d: Bytes, h: Bytes, mi: Bytes, se: Bytes)
    requires |y| == 4 && |mo| == |d| == |h| == |mi| == |se| == 2
    requires AllDigits(y) && AllDigits(mo) && AllDigits(d) && AllDigits(h) && AllDigits(mi) && AllDigits(se)
    ensures
      var t := y + [DASH] + mo + [DASH] + d + [TEE] + h + [COLON] + mi + [COLON] + se + [ZED];
      && |t| == 20 && IsAscii(t) && Separated(t) && t[19..] == [ZED]
      && t[0..4] == y && t[5..7] == mo && t[8..10] == d && t[11..13] == h && t[14..16] == mi && t[17..19] == se
  {
    var t := y + [DASH] + mo + [DASH] + d + [TEE] + h + [COLON] + mi + [COLON] + se + [ZED];
    assert t[0..4] == y;
    assert t[5..7] == mo;
    assert t[8..10] == d;
    assert t[11..13] == h;
    assert t[14..16] == mi;
    assert t[17..19] == se;
  }

  /** Every valid stamp of the years 0000 to 9999 has a spelling, and it parses back. */
  lemma RenderParses(s: Stamp)
    requires ValidStamp(s) && 0 <= s.date.year <= 9999
    ensures ParseInstant(Render(s)) == Some(Seconds(s))
  {
    hide Digits, Days, Value;
    assert Pow10(2) == 100 && Pow10(4) == 10_000;
    DigitsSpell(s.date.year, 4);
    DigitsSpell(s.date.month, 2);
    DigitsSpell(s.date.day, 2);
    DigitsSpell(s.hour, 2);
    DigitsSpell(s.minute, 2);
    DigitsSpell(s.second, 2);
    LaidOut(Digits(s.date.year, 4), Digits(s.date.month, 2), Digits(s.date.day, 2),
            Digits(s.hour, 2), Digits(s.minute, 2), Digits(s.second, 2));
  }

  lemma DigitsOfValue(p: Bytes, width: nat)
    requires AllDigits(p) && |p| == width > 0
    ensures Value(p) < Pow10(width) && Digits(Value(p), width) == p
  {
    ValueBound(p);
    DigitsSpell(Value(p), width);
    ValueInjective(Digits(Value(p), width), p);
  }

  lemma CutIntoFields(t: Bytes)
    requires |t| >= 20 && Separated(t)
    ensures t[..19] ==
      t[0..4] + [DASH] + t[5..7] + [DASH] + t[8..10] + [TEE]
      + t[11..13] + [COLON] + t[14..16] + [COLON] + t[17..19]
  {
  }

  /**
   What is accepted, exactly: the spelling of a valid second of the years 0000 to 9999, closed by
   `Z` or by a point, at least one digit and `Z`.
   */
  lemma AcceptedIffRendered(t: Bytes)
    ensures Accepted(t) <==>
      exists s, fraction ::
        && ValidStamp(s) && 0 <= s.date.year <= 9999
        && |Render(s)| == 20
        && AllDigits(fraction)
        && t == Render(s)[..19] + (if fraction == [] then [] else [DOT] + fraction) + [ZED]
  {
    hide Digits, Days, Value, Render, ParseInstant, AllDigits, ValidStamp;
    if Accepted(t) {
      var s, fraction := AcceptedSpells(t);
      assert AllDigits(fraction);
    }
    if s, fraction :|
         && ValidStamp(s) && 0 <= s.date.year <= 9999 && |Render(s)| == 20 && AllDigits(fraction)
         && t == Render(s)[..19] + (if fraction == [] then [] else [DOT] + fraction) + [ZED] {
      SpellingAccepted(t, s, fraction);
    }
  }

  lemma AcceptedSpells(t: Bytes) returns (s: Stamp, fraction: Bytes)
    requires Accepted(t)
    ensures ValidStamp(s) && 0 <= s.date.year <= 9999 && |Render(s)| == 20 && AllDigits(fraction)
    ensures t == Render(s)[..19] + (if fraction == [] then [] else [DOT] + fraction) + [ZED]
  {
    hide Digits, Days, Value, Render;
    AcceptedMeans(t);
    s := StampOf(t);
    StampRenders(t);
    var tail := t[19..];
    assert t == t[..19] + tail;
    fraction := if tail == [ZED] then [] else tail[1..|tail| - 1];
    assert fraction != [] ==> tail == [DOT] + fraction + [ZED];
  }

  lemma SpellingAccepted(t: Bytes, s: Stamp, fraction: Bytes)
    requires ValidStamp(s) && 0 <= s.date.year <= 9999 && |Render(s)| == 20 && AllDigits(fraction)
    requires t == Render(s)[..19] + (if fraction == [] then [] else [DOT] + fraction) + [ZED]
    ensures Accepted(t)
  {
    hide Digits, Days, Value, Render;
    RenderParses(s);
    AcceptedMeans(Render(s));
    var head, tail := Render(s)[..19], (if fraction == [] then [] else [DOT] + fraction) + [ZED];
    assert t == head + tail;
    assert t[..19] == head && t[19..] == tail;
    assert fraction != [] ==> tail[1..|tail| - 1] == fraction;
    SameStem(t, Render(s));
    TailAscii(tail);
    assert IsAscii(t) by {
      forall i | 0 <= i < |t| ensures t[i] < 0x80 {
        assert i < 19 ==> t[i] == Render(s)[i];
        assert i >= 19 ==> t[i] == tail[i - 19];
      }
    }
  }

  lemma TailAscii(rest: Bytes)
    requires ValidTail(rest)
    ensures IsAscii(rest)
  {
    if rest != [ZED] {
      forall i | 0 <= i < |rest| ensures rest[i] < 0x80 {
        assert 0 < i < |rest| - 1 ==> rest[i] == rest[1..|rest| - 1][i - 1];
      }
    }
  }

  lemma StampRenders(t: Bytes)
    requires |t| >= 20 && Separated(t) && Numeric(t)
    ensures 0 <= StampOf(t).date.year <= 9999
    ensures |Render(StampOf(t))| == 20 && t[..19] == Render(StampOf(t))[..19]
  {
    hide Digits, Value, Days;
    assert Pow10(4) == 10_000;
    CutIntoFields(t);
    DigitsOfValue(t[0..4], 4);
    DigitsOfValue(t[5..7], 2);
    DigitsOfValue(t[8..10], 2);
    DigitsOfValue(t[11..13], 2);
    DigitsOfValue(t[14..16], 2);
    DigitsOfValue(t[17..19], 2);
    assert Render(StampOf(t)) == t[..19] + [ZED];
  }

  // ----- seconds, one after another

  function NextSecond(s: Stamp): Stamp {
    if s.second < 59 then s.(second := s.second + 1)
    else if s.minute < 59 then s.(minute := s.minute + 1, second := 0)
    else if s.hour < 23 then Stamp(s.date, s.hour + 1, 0, 0)
    else Stamp(NextDay(s.date), 0, 0, 0)
  }

  function AfterSeconds(s: Stamp, n: nat): Stamp {
    if n == 0 then s else NextSecond(AfterSeconds(s, n - 1))
  }

  lemma NextSecondIsOneOn(s: Stamp)
    requires ValidStamp(s)
    ensures ValidStamp(NextSecond(s)) && Seconds(NextSecond(s)) == Seconds(s) + 1
  {
    hide Days, DaysInMonth;
    StepsInvert(s.date);
    NextDayIsOneDay(s.date);
  }

  lemma {:induction false} AfterSecondsCounts(s: Stamp, n: nat)
    requires ValidStamp(s)
    ensures ValidStamp(AfterSeconds(s, n)) && Seconds(AfterSeconds(s, n)) == Seconds(s) + n
  {
    hide Seconds, ValidStamp, NextSecond;
    if n > 0 {
      AfterSecondsCounts(s, n - 1);
      NextSecondIsOneOn(AfterSeconds(s, n - 1));
    }
  }

  /** `s` is the second an accepted text spells, a fraction aside. */
  predicate Names(t: Bytes, s: Stamp) {
    && ValidStamp(s) && 0 <= s.date.year <= 9999
    && |t| >= 20 && |Render(s)| == 20 && t[..19] == Render(s)[..19]
  }

  /** The parsed value of an accepted text is that of the stamp it names. */
  lemma NamesItsStamp(t: Bytes)
    requires Accepted(t)
    ensures |t| >= 20 && Numeric(t) && Names(t, StampOf(t)) && ParseInstant(t) == Some(Seconds(StampOf(t)))
    ensures forall s :: Names(t, s) ==> s == StampOf(t)
  {
    hide Digits, Days, Value, Render;
    AcceptedMeans(t);
    StampRenders(t);
    forall s | Names(t, s) ensures s == StampOf(t) {
      RenderParses(s);
      AcceptedMeans(Render(s));
      SameStem(t, Render(s));
      SecondsOrder(s, StampOf(Render(s)));
    }
  }

  /** The next second's spelling parses to one more, across minutes, hours, days and years. */
  lemma NextSecondParsesToOneMore(s: Stamp)
    requires ValidStamp(s) && 0 <= s.date.year && NextSecond(s).date.year <= 9999
    ensures NextSecond(s).date.year >= 0 && Accepted(Render(s)) && Accepted(Render(NextSecond(s)))
    ensures ParseInstant(Render(NextSecond(s))).value == ParseInstant(Render(s)).value + 1
  {
    hide ParseInstant, Days, DaysInMonth, Render, Seconds;
    NextSecondIsOneOn(s);
    RenderParses(s);
    RenderParses(NextSecond(s));
  }

  /** The count starts at the first second of 1970. */
  lemma EpochParsesToZero()
    ensures ParseInstant(Ascii("1970-01-01T00:00:00Z")) == Some(0)
  {
    hide Days, Value, IsAscii, Separated;
    var y, one, none := [49, 57, 55, 48], [48, 49], [48, 48];
    var t := y + [DASH] + one + [DASH] + one + [TEE] + none + [COLON] + none + [COLON] + none + [ZED];
    assert t == Ascii("1970-01-01T00:00:00Z");
    LaidOut(y, one, one, none, none, none);
    FirstOfSeventy();
    EpochIsZero();
  }

  lemma FirstOfSeventy()
    ensures AllDigits([49, 57, 55, 48]) && AllDigits([48, 49]) && AllDigits([48, 48])
    ensures Value([49, 57, 55, 48]) == 1970 && Value([48, 49]) == 1 && Value([48, 48]) == 0
  {
    assert [49, 57, 55, 48][..3] == [49, 57, 55] && [49, 57, 55][..2] == [49, 57];
    assert [49, 57][..1] == [49] && [48, 49][..1] == [48] && [48, 48][..1] == [48];
  }

  /**
   The parsed value is a count of seconds: an accepted text parses to `n` more than another exactly
   when `n` steps of one second lead from the second one names to the second the other names.
   */
  lemma LaterByExactly(a: Bytes, b: Bytes, n: nat, s: Stamp)
    requires Accepted(a) && Accepted(b) && Names(a, s)
    ensures ParseInstant(b).value == ParseInstant(a).value + n <==> Names(b, AfterSeconds(s, n))
  {
    hide ParseInstant, ValidStamp, Seconds, Numeric, Render, AfterSeconds;
    NamesItsStamp(a);
    NamesItsStamp(b);
    AfterSecondsCounts(s, n);
    SecondsOrder(AfterSeconds(s, n), StampOf(b));
  }

  /** `skew` */
  function Skew(a: Bytes, b: Bytes): Option<nat> {
    match (ParseInstant(a), ParseInstant(b))
    case (Some(x), Some(y)) => Some(if x >= y then x - y else y - x)
    case _ => None
  }

  /** Two texts are `n` apart exactly when both are accepted and `n` one-second steps join what they name. */
  lemma SkewCountsSeconds(a: Bytes, b: Bytes, n: nat)
    ensures Skew(a, b) == Some(n) <==>
      && Accepted(a) && Accepted(b)
      && exists s, t :: Names(a, s) && Names(b, t) && (AfterSeconds(s, n) == t || AfterSeconds(t, n) == s)
  {
    hide ParseInstant, Names, AfterSeconds, Numeric;
    if Accepted(a) && Accepted(b) {
      NamesItsStamp(a);
      NamesItsStamp(b);
      LaterByExactly(a, b, n, StampOf(a));
      LaterByExactly(b, a, n, StampOf(b));
    }
  }
}

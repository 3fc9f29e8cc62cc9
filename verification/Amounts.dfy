/** Reading a typed dollar amount as integer cents (parseAmountCents). */
module Amounts {
  import opened Text

  datatype Problem = Missing | NotANumber | TooManyDecimals | NotPositive
  datatype Amount = Cents(cents: int) | Refused(why: Problem)

  function TrimDollar(s: string): string {
    if s != "" && s[0] == '$' then s[1..] else s
  }

  /** The text that is left once the dollar sign, outer spaces and commas are gone. */
  function Bare(typed: string): string {
    Remove(TrimSpace(TrimDollar(TrimSpace(typed))), ',')
  }

  /** parseAmountCents, with the wrap-around of the int64 product and sum written out. */
  function ParseAmountCents(typed: string): Amount {
    ReadBare(Bare(typed))
  }

  function ReadBare(s: string): Amount {
    if s == "" then Refused(Missing)
    else
      var c := CutAt(s, '.');
      var dollars := ParseInt64(if c.before == "" then "0" else c.before);
      if dollars.None? || dollars.value < 0 then Refused(NotANumber)
      else if !c.found then Total(dollars.value, 0)
      else if ByteLen(c.after) != 1 && ByteLen(c.after) != 2 then Refused(TooManyDecimals)
      else
        var cents := ParseInt64(if ByteLen(c.after) == 1 then c.after + "0" else c.after);
        if cents.None? || cents.value < 0 then Refused(NotANumber) else Total(dollars.value, cents.value)
  }

  function Total(dollars: int, cents: int): (r: Amount)
    ensures 0 < dollars * 100 + cents <= MAX_INT64 && dollars >= 0 && cents >= 0 ==> r == Cents(dollars * 100 + cents)
    ensures r.Cents? ==> 0 < r.cents <= MAX_INT64
    ensures dollars == 0 == cents ==> r.Refused?
    ensures r.Refused? ==> r.why == NotPositive
  {
    var total := Wrap64(Wrap64(dollars * 100) + cents);
    if total <= 0 then Refused(NotPositive) else Cents(total)
  }

  /** The steps of parseAmountCents, reassigning the text and the cents as it does. */
  method ReadAmount(typed: string) returns (r: Amount)
    ensures r == ParseAmountCents(typed)
  {
    hide TrimSpace, Remove, CutAt, ParseInt64, ByteLen, Wrap64;
    var s := TrimSpace(TrimDollar(TrimSpace(typed)));
    s := Remove(s, ',');
    if s == "" {
      return Refused(Missing);
    }
    var c := CutAt(s, '.');
    var whole, frac := c.before, c.after;
    if whole == "" {
      whole := "0";
    }
    var dollars := ParseInt64(whole);
    if dollars.None? || dollars.value < 0 {
      return Refused(NotANumber);
    }
    var cents := 0;
    if c.found {
      if ByteLen(frac) == 1 {
        frac := frac + "0";
      } else if ByteLen(frac) != 2 {
        return Refused(TooManyDecimals);
      }
      var parsed := ParseInt64(frac);
      if parsed.None? || parsed.value < 0 {
        return Refused(NotANumber);
      }
      cents := parsed.value;
    }
    var total := Wrap64(Wrap64(dollars.value * 100) + cents);
    if total <= 0 {
      return Refused(NotPositive);
    }
    return Cents(total);
  }

  // ---- What a typed amount denotes ----------------------------------------

  /** Digits, then a point and one or two digits; either part may be missing, not both. */
  datatype Spelling = Spelling(whole: string, point: bool, frac: string)

  predicate WellSpelled(a: Spelling) {
    AllDigits(a.whole) && AllDigits(a.frac) &&
    (if a.point then 1 <= |a.frac| <= 2 else a.frac == "" && a.whole != "")
  }

  function Plain(a: Spelling): string {
    if a.point then a.whole + ['.'] + a.frac else a.whole
  }

  /** The exact value in cents. */
  function Denotes(a: Spelling): (v: nat)
    requires WellSpelled(a)
  {
    DigitsValue(a.whole) * 100 + (if |a.frac| == 1 then DigitsValue(a.frac) * 10 else DigitsValue(a.frac))
  }

  lemma DigitsAppend(s: string, d: char)
    requires AllDigits(s) && IsDigit(d)
    ensures AllDigits(s + [d]) && DigitsValue(s + [d]) == 10 * DigitsValue(s) + DigitValue(d)
  {
    assert (s + [d])[..|s|] == s;
  }

  lemma {:induction false} DigitsBound(s: string)
    requires AllDigits(s) && |s| <= 2
    ensures DigitsValue(s) < 100 && (|s| == 1 ==> DigitsValue(s) < 10)
  {
    if |s| > 0 {
      assert |s| == 2 ==> DigitsValue(s[..1]) == DigitValue(s[0]);
      assert DigitsValue([]) == 0;
    }
  }

  lemma BareKeeps(s: string)
    requires s != "" && Trimmed(s) && s[0] != '$' && ',' !in s
    ensures Bare(s) == s
  {
  }

  predicate NumeralChar(c: char) { IsDigit(c) || c in {'.', ',', '+', '-'} }

  /** Text made of the characters of a number has no space and no dollar sign in it. */
  lemma NumeralShape(s: string)
    requires s != "" && forall i | 0 <= i < |s| :: NumeralChar(s[i])
    ensures Trimmed(s) && s[0] != '$'
  {
  }

  lemma PlainShape(a: Spelling)
    requires WellSpelled(a)
    ensures Plain(a) != "" && Trimmed(Plain(a)) && Plain(a)[0] != '$' && ',' !in Plain(a)
    ensures forall i | 0 <= i < |Plain(a)| :: NumeralChar(Plain(a)[i])
    ensures Bare(Plain(a)) == Plain(a)
  {
    hide Trimmed, Bare;
    var s := Plain(a);
    assert forall i | 0 <= i < |s| :: IsDigit(s[i]) || s[i] == '.';
    NumeralShape(s);
    BareKeeps(s);
  }

  lemma ZeroDigit()
    ensures AllDigits("0") && DigitsValue("0") == 0
  {
    DigitsAppend("", '0');
    assert "" + ['0'] == "0";
  }

  // ---- Signs ---------------------------------------------------------------

  datatype Sign = NoSign | Plus | Minus

  function SignText(sign: Sign): string {
    match sign
    case NoSign => ""
    case Plus => "+"
    case Minus => "-"
  }

  /** A sign may stand before the dollars and another one before the cents, because strconv.ParseInt reads both. */
  datatype Signed = Signed(sign: Sign, whole: string, point: bool, centSign: Sign, frac: string)

  predicate Numeral(t: Signed) {
    AllDigits(t.whole) && AllDigits(t.frac) &&
    (t.point || (t.frac == "" && t.centSign == NoSign && (t.sign != NoSign || t.whole != "")))
  }

  function WholeText(t: Signed): string { SignText(t.sign) + t.whole }

  function FracText(t: Signed): string { SignText(t.centSign) + t.frac }

  function TextOf(t: Signed): string { if t.point then WholeText(t) + ['.'] + FracText(t) else WholeText(t) }

  /** The dollars can be read: digits behind any sign, in range, and nothing but zero behind a minus. */
  predicate WholeReads(t: Signed)
    requires Numeral(t)
  {
    (t.whole == "" ==> t.sign == NoSign) && DigitsValue(t.whole) <= MAX_INT64 &&
    (t.sign == Minus ==> DigitsValue(t.whole) == 0)
  }

  predicate FracFits(t: Signed) { t.point ==> 1 <= |FracText(t)| <= 2 }

  /** So can the cents: at most one digit behind a sign, and behind a minus only zero or none. */
  predicate Readable(t: Signed)
    requires Numeral(t)
  {
    WholeReads(t) && FracFits(t) && (t.centSign == Minus ==> DigitsValue(t.frac) == 0)
  }

  /** One digit is tenths of a dollar, but behind a sign it is cents. */
  function CentsRead(t: Signed): nat
    requires Numeral(t)
  {
    if t.centSign == NoSign && |t.frac| == 1 then 10 * DigitsValue(t.frac) else DigitsValue(t.frac)
  }

  function Reading(t: Signed): Amount
    requires Numeral(t)
  {
    if !WholeReads(t) then Refused(NotANumber)
    else if !FracFits(t) then Refused(TooManyDecimals)
    else if !Readable(t) then Refused(NotANumber)
    else Total(DigitsValue(t.whole), CentsRead(t))
  }

  lemma ParseSigned(sign: Sign, digits: string)
    requires AllDigits(digits)
    ensures ParseInt64(SignText(sign) + digits) ==
            if digits == "" then None
            else if sign == Minus then
              if DigitsValue(digits) <= MAX_INT64 + 1 then Some(0 - DigitsValue(digits)) else None
            else if DigitsValue(digits) <= MAX_INT64 then Some(DigitsValue(digits)) else None
  {
    hide DigitsValue;
    var s := SignText(sign) + digits;
    assert sign != NoSign ==> s[1..] == digits;
    assert sign == NoSign ==> s == digits;
    assert digits != "" ==> IsDigit(digits[0]);
  }

  lemma SignedPart(sign: Sign, digits: string)
    requires AllDigits(digits)
    ensures '.' !in SignText(sign) + digits && ByteLen(SignText(sign) + digits) == |SignText(sign) + digits|
  {
    var s := SignText(sign) + digits;
    assert forall i | 0 <= i < |s| :: s[i] == '+' || s[i] == '-' || IsDigit(s[i]);
  }

  lemma NumeralCut(t: Signed)
    requires Numeral(t)
    ensures TextOf(t) != "" && CutAt(TextOf(t), '.') == Cut(WholeText(t), if t.point then FracText(t) else "", t.point)
    ensures ByteLen(FracText(t)) == |FracText(t)|
  {
    hide CutAt, ByteLen, AllDigits;
    SignedPart(t.sign, t.whole);
    SignedPart(t.centSign, t.frac);
    if t.point {
      CutOfJoin(WholeText(t), '.', FracText(t));
    }
  }

  /** The cents as they are parsed, padded to two characters. */
  lemma CentsParse(t: Signed)
    requires Numeral(t) && t.point && FracFits(t)
    ensures ParseInt64(if |FracText(t)| == 1 then FracText(t) + "0" else FracText(t)) ==
            Some(if t.centSign == Minus then 0 - CentsRead(t) else CentsRead(t))
  {
    hide ParseInt64, DigitsValue;
    ZeroDigit();
    DigitsBound(t.frac);
    if |FracText(t)| == 1 {
      DigitsAppend(t.frac, '0');
      assert FracText(t) + "0" == SignText(t.centSign) + (t.frac + ['0']);
      assert DigitsValue("") == 0 by { NoDigits(); }
      DigitsBound(t.frac + ['0']);
      ParseSigned(t.centSign, t.frac + ['0']);
    } else {
      ParseSigned(t.centSign, t.frac);
    }
  }

  lemma NoDigits()
    ensures DigitsValue("") == 0
  {
  }

  /** What is read from a numeral with or without signs. */
  lemma ReadNumeral(t: Signed)
    requires Numeral(t)
    ensures ReadBare(TextOf(t)) == Reading(t)
  {
    hide CutAt, ByteLen, ParseInt64, Total, TextOf, DigitsValue;
    NumeralCut(t);
    NoDigits();
    ZeroDigit();
    ParseSigned(NoSign, "0");
    assert SignText(NoSign) + "0" == "0";
    ParseSigned(t.sign, t.whole);
    if t.point && FracFits(t) {
      CentsParse(t);
    }
  }

  /** The sign a text begins with, and what is behind it. */
  function SignOf(s: string): Sign {
    if s != "" && s[0] == '-' then Minus else if s != "" && s[0] == '+' then Plus else NoSign
  }

  function Unsigned(s: string): (r: string)
    ensures s == SignText(SignOf(s)) + r
  {
    if SignOf(s) == NoSign then s else s[1..]
  }

  lemma ParsedIsSigned(s: string)
    requires ParseInt64(s).Some?
    ensures AllDigits(Unsigned(s))
  {
  }

  lemma PaddedIsSigned(f: string)
    requires f != "" && AllDigits(Unsigned(f + "0"))
    ensures AllDigits(Unsigned(f))
  {
    assert Unsigned(f + "0") == Unsigned(f) + "0";
    assert forall i | 0 <= i < |Unsigned(f)| :: Unsigned(f)[i] == Unsigned(f + "0")[i];
  }

  lemma ParsedFraction(f: string)
    requires ByteLen(f) == 1 || ByteLen(f) == 2
    requires ParseInt64(if ByteLen(f) == 1 then f + "0" else f).Some?
    ensures AllDigits(Unsigned(f)) && 1 <= |f| <= 2
  {
    assert f != "";
    hide ByteLen, ParseInt64, Unsigned;
    if ByteLen(f) == 1 {
      ParsedIsSigned(f + "0");
      PaddedIsSigned(f);
    } else {
      ParsedIsSigned(f);
    }
  }

  /** Whatever text is read as a number of cents is such a numeral. */
  lemma ReadIsNumeral(s: string) returns (t: Signed)
    requires ReadBare(s).Cents?
    ensures Numeral(t) && TextOf(t) == s
  {
    hide ParseInt64, Total, ByteLen;
    var c := CutAt(s, '.');
    t := Signed(SignOf(c.before), Unsigned(c.before), c.found, SignOf(c.after), Unsigned(c.after));
    if c.before != "" {
      ParsedIsSigned(c.before);
    }
    if c.found {
      ParsedFraction(c.after);
    }
  }

  /** Exactly which texts are accepted, signs and wrap-around included: bare of dollar sign, commas and
      outer spaces they are numerals that can be read, and what is read comes to a positive int64. */
  lemma AcceptedExactly(typed: string)
    ensures ParseAmountCents(typed).Cents? <==>
            exists t :: Numeral(t) && TextOf(t) == Bare(typed) && Readable(t) &&
                        Wrap64(Wrap64(DigitsValue(t.whole) * 100) + CentsRead(t)) > 0
  {
    hide ReadBare, Bare, TextOf, DigitsValue, CentsRead, WholeReads, Wrap64;
    if ParseAmountCents(typed).Cents? {
      var t := ReadIsNumeral(Bare(typed));
      ReadNumeral(t);
    }
    forall t | Numeral(t) && TextOf(t) == Bare(typed)
      ensures ParseAmountCents(typed).Cents? <==>
              Readable(t) && Wrap64(Wrap64(DigitsValue(t.whole) * 100) + CentsRead(t)) > 0
    {
      ReadNumeral(t);
    }
  }

  lemma SignedShape(t: Signed)
    requires Numeral(t)
    ensures Bare(TextOf(t)) == TextOf(t)
  {
    hide Trimmed, Bare;
    var s := TextOf(t);
    assert forall i | 0 <= i < |s| :: IsDigit(s[i]) || s[i] in {'.', '+', '-'};
    NumeralShape(s);
    BareKeeps(s);
  }

  // ---- What is read from a spelling ----------------------------------------

  lemma ParsePlain(a: Spelling)
    requires WellSpelled(a)
    ensures ParseAmountCents(Plain(a)) ==
            if DigitsValue(a.whole) > MAX_INT64 then Refused(NotANumber)
            else Total(DigitsValue(a.whole), Denotes(a) - DigitsValue(a.whole) * 100)
  {
    hide ReadBare, Bare, DigitsValue, Total;
    var t := Signed(NoSign, a.whole, a.point, NoSign, a.frac);
    assert TextOf(t) == Plain(a);
    SignedShape(t);
    ReadNumeral(t);
    assert DigitsValue("") == 0 by { NoDigits(); }
  }

  /** The exact cents come back if and only if they are positive and fit in an int64. */
  lemma ParseIsExact(a: Spelling)
    requires WellSpelled(a)
    ensures ParseAmountCents(Plain(a)) == Cents(Denotes(a)) <==> 0 < Denotes(a) <= MAX_INT64
  {
    hide Total, ParseAmountCents, DigitsValue, Plain;
    ParsePlain(a);
  }

  /** Beyond that range the product wraps, and an amount can be accepted with a value nobody typed:
      184467440737095517 dollars are read as 84 cents. */
  lemma HugeAmountsWrap()
    ensures var a := Spelling(FormatNat(184467440737095517), false, "");
            WellSpelled(a) && Denotes(a) == 18446744073709551700 && ParseAmountCents(Plain(a)) == Cents(84)
  {
    hide ParseAmountCents, Plain, FormatNat, Denotes;
    var a := Spelling(FormatNat(184467440737095517), false, "");
    DenotesWhole(a);
    ParsePlain(a);
    assert Wrap64(Wrap64(18446744073709551700) + 0) == 84;
  }

  lemma DenotesWhole(a: Spelling)
    requires WellSpelled(a) && a.frac == ""
    ensures Denotes(a) == DigitsValue(a.whole) * 100
  {
  }

  /** A sign before an unsigned amount: a minus is refused unless there are dollars and they are zero, and
      then the cents count as if it were not there; a plus is refused only where no dollars follow it. */
  lemma SignedAmount(a: Spelling)
    requires WellSpelled(a)
    ensures ParseAmountCents("-" + Plain(a)) ==
            if a.whole == "" || 0 < DigitsValue(a.whole) then Refused(NotANumber) else Total(0, Denotes(a))
    ensures ParseAmountCents("+" + Plain(a)) ==
            if a.whole == "" then Refused(NotANumber) else ParseAmountCents(Plain(a))
  {
    hide ReadBare, Bare, DigitsValue, Total;
    var minus, plus := Signed(Minus, a.whole, a.point, NoSign, a.frac), Signed(Plus, a.whole, a.point, NoSign, a.frac);
    assert TextOf(minus) == "-" + Plain(a) && TextOf(plus) == "+" + Plain(a);
    SignedShape(minus);
    SignedShape(plus);
    ReadNumeral(minus);
    ReadNumeral(plus);
    ParsePlain(a);
    assert DigitsValue("") == 0 by { NoDigits(); }
  }

  /** A sign before the cents: at most one digit may follow, and it counts as cents, not as tenths; behind a
      minus only a zero or nothing is read. So "40.+" and "40.-" are 40 dollars, and "40.+5" is five cents more. */
  lemma SignedCents(whole: string, sign: Sign, frac: string)
    requires AllDigits(whole) && AllDigits(frac) && sign != NoSign
    ensures ParseAmountCents(whole + ['.'] + SignText(sign) + frac) ==
            if DigitsValue(whole) > MAX_INT64 then Refused(NotANumber)
            else if |frac| > 1 then Refused(TooManyDecimals)
            else if sign == Minus && DigitsValue(frac) > 0 then Refused(NotANumber)
            else Total(DigitsValue(whole), DigitsValue(frac))
  {
    hide ReadBare, Bare, DigitsValue, Total;
    var t := Signed(NoSign, whole, true, sign, frac);
    assert TextOf(t) == whole + ['.'] + SignText(sign) + frac;
    SignedShape(t);
    ReadNumeral(t);
  }

  /** For instance: a minus sign before zero dollars is ignored. */
  lemma SignedZeroIsAccepted(frac: string)
    requires AllDigits(frac) && |frac| == 2
    ensures ParseAmountCents("-" + Plain(Spelling("0", true, frac))) == ParseAmountCents(Plain(Spelling("0", true, frac)))
  {
    hide ParseAmountCents, DigitsValue, Total, Plain;
    ZeroDigit();
    SignedAmount(Spelling("0", true, frac));
    ParsePlain(Spelling("0", true, frac));
  }

  // ---- Printing and spelling variants --------------------------------------

  /** The canonical two-decimal text of an amount. */
  function Canonical(cents: nat): (a: Spelling)
    ensures WellSpelled(a) && Denotes(a) == cents
  {
    var d1, d2 := DigitChar(cents % 100 / 10), DigitChar(cents % 10);
    DigitsAppend("", d1);
    DigitsAppend([d1], d2);
    assert "" + [d1] == [d1];
    Spelling(FormatNat(cents / 100), true, [d1] + [d2])
  }

  /** Reading inverts printing for every positive int64 total. */
  lemma ParseOfPrint(cents: nat)
    requires 0 < cents <= MAX_INT64
    ensures ParseAmountCents(Plain(Canonical(cents))) == Cents(cents)
  {
    ParseIsExact(Canonical(cents));
  }

  /** A missing trailing zero changes nothing. */
  lemma TrailingZeroImmaterial(whole: string, tenth: char)
    requires AllDigits(whole) && IsDigit(tenth)
    ensures ParseAmountCents(Plain(Spelling(whole, true, [tenth]))) ==
            ParseAmountCents(Plain(Spelling(whole, true, [tenth, '0'])))
  {
    hide ParseAmountCents, Plain, Total;
    ParsePlain(Spelling(whole, true, [tenth]));
    ParsePlain(Spelling(whole, true, [tenth, '0']));
    DigitsAppend("", tenth);
    DigitsAppend([tenth], '0');
    assert "" + [tenth] == [tenth] && [tenth] + ['0'] == [tenth, '0'];
  }

  predicate AllSpaces(s: string) { forall i | 0 <= i < |s| :: IsSpace(s[i]) }

  /** Trimming takes off exactly the spaces around trimmed text. */
  lemma TrimAround(pre: string, s: string, post: string)
    requires AllSpaces(pre) && AllSpaces(post) && Trimmed(s) && s != ""
    ensures TrimSpace(pre + s + post) == s
  {
    var t := pre + s + post;
    assert t[|pre|] == s[0] && t[|pre| + |s| - 1] == s[|s| - 1];
    assert forall k | 0 <= k < |pre| :: t[k] == pre[k];
    assert forall k | |pre| + |s| <= k < |t| :: t[k] == post[k - |pre| - |s|];
    var i := SkipSpaces(t, 0);
    assert i == |pre|;
    var j := DropSpaces(t, i, |t|);
    assert j == |pre| + |s|;
    assert t[i..j] == s;
  }

  lemma TypedShape(a: Spelling, typed: string)
    requires WellSpelled(a) && Remove(typed, ',') == Plain(a)
    ensures typed != "" && Trimmed(typed) && typed[0] != '$'
  {
    hide Trimmed, Bare, WellSpelled, Plain;
    PlainShape(a);
    RemoveKeeps(typed);
    assert typed != "" by { assert Remove("", ',') == ""; }
    forall i | 0 <= i < |typed| ensures NumeralChar(typed[i]) {
      assert typed[i] == ',' || typed[i] in Plain(a);
    }
    NumeralShape(typed);
  }

  /** What is left of decorated text once the spaces and the dollar sign are off. */
  lemma Undecorated(typed: string, pre: string, gap: string, post: string)
    requires AllSpaces(pre) && AllSpaces(gap) && AllSpaces(post) && Trimmed(typed) && typed != "" && typed[0] != '$'
    ensures TrimSpace(TrimDollar(TrimSpace(pre + typed + post))) == typed
    ensures TrimSpace(TrimDollar(TrimSpace(pre + ("$" + gap + typed) + post))) == typed
  {
    hide IsSpace, TrimSpace;
    TrimAround(pre, typed, post);
    assert TrimSpace(typed) == typed;
    var inner := "$" + gap + typed;
    assert inner[0] == '$' && inner[|inner| - 1] == typed[|typed| - 1];
    assert !IsSpace('$') by { DollarNoSpace(); }
    TrimAround(pre, inner, post);
    assert TrimDollar(inner) == gap + typed + "";
    TrimAround(gap, typed, "");
  }

  /** Outer spaces, a dollar sign, spaces behind it and commas anywhere in the digits are immaterial. */
  lemma DecorationImmaterial(a: Spelling, typed: string, pre: string, dollar: bool, gap: string, post: string)
    requires WellSpelled(a) && AllSpaces(pre) && AllSpaces(gap) && AllSpaces(post)
    requires Remove(typed, ',') == Plain(a)
    ensures ParseAmountCents(pre + (if dollar then "$" + gap + typed else typed) + post) == ParseAmountCents(Plain(a))
  {
    hide AllSpaces, Trimmed, TrimSpace, TrimDollar, ReadBare, WellSpelled, Plain, Remove;
    PlainShape(a);
    TypedShape(a, typed);
    Undecorated(typed, pre, gap, post);
  }

  lemma DollarNoSpace()
    ensures !IsSpace('$')
  {
  }

  lemma {:induction false} RemoveKeeps(typed: string)
    ensures forall i | 0 <= i < |typed| :: typed[i] == ',' || typed[i] in Remove(typed, ',')
  {
    if typed != "" {
      RemoveKeeps(typed[1..]);
      assert forall i | 1 <= i < |typed| :: typed[i] == typed[1..][i - 1];
    }
  }

  /** The amount counts as missing exactly when nothing is left once spaces, a dollar sign and commas are gone. */
  lemma MissingExactly(typed: string)
    ensures ParseAmountCents(typed) == Refused(Missing) <==> Bare(typed) == ""
  {
    hide ByteLen, ParseInt64, CutAt, Bare;
  }
}

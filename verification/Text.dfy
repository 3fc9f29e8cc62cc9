/** Strings as the Go standard library treats them: trimming, cutting, splitting,
    decimal printing and parsing, and the byte order SQLite compares text with. */
module Text {

  datatype Option<+T> = None | Some(value: T)

  // ---- White space -------------------------------------------------------

  /** unicode.IsSpace, which strings.TrimSpace uses. */
  predicate IsSpace(c: char) {
    '\t' <= c <= '\r' || c == ' ' || c == '\U{85}' || c == '\U{A0}' || c == '\U{1680}' ||
    '\U{2000}' <= c <= '\U{200A}' || c == '\U{2028}' || c == '\U{2029}' || c == '\U{202F}' ||
    c == '\U{205F}' || c == '\U{3000}'
  }

  predicate Trimmed(s: string) {
    s == "" || (!IsSpace(s[0]) && !IsSpace(s[|s| - 1]))
  }

  /** The first position from i on that holds no space. */
  function SkipSpaces(s: string, i: nat): (r: nat)
    requires i <= |s|
    ensures i <= r <= |s|
    ensures forall k | i <= k < r :: IsSpace(s[k])
    ensures r < |s| ==> !IsSpace(s[r])
    decreases |s| - i
  {
    if i < |s| && IsSpace(s[i]) then SkipSpaces(s, i + 1) else i
  }

  /** The end of s without the spaces that close it, not going below i. */
  function DropSpaces(s: string, i: nat, j: nat): (r: nat)
    requires i <= j <= |s|
    ensures i <= r <= j
    ensures forall k | r <= k < j :: IsSpace(s[k])
    ensures i < r ==> !IsSpace(s[r - 1])
    decreases j
  {
    if i < j && IsSpace(s[j - 1]) then DropSpaces(s, i, j - 1) else j
  }

  /** strings.TrimSpace: the result has no space at either end, what was cut off is spaces,
      and text that has none is kept. */
  function TrimSpace(s: string): (r: string)
    ensures Trimmed(r)
    ensures Trimmed(s) ==> r == s
    ensures r == "" <==> forall k | 0 <= k < |s| :: IsSpace(s[k])
  {
    var i := SkipSpaces(s, 0);
    s[i..DropSpaces(s, i, |s|)]
  }

  predicate Spaces(s: string) { forall k | 0 <= k < |s| :: IsSpace(s[k]) }

  /** Outer spaces do not matter to trimming. */
  lemma TrimOuter(pre: string, s: string, post: string)
    requires Spaces(pre) && Spaces(post)
    ensures TrimSpace(pre + s + post) == TrimSpace(s)
  {
    hide IsSpace;
    var t := pre + s + post;
    var i, i' := SkipSpaces(s, 0), SkipSpaces(t, 0);
    var j, j' := DropSpaces(s, i, |s|), DropSpaces(t, i', |t|);
    assert forall k | 0 <= k < |s| :: t[|pre| + k] == s[k];
    assert forall k | 0 <= k < |pre| :: t[k] == pre[k];
    assert forall k | |pre| + |s| <= k < |t| :: t[k] == post[k - |pre| - |s|];
    if i == |s| {
      assert forall k | 0 <= k < |t| :: IsSpace(t[k]);
    } else {
      assert t[|pre| + i] == s[i] && !IsSpace(t[|pre| + i]);
      assert i' == |pre| + i;
      assert j > i;
      assert t[|pre| + j - 1] == s[j - 1] && !IsSpace(t[|pre| + j - 1]);
      assert j' == |pre| + j;
      assert t[i'..j'] == s[i..j];
    }
  }

  // ---- Cutting and splitting ---------------------------------------------

  /** strings.IndexByte: the first position of c, or -1. */
  function IndexOf(s: string, c: char): (i: int)
    ensures -1 <= i < |s|
    ensures i == -1 <==> c !in s
    ensures i >= 0 ==> s[i] == c && forall k | 0 <= k < i :: s[k] != c
  {
    if s == "" then -1
    else if s[0] == c then 0
    else
      var i := IndexOf(s[1..], c);
      if i < 0 then -1 else i + 1
  }

  datatype Cut = Cut(before: string, after: string, found: bool)

  /** strings.Cut around the first separator. */
  function CutAt(s: string, sep: char): (r: Cut)
    ensures r.found <==> sep in s
    ensures sep !in r.before
    ensures r.found ==> s == r.before + [sep] + r.after
    ensures !r.found ==> r == Cut(s, "", false)
  {
    var i := IndexOf(s, sep);
    if i < 0 then Cut(s, "", false) else Cut(s[..i], s[i + 1..], true)
  }

  /** Cutting text that was joined at its first separator gives the two parts back. */
  lemma CutOfJoin(a: string, sep: char, b: string)
    requires sep !in a
    ensures CutAt(a + [sep] + b, sep) == Cut(a, b, true)
  {
    var s := a + [sep] + b;
    assert s[|a|] == sep;
    var i := IndexOf(s, sep);
    assert forall k | 0 <= k < |a| :: s[k] == a[k];
    assert i == |a|;
  }

  /** strings.Split by one separator. */
  function Split(s: string, sep: char): (parts: seq<string>)
    ensures |parts| >= 1
    decreases |s|
  {
    var c := CutAt(s, sep);
    if c.found then [c.before] + Split(c.after, sep) else [s]
  }

  /** strings.Join by one separator. */
  function Join(parts: seq<string>, sep: char): string
    requires |parts| >= 1
  {
    if |parts| == 1 then parts[0] else parts[0] + [sep] + Join(parts[1..], sep)
  }

  lemma SplitStep(head: string, sep: char, rest: string)
    requires sep !in head
    ensures Split(head, sep) == [head]
    ensures Split(head + [sep] + rest, sep) == [head] + Split(rest, sep)
  {
    CutOfJoin(head, sep, rest);
  }

  /** Split undoes Join for parts that do not contain the separator. */
  lemma {:induction false} SplitOfJoin(parts: seq<string>, sep: char)
    requires |parts| >= 1
    requires forall i | 0 <= i < |parts| :: sep !in parts[i]
    ensures Split(Join(parts, sep), sep) == parts
  {
    hide CutAt, Split;
    if |parts| == 1 {
      SplitStep(parts[0], sep, "");
      assert parts == [parts[0]];
    } else {
      SplitOfJoin(parts[1..], sep);
      SplitStep(parts[0], sep, Join(parts[1..], sep));
      assert parts == [parts[0]] + parts[1..];
    }
  }

  /** strings.ReplaceAll(s, c, ""). */
  function Remove(s: string, c: char): (r: string)
    ensures c !in r
    ensures c !in s ==> r == s
  {
    if s == "" then "" else if s[0] == c then Remove(s[1..], c) else [s[0]] + Remove(s[1..], c)
  }

  /** len(s): the number of bytes of the UTF-8 text. */
  function ByteLen(s: string): (n: nat)
    ensures n >= |s|
    ensures (forall i | 0 <= i < |s| :: s[i] < '\U{80}') ==> n == |s|
  {
    if s == "" then 0
    else
      var c := s[|s| - 1];
      ByteLen(s[..|s| - 1]) + (if c < '\U{80}' then 1 else if c < '\U{800}' then 2 else if c < '\U{10000}' then 3 else 4)
  }

  // ---- ASCII case --------------------------------------------------------

  function UpperChar(c: char): char {
    if 'a' <= c <= 'z' then (c as int - 'a' as int + 'A' as int) as char else c
  }

  function LowerChar(c: char): char {
    if 'A' <= c <= 'Z' then (c as int - 'A' as int + 'a' as int) as char else c
  }

  function ToUpper(s: string): string {
    seq(|s|, i requires 0 <= i < |s| => UpperChar(s[i]))
  }

  function ToLower(s: string): string {
    seq(|s|, i requires 0 <= i < |s| => LowerChar(s[i]))
  }

  predicate EqualFold(a: string, b: string) {
    ToLower(a) == ToLower(b)
  }

  /** Case mapping never turns a space into something else or the reverse. */
  lemma ToUpperTrimmed(s: string)
    requires Trimmed(s)
    ensures Trimmed(ToUpper(s)) && (ToUpper(s) == "" <==> s == "")
    ensures EqualFold(s, ToUpper(s))
  {
    assert forall i | 0 <= i < |s| :: ToLower(ToUpper(s))[i] == LowerChar(UpperChar(s[i])) == LowerChar(s[i]);
    assert ToLower(ToUpper(s)) == ToLower(s);
  }

  // ---- Decimal numbers ---------------------------------------------------

  predicate IsDigit(c: char) { '0' <= c <= '9' }

  predicate AllDigits(s: string) { forall i | 0 <= i < |s| :: IsDigit(s[i]) }

  function DigitChar(d: nat): (c: char)
    requires d < 10
    ensures IsDigit(c) && DigitValue(c) == d
  {
    ('0' as int + d) as char
  }

  function DigitValue(c: char): (d: nat)
    requires IsDigit(c)
    ensures d < 10 && c == ('0' as int + d) as char
  {
    c as int - '0' as int
  }

  /** The number a run of digits denotes. */
  function DigitsValue(s: string): nat
    requires AllDigits(s)
  {
    if s == "" then 0 else 10 * DigitsValue(s[..|s| - 1]) + DigitValue(s[|s| - 1])
  }

  function FormatNat(n: nat): (s: string)
    ensures |s| >= 1 && AllDigits(s)
    ensures DigitsValue(s) == n
    ensures n > 0 ==> s[0] != '0'
  {
    if n < 10 then [DigitChar(n)]
    else
      var s := FormatNat(n / 10) + [DigitChar(n % 10)];
      assert s[..|s| - 1] == FormatNat(n / 10);
      s
  }

  const MAX_INT64: int := 0x7FFF_FFFF_FFFF_FFFF

  /** strconv.ParseInt(s, 10, 64): an optional sign, at least one digit, nothing else, in range. */
  function ParseInt64(s: string): (r: Option<int>)
    ensures r.Some? ==> -MAX_INT64 - 1 <= r.value <= MAX_INT64
  {
    var neg := s != "" && s[0] == '-';
    var digits := if s != "" && (s[0] == '-' || s[0] == '+') then s[1..] else s;
    if digits == "" || !AllDigits(digits) then None
    else
      var v: int := DigitsValue(digits);
      var v := if neg then 0 - v else v;
      if -MAX_INT64 - 1 <= v <= MAX_INT64 then Some(v) else None
  }

  /** Printing a non-negative int64 and parsing it again gives it back. */
  lemma ParseOfFormat(n: nat)
    requires n <= MAX_INT64
    ensures ParseInt64(FormatNat(n)) == Some(n)
  {
    assert IsDigit(FormatNat(n)[0]);
  }

  /** strconv.FormatInt(v, 10). */
  function FormatInt(v: int): (s: string)
    ensures s != ""
  {
    if v < 0 then "-" + FormatNat(0 - v) else FormatNat(v)
  }

  /** Two's-complement int64 arithmetic keeps a result modulo 2 to the 64th. */
  function Wrap64(v: int): (w: int)
    ensures -MAX_INT64 - 1 <= w <= MAX_INT64
    ensures -MAX_INT64 - 1 <= v <= MAX_INT64 ==> w == v
    ensures (v - w) % 0x1_0000_0000_0000_0000 == 0
  {
    (v + MAX_INT64 + 1) % 0x1_0000_0000_0000_0000 - MAX_INT64 - 1
  }

  // ---- The BINARY collation ----------------------------------------------

  /** Text order as SQLite's BINARY collation gives it on ASCII text. */
  predicate TextLess(a: string, b: string) {
    b != "" && (a == "" || a[0] < b[0] || (a[0] == b[0] && TextLess(a[1..], b[1..])))
  }

  predicate TextAtLeast(a: string, b: string) { !TextLess(a, b) }

  lemma {:induction false} TextLessPrefix(p: string, a: string, b: string)
    ensures TextLess(p + a, p + b) <==> TextLess(a, b)
  {
    if p == "" {
      assert p + a == a && p + b == b;
    } else {
      assert (p + a)[1..] == p[1..] + a && (p + b)[1..] == p[1..] + b;
      TextLessPrefix(p[1..], a, b);
    }
  }

  /** The first difference inside equally long prefixes decides. */
  lemma {:induction false} TextLessHead(p: string, q: string, a: string, b: string)
    requires |p| == |q| && p != q
    ensures TextLess(p + a, q + b) <==> TextLess(p, q)
  {
    assert (p + a)[1..] == p[1..] + a && (q + b)[1..] == q[1..] + b;
    if p[0] == q[0] {
      assert p == [p[0]] + p[1..] && q == [q[0]] + q[1..];
      TextLessHead(p[1..], q[1..], a, b);
    }
  }

  /** TextLess is a strict total order. */
  lemma {:induction false} TextLessTotal(a: string, b: string)
    ensures TextLess(a, b) || TextLess(b, a) || a == b
    ensures !(TextLess(a, b) && TextLess(b, a))
    ensures a == b ==> !TextLess(a, b)
  {
    if a != "" && b != "" && a[0] == b[0] {
      TextLessTotal(a[1..], b[1..]);
      assert a == [a[0]] + a[1..] && b == [b[0]] + b[1..];
    }
  }

  lemma {:induction false} TextLessTransitive(a: string, b: string, c: string)
    requires TextLess(a, b) && TextLess(b, c)
    ensures TextLess(a, c)
  {
    if a != "" && a[0] == b[0] == c[0] {
      TextLessTransitive(a[1..], b[1..], c[1..]);
    }
  }

  // ---- What the character functions mean -----------------------------------

  /** A small letter and its capital. */
  predicate CasePair(lower: char, upper: char) {
    'a' <= lower <= 'z' && 'A' <= upper <= 'Z' && lower as int - 'a' as int == upper as int - 'A' as int
  }

  predicate SameLetter(a: char, b: char) { a == b || CasePair(a, b) || CasePair(b, a) }

  lemma LowerMeans(a: char, b: char)
    ensures LowerChar(a) == LowerChar(b) <==> SameLetter(a, b)
  {
  }

  /** Texts agree up to case when they agree character by character, a capital counting as its small letter. */
  lemma EqualFoldMeans(a: string, b: string)
    ensures EqualFold(a, b) <==> |a| == |b| && forall i | 0 <= i < |a| :: SameLetter(a[i], b[i])
  {
    hide LowerChar, SameLetter;
    forall i | 0 <= i < |a| && i < |b| ensures ToLower(a)[i] == ToLower(b)[i] <==> SameLetter(a[i], b[i]) {
      LowerMeans(a[i], b[i]);
    }
    assert EqualFold(a, b) ==> |ToLower(a)| == |ToLower(b)|;
  }

  /** The capitals of a text. */
  lemma ToUpperMeans(s: string)
    ensures |ToUpper(s)| == |s|
    ensures forall i | 0 <= i < |s| :: if 'a' <= s[i] <= 'z' then CasePair(s[i], ToUpper(s)[i]) else ToUpper(s)[i] == s[i]
  {
  }

  /** White space among the ASCII characters: the five control characters for it, and the space. */
  lemma AsciiSpaces(c: char)
    requires c < '\U{80}'
    ensures IsSpace(c) <==> c as int in {9, 10, 11, 12, 13, 32}
  {
  }

  /** The length of a character in UTF-8. */
  lemma CharacterBytes(c: char)
    ensures ByteLen([c]) == if c as int < 0x80 then 1 else if c as int < 0x800 then 2 else if c as int < 0x10000 then 3 else 4
  {
    assert ByteLen([c][..0]) == 0;
  }
}

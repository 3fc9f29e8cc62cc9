/** Versions and revisions as they travel in headers, and role codes as they are stored in a column. */
module Headers {
  import opened Text

  // ---- Entity tags -------------------------------------------------------

  function FormatETag(version: int): string { "\"" + FormatInt(version) + "\"" }

  function TrimQuotesLeft(s: string): string {
    if s != "" && s[0] == '"' then TrimQuotesLeft(s[1..]) else s
  }

  function TrimQuotesRight(s: string): string {
    if s != "" && s[|s| - 1] == '"' then TrimQuotesRight(s[..|s| - 1]) else s
  }

  /** strings.Trim(s, "\""). */
  function TrimQuotes(s: string): string { TrimQuotesRight(TrimQuotesLeft(s)) }

  datatype Parsed = Value(value: int) | Missing | Malformed

  /** parseRequiredRevision: 0 is a revision, so a missing header is told apart from it. */
  function ParseRequiredRevision(raw: string): Parsed {
    var s := TrimQuotes(TrimSpace(raw));
    if s == "" then Missing
    else
      match ParseInt64(s)
      case None => Malformed
      case Some(v) => if v < 0 then Malformed else Value(v)
  }

  /** parseIfMatchValue: a row version is positive, and a missing header reads as 0. */
  function ParseIfMatchValue(raw: string): Parsed {
    var s := TrimQuotes(TrimSpace(raw));
    if s == "" then Value(0)
    else
      match ParseInt64(s)
      case None => Malformed
      case Some(v) => if v <= 0 then Malformed else Value(v)
  }

  lemma QuotesComeOff(digits: string)
    requires digits != "" && AllDigits(digits)
    ensures TrimQuotes(TrimSpace("\"" + digits + "\"")) == digits
  {
    hide TrimSpace;
    var s := "\"" + digits + "\"";
    assert s[0] == '"' && s[|s| - 1] == '"' && !IsSpace('"') by { QuoteIsNoSpace(); }
    assert Trimmed(s);
    assert s[1..] == digits + "\"";
    assert IsDigit(digits[0]) && IsDigit(digits[|digits| - 1]);
    assert TrimQuotesLeft(s) == TrimQuotesLeft(digits + "\"") == digits + "\"";
    assert (digits + "\"")[..|digits|] == digits;
    assert TrimQuotesRight(digits + "\"") == TrimQuotesRight(digits) == digits;
  }

  lemma QuoteIsNoSpace()
    ensures !IsSpace('"')
  {
  }

  /** A tag the server sent comes back as the number it stands for; of the two readers only the one for
      revisions takes a 0 for a number. */
  lemma TagRoundTrip(n: nat)
    requires n <= MAX_INT64
    ensures ParseRequiredRevision(FormatETag(n)) == Value(n)
    ensures ParseIfMatchValue(FormatETag(n)) == (if n == 0 then Malformed else Value(n))
  {
    hide TrimSpace, ParseInt64, FormatNat, TrimQuotes;
    QuotesComeOff(FormatNat(n));
    ParseOfFormat(n);
  }

  // ---- Role codes --------------------------------------------------------

  function Cleaned(parts: seq<string>): seq<string> {
    if parts == [] then []
    else
      var n := |parts| - 1;
      var p := TrimSpace(parts[n]);
      Cleaned(parts[..n]) + (if p == "" then [] else [p])
  }

  /** splitRoleCodes; None is the absent list of an empty column. */
  method SplitRoleCodes(stored: string) returns (codes: Option<seq<string>>)
    ensures codes == if TrimSpace(stored) == "" then None else Some(Cleaned(Split(stored, ',')))
  {
    hide TrimSpace, Split;
    if TrimSpace(stored) == "" {
      return None;
    }
    var parts := Split(stored, ',');
    var out: seq<string> := [];
    for k := 0 to |parts|
      invariant out == Cleaned(parts[..k])
    {
      assert parts[..k + 1][..k] == parts[..k];
      var p := TrimSpace(parts[k]);
      if p != "" {
        out := out + [p];
      }
    }
    assert parts[..|parts|] == parts;
    return Some(out);
  }

  /** What is kept of a stored list: of each part that is not blank, what is left without its outer spaces. */
  lemma {:induction false} CleanedMeans(parts: seq<string>, code: string)
    ensures code in Cleaned(parts) <==> code != "" && exists p | p in parts :: TrimSpace(p) == code
  {
    hide TrimSpace;
    if parts != [] {
      var n := |parts| - 1;
      CleanedMeans(parts[..n], code);
      assert forall p :: p in parts <==> p in parts[..n] || p == parts[n];
    }
  }

  /** A role code: something, without outer spaces and without a comma. */
  predicate Code(s: string) { s != "" && Trimmed(s) && ',' !in s }

  lemma {:induction false} CleanedCodes(codes: seq<string>)
    requires forall i | 0 <= i < |codes| :: Code(codes[i])
    ensures Cleaned(codes) == codes
  {
    hide TrimSpace, Trimmed;
    if codes != [] {
      var n := |codes| - 1;
      CleanedCodes(codes[..n]);
      assert codes == codes[..n] + [codes[n]];
    }
  }

  /** The roles an event was recorded with are the roles it is shown with. */
  lemma RolesRoundTrip(codes: seq<string>)
    requires codes != [] && forall i | 0 <= i < |codes| :: Code(codes[i])
    ensures TrimSpace(Join(codes, ',')) != "" && Cleaned(Split(Join(codes, ','), ',')) == codes
  {
    hide Split;
    SplitOfJoin(codes, ',');
    CleanedCodes(codes);
    assert Join(codes, ',')[0] == codes[0][0];
  }

  lemma Unquoted(s: string)
    requires s != "" && (IsDigit(s[0]) || s[0] == '-') && IsDigit(s[|s| - 1])
    ensures TrimQuotes(TrimSpace(s)) == s
  {
    assert Trimmed(s);
  }

  /** Spaces around a tag do not matter. */
  lemma SpacedTags(pre: string, raw: string, post: string)
    requires Spaces(pre) && Spaces(post)
    ensures ParseRequiredRevision(pre + raw + post) == ParseRequiredRevision(raw)
    ensures ParseIfMatchValue(pre + raw + post) == ParseIfMatchValue(raw)
  {
    hide TrimSpace, TrimQuotes, ParseInt64;
    TrimOuter(pre, raw, post);
  }

  lemma ParseMinus(d: string, n: nat)
    requires AllDigits(d) && d != "" && DigitsValue(d) == n <= MAX_INT64
    ensures ParseInt64("-" + d) == Some(0 - n as int)
  {
    assert ("-" + d)[1..] == d;
  }

  lemma Nothing()
    ensures TrimQuotes(TrimSpace("")) == ""
  {
  }

  /** A tag is the number in quotes. Without them it is read alike; nothing at all is told apart from a number, and a
      negative one is refused. */
  lemma BareTags(n: nat)
    requires n <= MAX_INT64
    ensures FormatETag(n) == "\"" + FormatNat(n) + "\""
    ensures ParseRequiredRevision(FormatNat(n)) == Value(n)
    ensures ParseIfMatchValue(FormatNat(n)) == if n == 0 then Malformed else Value(n)
    ensures ParseRequiredRevision("") == Missing && ParseIfMatchValue("") == Value(0)
    ensures n > 0 ==> ParseRequiredRevision("-" + FormatNat(n)) == Malformed == ParseIfMatchValue("-" + FormatNat(n))
  {
    hide ParseInt64, FormatNat, TrimQuotes, TrimSpace, DigitsValue;
    ParseOfFormat(n);
    var d := FormatNat(n);
    assert IsDigit(d[0]) && IsDigit(d[|d| - 1]);
    Unquoted(d);
    Nothing();
    var s := "-" + d;
    assert s[0] == '-' && s[|s| - 1] == d[|d| - 1];
    Unquoted(s);
    ParseMinus(d, n);
  }
}

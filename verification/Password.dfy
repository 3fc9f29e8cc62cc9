/** The stored form of a password hash: the PHC string argon2id prints and reads back. */
module Password {
  import opened Text
  import B = Base64

  type Bytes = seq<B.Byte>

  const MAX_UINT32: nat := 0xFFFF_FFFF
  const MAX_UINT8: nat := 0xFF
  const VERSION: nat := 19

  datatype Params = Params(memory: nat, iterations: nat, parallelism: nat, saltLength: nat, keyLength: nat)

  /** The fields fit the widths the source declares for them. */
  predicate InRange(p: Params) {
    p.memory <= MAX_UINT32 && p.iterations <= MAX_UINT32 && p.parallelism <= MAX_UINT8 &&
    p.saltLength <= MAX_UINT32 && p.keyLength <= MAX_UINT32
  }

  /** argon2.IDKey as an unknown function of the peppered password, the salt and the parameters.
      The only thing used of it is the length of its result. */
  type Kdf = (Bytes, Bytes, Params) -> Bytes

  ghost predicate KeyHasLength(kdf: Kdf) {
    forall peppered, salt, p :: |kdf(peppered, salt, p)| == p.keyLength
  }

  datatype Decoded = Decoded(params: Params, salt: Bytes, hash: Bytes)

  function ApplyPepper(password: Bytes, pepper: Bytes): Bytes {
    if |pepper| == 0 then password else password + pepper
  }

  /** applyPepper: the buffer is the password with the pepper copied in behind it. */
  method Peppered(password: Bytes, pepper: Bytes) returns (out: array<B.Byte>)
    ensures fresh(out) && out[..] == ApplyPepper(password, pepper)
  {
    out := new B.Byte[|password| + |pepper|](_ => 0);
    for i := 0 to |password|
      invariant forall k | 0 <= k < i :: out[k] == password[k]
    {
      out[i] := password[i];
    }
    for i := 0 to |pepper|
      invariant forall k | 0 <= k < |password| :: out[k] == password[k]
      invariant forall k | 0 <= k < i :: out[|password| + k] == pepper[k]
    {
      out[|password| + i] := pepper[i];
    }
    CopiedBehind(out[..], password, pepper);
  }

  lemma CopiedBehind(out: Bytes, password: Bytes, pepper: Bytes)
    requires |out| == |password| + |pepper| && forall k | 0 <= k < |password| :: out[k] == password[k]
    requires forall k | 0 <= k < |pepper| :: out[|password| + k] == pepper[k]
    ensures out == ApplyPepper(password, pepper)
  {
    forall k | 0 <= k < |out| ensures out[k] == (password + pepper)[k] {
      if k >= |password| { assert out[|password| + (k - |password|)] == pepper[k - |password|]; }
    }
    assert out == password + pepper;
  }

  /** "m=%d,t=%d,p=%d" */
  function ParamText(p: Params): string {
    "m=" + FormatNat(p.memory) + ",t=" + FormatNat(p.iterations) + ",p=" + FormatNat(p.parallelism)
  }

  /** The fields between the dollar signs; the text starts with one, so the first is empty. */
  function Fields(p: Params, salt: Bytes, hash: Bytes): seq<string> {
    ["", "argon2id", "v=" + FormatNat(VERSION), ParamText(p), B.Encode(B.Std, salt), B.Encode(B.Std, hash)]
  }

  /** HashPassword, given the salt that was drawn. */
  function HashPassword(kdf: Kdf, password: Bytes, pepper: Bytes, params: Params, salt: Bytes): string {
    Join(Fields(params, salt, kdf(ApplyPepper(password, pepper), salt, params)), '$')
  }

  // ---- Reading -----------------------------------------------------------

  /** Space that Sscanf skips before a number: any but a line end. */
  function SkipBlanks(s: string): string {
    if s != "" && IsSpace(s[0]) && s[0] != '\n' then SkipBlanks(s[1..]) else s
  }

  function DigitPrefix(s: string): (n: nat)
    ensures n <= |s| && AllDigits(s[..n])
    ensures n < |s| ==> !IsDigit(s[n])
  {
    if s != "" && IsDigit(s[0]) then 1 + DigitPrefix(s[1..]) else 0
  }

  datatype Scan = Scanned(value: nat, rest: string) | Failed

  /** Sscanf's %d into an unsigned field no larger than max: digits, as many as there are. */
  function ScanNat(s: string, max: nat): Scan {
    var t := SkipBlanks(s);
    var n := DigitPrefix(t);
    if n == 0 || DigitsValue(t[..n]) > max then Failed else Scanned(DigitsValue(t[..n]), t[n..])
  }

  /** Literal text of the format that must come next. */
  function After(s: string, literal: string): Option<string> {
    if literal <= s then Some(s[|literal|..]) else None
  }

  /** Sscanf(s, literal + "%d") */
  function ScanField(s: string, literal: string, max: nat): Scan {
    match After(s, literal)
    case None => Failed
    case Some(rest) => ScanNat(rest, max)
  }

  /** Sscanf's %d into the signed version field; the number itself is not looked at again. */
  function ScanVersion(s: string): Scan {
    match After(s, "v=")
    case None => Failed
    case Some(rest) =>
      var t := SkipBlanks(rest);
      ScanNat(if t != "" && (t[0] == '-' || t[0] == '+') then t[1..] else t, MAX_INT64)
  }

  /** decodeHash. What Sscanf leaves unread is ignored, as is whatever stands before the first dollar sign. */
  function DecodeHash(text: string): Option<Decoded> {
    var parts := Split(text, '$');
    if |parts| != 6 || parts[1] != "argon2id" || ScanVersion(parts[2]).Failed? then None
    else
      var m := ScanField(parts[3], "m=", MAX_UINT32);
      if m.Failed? then None
      else
        var t := ScanField(m.rest, ",t=", MAX_UINT32);
        if t.Failed? then None
        else
          var p := ScanField(t.rest, ",p=", MAX_UINT8);
          var salt, hash := B.Decode(B.Std, parts[4]), B.Decode(B.Std, parts[5]);
          if p.Failed? || salt.None? || hash.None? then None
          else
            var wrap := MAX_UINT32 + 1;
            Some(Decoded(Params(m.value, t.value, p.value, |salt.value| % wrap, |hash.value| % wrap),
                         salt.value, hash.value))
  }

  function VerifyPassword(kdf: Kdf, password: Bytes, text: string, pepper: Bytes): Option<bool> {
    match DecodeHash(text)
    case None => None
    case Some(d) => Some(kdf(ApplyPepper(password, pepper), d.salt, d.params) == d.hash)
  }

  function NeedsRehash(text: string, desired: Params): Option<bool> {
    match DecodeHash(text)
    case None => None
    case Some(d) =>
      Some(d.params.memory != desired.memory || d.params.iterations != desired.iterations ||
           d.params.parallelism != desired.parallelism || d.params.keyLength != desired.keyLength)
  }

  // ---- Round trip --------------------------------------------------------

  lemma {:induction false} DigitPrefixOfDigits(d: string, rest: string)
    requires AllDigits(d) && (rest == "" || !IsDigit(rest[0]))
    ensures DigitPrefix(d + rest) == |d|
  {
    if d == "" {
      assert d + rest == rest;
    } else {
      assert (d + rest)[1..] == d[1..] + rest;
      DigitPrefixOfDigits(d[1..], rest);
    }
  }

  /** A printed number is scanned back up to the first character that is no digit. */
  lemma ScanOfFormat(literal: string, n: nat, max: nat, rest: string)
    requires n <= max && (rest == "" || !IsDigit(rest[0]))
    ensures ScanField(literal + FormatNat(n) + rest, literal, max) == Scanned(n, rest)
  {
    var d := FormatNat(n);
    var s := literal + d + rest;
    assert s[|literal|..] == d + rest;
    assert IsDigit((d + rest)[0]);
    DigitPrefixOfDigits(d, rest);
    assert (d + rest)[..|d|] == d && (d + rest)[|d|..] == rest;
  }

  lemma FormatHasNoDollar(n: nat)
    ensures '$' !in FormatNat(n)
  {
    assert !IsDigit('$');
  }

  lemma ParamTextScans(p: Params)
    requires InRange(p)
    ensures '$' !in ParamText(p)
    ensures var m := ScanField(ParamText(p), "m=", MAX_UINT32);
            m.Scanned? && m.value == p.memory &&
            var t := ScanField(m.rest, ",t=", MAX_UINT32);
            t.Scanned? && t.value == p.iterations &&
            ScanField(t.rest, ",p=", MAX_UINT8) == Scanned(p.parallelism, "")
  {
    hide ScanField, FormatNat;
    var r2 := ",p=" + FormatNat(p.parallelism);
    var r1 := ",t=" + FormatNat(p.iterations) + r2;
    assert ParamText(p) == "m=" + FormatNat(p.memory) + r1;
    assert r2 == ",p=" + FormatNat(p.parallelism) + "";
    ScanOfFormat("m=", p.memory, MAX_UINT32, r1);
    ScanOfFormat(",t=", p.iterations, MAX_UINT32, r2);
    ScanOfFormat(",p=", p.parallelism, MAX_UINT8, "");
    FormatHasNoDollar(p.memory);
    FormatHasNoDollar(p.iterations);
    FormatHasNoDollar(p.parallelism);
  }

  lemma VersionScans()
    ensures ScanVersion("v=" + FormatNat(VERSION)).Scanned? && '$' !in "v=" + FormatNat(VERSION)
  {
    var d := FormatNat(VERSION);
    FormatHasNoDollar(VERSION);
    assert ("v=" + d)[2..] == d && d + "" == d && IsDigit(d[0]);
    DigitPrefixOfDigits(d, "");
    assert d[..|d|] == d;
  }

  /** No field contains a dollar sign, so the six fields come apart where they were joined. */
  lemma FieldsSplit(p: Params, salt: Bytes, hash: Bytes)
    requires InRange(p)
    ensures Split(Join(Fields(p, salt, hash), '$'), '$') == Fields(p, salt, hash)
  {
    hide ScanVersion, ScanField, Split, Join, FormatNat, ParamText, B.Encode;
    VersionScans();
    ParamTextScans(p);
    SplitOfJoin(Fields(p, salt, hash), '$');
  }

  /** Decoding what was printed gives back the parameters, the salt and the hash. */
  lemma DecodeOfHash(kdf: Kdf, password: Bytes, pepper: Bytes, params: Params, salt: Bytes)
    requires InRange(params) && |salt| == params.saltLength && KeyHasLength(kdf)
    ensures DecodeHash(HashPassword(kdf, password, pepper, params, salt)) ==
            Some(Decoded(params, salt, kdf(ApplyPepper(password, pepper), salt, params)))
  {
    hide ScanVersion, ScanField, Split, Join, FormatNat, ParamText, B.Encode, B.Decode;
    var hash := kdf(ApplyPepper(password, pepper), salt, params);
    FieldsSplit(params, salt, hash);
    VersionScans();
    ParamTextScans(params);
    B.RoundTrip(B.Std, salt);
    B.RoundTrip(B.Std, hash);
  }

  /** A password is accepted against a hash of another exactly when both derive the same key;
      in particular the password just hashed is accepted. */
  lemma VerifyOfHash(kdf: Kdf, password: Bytes, other: Bytes, pepper: Bytes, params: Params, salt: Bytes)
    requires InRange(params) && |salt| == params.saltLength && KeyHasLength(kdf)
    ensures VerifyPassword(kdf, other, HashPassword(kdf, password, pepper, params, salt), pepper) ==
            Some(kdf(ApplyPepper(other, pepper), salt, params) == kdf(ApplyPepper(password, pepper), salt, params))
  {
    hide DecodeHash, HashPassword;
    DecodeOfHash(kdf, password, pepper, params, salt);
  }

  /** A hash needs renewing exactly when one of the four compared parameters differs: never for
      the parameters it was made with, and never for a longer salt alone. */
  lemma RehashOfHash(kdf: Kdf, password: Bytes, pepper: Bytes, params: Params, salt: Bytes, desired: Params)
    requires InRange(params) && |salt| == params.saltLength && KeyHasLength(kdf)
    ensures NeedsRehash(HashPassword(kdf, password, pepper, params, salt), desired) ==
            Some(params.(saltLength := desired.saltLength) != desired)
  {
    hide DecodeHash, HashPassword;
    DecodeOfHash(kdf, password, pepper, params, salt);
  }

  /** The stored text, as the PHC string format has it. */
  lemma StoredText(kdf: Kdf, password: Bytes, pepper: Bytes, params: Params, salt: Bytes)
    ensures HashPassword(kdf, password, pepper, params, salt) ==
            "$argon2id$v=19$" +
            ("m=" + FormatNat(params.memory) + ",t=" + FormatNat(params.iterations) + ",p=" +
             FormatNat(params.parallelism)) +
            "$" + B.Encode(B.Std, salt) + "$" + B.Encode(B.Std, kdf(password + pepper, salt, params))
  {
    hide FormatNat, B.Encode, Join;
    assert password + [] == password;
    var key := kdf(password + pepper, salt, params);
    assert FormatNat(VERSION) == "19" by { Nineteen(); }
    assert "v=" + "19" == "v=19";
    JoinSix("", "argon2id", "v=19", ParamText(params), B.Encode(B.Std, salt), B.Encode(B.Std, key));
    assert "" + "$" + "argon2id" + "$" + "v=19" + "$" == "$argon2id$v=19$";
  }

  lemma Nineteen()
    ensures FormatNat(19) == "19"
  {
  }

  lemma {:induction false} JoinLast(parts: seq<string>, last: string)
    requires |parts| >= 1
    ensures Join(parts + [last], '$') == Join(parts, '$') + "$" + last
  {
    if |parts| == 1 {
      assert (parts + [last])[1..] == [last];
    } else {
      assert (parts + [last])[1..] == parts[1..] + [last];
      JoinLast(parts[1..], last);
    }
  }

  lemma JoinSix(a: string, b: string, c: string, d: string, e: string, f: string)
    ensures Join([a, b, c, d, e, f], '$') == a + "$" + b + "$" + c + "$" + d + "$" + e + "$" + f
  {
    assert Join([a], '$') == a;
    hide Join;
    JoinLast([a], b);
    JoinLast([a, b], c);
    JoinLast([a, b, c], d);
    JoinLast([a, b, c, d], e);
    JoinLast([a, b, c, d, e], f);
    assert [a] + [b] == [a, b] && [a, b] + [c] == [a, b, c] && [a, b, c] + [d] == [a, b, c, d];
    assert [a, b, c, d] + [e] == [a, b, c, d, e] && [a, b, c, d, e] + [f] == [a, b, c, d, e, f];
  }

  // ---- Reading other texts ------------------------------------------------

  /** Spaces and tabs, which Sscanf skips before a number. */
  predicate Blanks(s: string) { forall i | 0 <= i < |s| :: IsSpace(s[i]) && s[i] != '\n' }

  lemma {:induction false} BlanksAreSkipped(blanks: string, n: nat, max: nat, rest: string)
    requires Blanks(blanks) && (rest == "" || !IsDigit(rest[0]))
    ensures ScanNat(blanks + FormatNat(n) + rest, max) == if n <= max then Scanned(n, rest) else Failed
  {
    var d := FormatNat(n);
    var s := blanks + d + rest;
    if blanks == "" {
      assert s == d + rest && !IsSpace(d[0]) && (d + rest)[0] == d[0];
      DigitPrefixOfDigits(d, rest);
      assert (d + rest)[..|d|] == d && (d + rest)[|d|..] == rest;
    } else {
      assert s[1..] == blanks[1..] + d + rest && s[0] == blanks[0];
      BlanksAreSkipped(blanks[1..], n, max, rest);
      assert SkipBlanks(s) == SkipBlanks(s[1..]);
    }
  }

  lemma NoBlanks(s: string)
    requires s != "" && !IsSpace(s[0])
    ensures SkipBlanks(s) == s
  {
    hide IsSpace;
  }

  /** The version may have a sign, and only has to be a number. */
  lemma VersionsRead(sign: string, n: nat)
    requires sign in {"", "+", "-"}
    ensures ScanVersion("v=" + sign + FormatNat(n)).Scanned? <==> n <= MAX_INT64
  {
    hide ScanNat, FormatNat, SkipBlanks;
    var d := FormatNat(n);
    var t := sign + d;
    assert ("v=" + sign + d)[2..] == t;
    assert IsDigit(d[0]);
    assert t[0] == if sign == "" then d[0] else sign[0];
    NoBlanks(t);
    BlanksAreSkipped("", n, MAX_INT64, "");
    assert "" + d + "" == d && t[|sign|..] == d;
  }

  /** Any text of the right fields is read, unless a number is too wide for the field it goes into; the lengths are those
      of what was decoded, as 32 bits hold them. */
  lemma ReadOfFields(p: Params, salt: Bytes, hash: Bytes)
    ensures DecodeHash(Join(Fields(p, salt, hash), '$')) ==
            if p.memory < 0x1_0000_0000 && p.iterations < 0x1_0000_0000 && p.parallelism < 256
            then Some(Decoded(Params(p.memory, p.iterations, p.parallelism, |salt| % 0x1_0000_0000, |hash| % 0x1_0000_0000),
                              salt, hash))
            else None
  {
    hide ScanVersion, ScanField, Split, Join, FormatNat, ParamText, B.Encode, B.Decode;
    NoDollars(p, salt, hash);
    SplitOfJoin(Fields(p, salt, hash), '$');
    VersionScans();
    NumbersScan(p);
    B.RoundTrip(B.Std, salt);
    B.RoundTrip(B.Std, hash);
  }

  lemma NoDollars(p: Params, salt: Bytes, hash: Bytes)
    ensures forall i | 0 <= i < 6 :: '$' !in Fields(p, salt, hash)[i]
  {
    hide FormatNat, B.Encode;
    VersionScans();
    FormatHasNoDollar(p.memory);
    FormatHasNoDollar(p.iterations);
    FormatHasNoDollar(p.parallelism);
  }

  lemma FieldScans(literal: string, n: nat, max: nat, rest: string)
    requires rest == "" || !IsDigit(rest[0])
    ensures ScanField(literal + FormatNat(n) + rest, literal, max) == if n <= max then Scanned(n, rest) else Failed
  {
    hide ScanNat, FormatNat;
    var s := literal + FormatNat(n) + rest;
    assert s[|literal|..] == "" + FormatNat(n) + rest;
    BlanksAreSkipped("", n, max, rest);
  }

  lemma NumbersScan(p: Params)
    ensures var m := ScanField(ParamText(p), "m=", MAX_UINT32);
            (m.Scanned? <==> p.memory <= MAX_UINT32) &&
            (m.Scanned? ==>
               m.value == p.memory &&
               var t := ScanField(m.rest, ",t=", MAX_UINT32);
               (t.Scanned? <==> p.iterations <= MAX_UINT32) &&
               (t.Scanned? ==>
                  t.value == p.iterations &&
                  ScanField(t.rest, ",p=", MAX_UINT8) == if p.parallelism <= MAX_UINT8 then Scanned(p.parallelism, "")
                                                         else Failed))
  {
    hide ScanField, FormatNat;
    var r2 := ",p=" + FormatNat(p.parallelism);
    var r1 := ",t=" + FormatNat(p.iterations) + r2;
    assert ParamText(p) == "m=" + FormatNat(p.memory) + r1;
    assert r2 == ",p=" + FormatNat(p.parallelism) + "";
    FieldScans("m=", p.memory, MAX_UINT32, r1);
    FieldScans(",t=", p.iterations, MAX_UINT32, r2);
    FieldScans(",p=", p.parallelism, MAX_UINT8, "");
  }

  /** Text with more or fewer fields, of another algorithm, or with a field that cannot be read is not taken for a hash. */
  lemma NotAHash(text: string)
    ensures DecodeHash(text).Some? ==>
              var parts := Split(text, '$');
              |parts| == 6 && parts[1] == "argon2id" && "v=" <= parts[2] && "m=" <= parts[3] &&
              B.Decode(B.Std, parts[4]) == Some(DecodeHash(text).value.salt) &&
              B.Decode(B.Std, parts[5]) == Some(DecodeHash(text).value.hash)
  {
    hide Split, ScanNat, B.Decode;
  }
}

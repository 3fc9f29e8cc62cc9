/** Go's base64.RawStdEncoding and base64.RawURLEncoding: sections 4 and 5 of RFC 4648, without padding. */
module Base64 {
  import opened Text

  type Byte = b: nat | b < 256

  datatype Alphabet = Std | Url

  function SextetChar(a: Alphabet, v: nat): (c: char)
    requires v < 64
    ensures CharSextet(a, c) == Some(v)
    ensures c != '$' && c != '\r' && c != '\n'
  {
    if v < 26 then ('A' as int + v) as char
    else if v < 52 then ('a' as int + v - 26) as char
    else if v < 62 then ('0' as int + v - 52) as char
    else if v == 62 then (if a.Std? then '+' else '-')
    else (if a.Std? then '/' else '_')
  }

  function CharSextet(a: Alphabet, c: char): (v: Option<nat>)
    ensures v.Some? ==> v.value < 64
  {
    if 'A' <= c <= 'Z' then Some(c as int - 'A' as int)
    else if 'a' <= c <= 'z' then Some(c as int - 'a' as int + 26)
    else if '0' <= c <= '9' then Some(c as int - '0' as int + 52)
    else if c == (if a.Std? then '+' else '-') then Some(62)
    else if c == (if a.Std? then '/' else '_') then Some(63)
    else None
  }

  /** The four sextets of three bytes; a short last group is padded with zero bytes. */
  function Sextets(b0: Byte, b1: Byte, b2: Byte): (v: (nat, nat, nat, nat))
    ensures v.0 < 64 && v.1 < 64 && v.2 < 64 && v.3 < 64
    ensures v.0 * 4 + v.1 / 16 == b0
    ensures v.1 % 16 * 16 + v.2 / 4 == b1
    ensures v.2 % 4 * 64 + v.3 == b2
  {
    (b0 / 4, b0 % 4 * 16 + b1 / 16, b1 % 16 * 4 + b2 / 64, b2 % 64)
  }

  function Group(a: Alphabet, b0: Byte, b1: Byte, b2: Byte): (s: string)
    ensures |s| == 4 && '$' !in s && '\r' !in s && '\n' !in s
  {
    var v := Sextets(b0, b1, b2);
    [SextetChar(a, v.0), SextetChar(a, v.1), SextetChar(a, v.2), SextetChar(a, v.3)]
  }

  function Encode(a: Alphabet, bs: seq<Byte>): (s: string)
    ensures '$' !in s && '\r' !in s && '\n' !in s
  {
    if |bs| == 0 then ""
    else if |bs| == 1 then Group(a, bs[0], 0, 0)[..2]
    else if |bs| == 2 then Group(a, bs[0], bs[1], 0)[..3]
    else Group(a, bs[0], bs[1], bs[2]) + Encode(a, bs[3..])
  }

  /** The bytes of two, three or four sextets. Bits beyond the last byte are ignored, as Go
      does outside Strict mode. */
  function GroupBytes(v: seq<nat>): (bs: seq<Byte>)
    requires 2 <= |v| <= 4
    requires forall i | 0 <= i < |v| :: v[i] < 64
    ensures |bs| == |v| - 1
  {
    [v[0] * 4 + v[1] / 16] +
    (if |v| > 2 then [v[1] % 16 * 16 + v[2] / 4] else []) +
    (if |v| > 3 then [v[2] % 4 * 64 + v[3]] else [])
  }

  /** The sextets of some characters, or nothing when one is outside the alphabet. */
  function CharSextets(a: Alphabet, s: string): (v: Option<seq<nat>>)
    ensures v.Some? ==> |v.value| == |s|
    ensures v.Some? ==> forall i | 0 <= i < |s| :: CharSextet(a, s[i]) == Some(v.value[i])
    ensures v.None? ==> exists i | 0 <= i < |s| :: CharSextet(a, s[i]).None?
  {
    if s == "" then Some([])
    else
      var head, tail := CharSextet(a, s[0]), CharSextets(a, s[1..]);
      if head.Some? && tail.Some? then Some([head.value] + tail.value) else None
  }

  /** Decoding group by group; a last group of one character is corrupt. */
  function DecodeGroups(a: Alphabet, s: string): (r: Option<seq<Byte>>) {
    if s == "" then Some([])
    else
      var n := if |s| < 4 then |s| else 4;
      var v := CharSextets(a, s[..n]);
      if n == 1 || v.None? then None
      else
        var rest := DecodeGroups(a, s[n..]);
        if rest.None? then None else Some(GroupBytes(v.value) + rest.value)
  }

  /** Encoding.DecodeString: line breaks are skipped wherever they stand. */
  function Decode(a: Alphabet, s: string): (r: Option<seq<Byte>>) {
    DecodeGroups(a, Remove(Remove(s, '\r'), '\n'))
  }

  lemma GroupSextets(a: Alphabet, b0: Byte, b1: Byte, b2: Byte, n: nat)
    requires 2 <= n <= 4
    ensures CharSextets(a, Group(a, b0, b1, b2)[..n]).Some?
    ensures GroupBytes(CharSextets(a, Group(a, b0, b1, b2)[..n]).value) == [b0, b1, b2][..n - 1]
  {
    var v := Sextets(b0, b1, b2);
    var s := Group(a, b0, b1, b2)[..n];
    var w := [v.0, v.1, v.2, v.3][..n];
    assert forall i | 0 <= i < n :: CharSextet(a, s[i]) == Some(w[i]);
    assert CharSextets(a, s).value == w;
  }

  lemma DecodeStep(a: Alphabet, g: string, rest: string, bs: seq<Byte>)
    requires |g| == 4 || (2 <= |g| < 4 && rest == "")
    requires CharSextets(a, g).Some? && DecodeGroups(a, rest) == Some(bs)
    ensures DecodeGroups(a, g + rest) == Some(GroupBytes(CharSextets(a, g).value) + bs)
  {
    var s, n := g + rest, |g|;
    assert s[..n] == g && s[n..] == rest;
  }

  lemma {:induction false} GroupsRoundTrip(a: Alphabet, bs: seq<Byte>)
    ensures DecodeGroups(a, Encode(a, bs)) == Some(bs)
  {
    hide Sextets, CharSextets, CharSextet, GroupBytes;
    if |bs| > 0 {
      hide DecodeGroups;
      var n := if |bs| < 3 then |bs| else 3;
      var b1, b2 := if n > 1 then bs[1] else 0, if n > 2 then bs[2] else 0;
      var g := Group(a, bs[0], b1, b2)[..n + 1];
      var rest := Encode(a, bs[n..]);
      GroupsRoundTrip(a, bs[n..]);
      GroupSextets(a, bs[0], b1, b2, n + 1);
      DecodeStep(a, g, rest, bs[n..]);
      assert Encode(a, bs) == g + rest;
      assert bs == [bs[0], b1, b2][..n] + bs[n..];
    }
  }

  /** Decoding what was encoded gives back the same bytes, for every byte string. */
  lemma RoundTrip(a: Alphabet, bs: seq<Byte>)
    ensures Decode(a, Encode(a, bs)) == Some(bs)
  {
    GroupsRoundTrip(a, bs);
  }

  /** The two alphabets of sections 4 and 5: the capitals, the small letters, the digits, and two more each. */
  lemma Alphabets(a: Alphabet, v: nat)
    requires v < 64
    ensures var c := SextetChar(a, v) as int;
            if v <= 25 then c == 'A' as int + v
            else if v <= 51 then c == 'a' as int + (v - 26)
            else if v <= 61 then c == '0' as int + (v - 52)
            else SextetChar(a, v) == (if a.Std? then "+/" else "-_")[v - 62]
  {
  }

  lemma GroupOf(b0: Byte, b1: Byte, b2: Byte, v: (nat, nat, nat, nat))
    requires v == (b0 / 4, b0 % 4 * 16 + b1 / 16, b1 % 16 * 4 + b2 / 64, b2 % 64)
    requires v.0 < 64 && v.1 < 64 && v.2 < 64 && v.3 < 64
    ensures Group(Std, b0, b1, b2) == [SextetChar(Std, v.0), SextetChar(Std, v.1), SextetChar(Std, v.2), SextetChar(Std, v.3)]
  {
    hide SextetChar;
  }

  lemma Groups()
    ensures Group(Std, 102, 0, 0)[..2] == "Zg" && Group(Std, 102, 111, 0)[..3] == "Zm8"
    ensures Group(Std, 102, 111, 111) == "Zm9v" && Group(Std, 98, 97, 114) == "YmFy"
  {
    hide Group;
    GroupOf(102, 0, 0, (25, 32, 0, 0));
    GroupOf(102, 111, 0, (25, 38, 60, 0));
    GroupOf(102, 111, 111, (25, 38, 61, 47));
    GroupOf(98, 97, 114, (24, 38, 5, 50));
  }

  lemma LongText(b0: Byte, b1: Byte, b2: Byte, rest: seq<Byte>)
    ensures Encode(Std, [b0, b1, b2] + rest) == Group(Std, b0, b1, b2) + Encode(Std, rest)
  {
    hide Group;
    assert ([b0, b1, b2] + rest)[3..] == rest;
  }

  lemma ShortTexts(b0: Byte, b1: Byte)
    ensures Encode(Std, []) == ""
    ensures Encode(Std, [b0]) == Group(Std, b0, 0, 0)[..2] && Encode(Std, [b0, b1]) == Group(Std, b0, b1, 0)[..3]
  {
    hide Group;
  }

  /** Test vectors of section 10 of RFC 4648, without their padding. */
  lemma Vectors()
    ensures Encode(Std, []) == "" && Encode(Std, [102]) == "Zg" && Encode(Std, [102, 111]) == "Zm8"
    ensures Encode(Std, [102, 111, 111]) == "Zm9v"
    ensures Encode(Std, [102, 111, 111, 98, 97, 114]) == "Zm9vYmFy"
  {
    hide Group, Encode;
    Groups();
    ShortTexts(102, 111);
    LongText(102, 111, 111, []);
    LongText(102, 111, 111, [98, 97, 114]);
    LongText(98, 97, 114, []);
    assert [102, 111, 111] + [] == [102, 111, 111] && [98, 97, 114] + [] == [98, 97, 114];
    assert [102, 111, 111] + [98, 97, 114] == [102, 111, 111, 98, 97, 114];
    assert "Zm9v" + "" == "Zm9v" && "YmFy" + "" == "YmFy" && "Zm9v" + "YmFy" == "Zm9vYmFy";
  }
}

/** Text woven of delimiters and values in turn, and when it can be taken apart in more than one way.
    Each delimiter begins with a bar and has no other. */
module Woven {

  predicate Delimiter(d: string) { d != "" && d[0] == '|' && '|' !in d[1..] }

  predicate Delimiters(ds: seq<string>) { forall i | 0 <= i < |ds| :: Delimiter(ds[i]) }

  function Weave(ds: seq<string>, vs: seq<string>): string
    requires |ds| == |vs|
  {
    if ds == [] then "" else ds[0] + vs[0] + Weave(ds[1..], vs[1..])
  }

  predicate At(s: string, d: string, i: nat) { i + |d| <= |s| && s[i..i + |d|] == d }

  /** The text occurs in s. */
  predicate Has(s: string, d: string) { exists i: nat | i <= |s| :: At(s, d, i) }

  /** A value contains its own delimiter, which the value before could end at, or the next one, which
      could end it. */
  predicate Ambiguous(ds: seq<string>, vs: seq<string>)
    requires |ds| == |vs|
  {
    exists j | 0 <= j < |ds| :: AmbiguousAt(ds, vs, j)
  }

  predicate AmbiguousAt(ds: seq<string>, vs: seq<string>, j: nat)
    requires j < |ds| == |vs|
  {
    (j > 0 && Has(vs[j], ds[j])) || (j + 1 < |ds| && Has(vs[j], ds[j + 1]))
  }

  // ---- Otherwise it can be taken apart in one way -------------------------

  lemma WeaveStarts(ds: seq<string>, vs: seq<string>)
    requires |ds| == |vs| && Delimiters(ds)
    ensures if ds == [] then Weave(ds, vs) == "" else At(Weave(ds, vs), ds[0], 0) && Weave(ds, vs)[0] == '|'
  {
  }

  lemma OneBar(d: string, k: nat)
    requires Delimiter(d) && 1 <= k < |d|
    ensures d[k] != '|'
  {
    assert d[1..][k - 1] == d[k];
  }

  /** A delimiter that begins inside a value, where a bar or nothing follows the value, lies inside it. */
  lemma Inside(v: string, rest: string, d: string, i: nat)
    requires Delimiter(d) && (rest == "" || rest[0] == '|') && At(v + rest, d, i) && i < |v|
    ensures At(v, d, i)
  {
    var s := v + rest;
    if i + |d| > |v| {
      OneBar(d, |v| - i);
    } else {
      assert v[i..i + |d|] == s[i..i + |d|];
    }
  }

  /** A later occurrence of the first delimiter lies behind the first value, unless that contains it. */
  lemma LiesBehind(d: string, v: string, rest: string, pre: string, t: string) returns (between: string)
    requires Delimiter(d) && !Has(v, d) && (rest == "" || rest[0] == '|')
    requires pre != "" && At(t, d, 0) && d + v + rest == pre + t
    ensures rest == between + t
  {
    hide Has;
    var s := d + v + rest;
    assert s[|pre|] == '|' by { assert (pre + t)[|pre|] == t[0] && t[0..|d|][0] == t[0]; }
    assert forall k | 1 <= k < |d| :: s[k] == d[k] == d[1..][k - 1];
    assert |pre| >= |d|;
    var i := |pre| - |d|;
    assert v + rest == s[|d|..];
    assert (v + rest)[i..] == t;
    assert At(v + rest, d, i) by { assert (v + rest)[i..i + |d|] == t[0..|d|]; }
    NotInside(v, rest, d, i);
    between := rest[..i - |v|];
    assert rest == (v + rest)[|v|..] && rest[i - |v|..] == t;
  }

  lemma NotInside(v: string, rest: string, d: string, i: nat)
    requires Delimiter(d) && (rest == "" || rest[0] == '|') && At(v + rest, d, i) && !Has(v, d)
    ensures i >= |v|
  {
    if i < |v| {
      Inside(v, rest, d, i);
    }
  }

  /** Values that do not contain their own delimiters have no room for one value more. */
  lemma {:induction false} NoRoom(ds: seq<string>, vs: seq<string>, d: string, ws: seq<string>, pre: string)
    requires |ds| == |vs| == |ws| - 1 && Delimiters(ds) && Delimiter(d)
    requires forall j | 0 <= j < |ds| :: !Has(vs[j], ds[j])
    ensures Weave(ds, vs) != pre + Weave([d] + ds, ws)
  {
    hide Has;
    if Weave(ds, vs) == pre + Weave([d] + ds, ws) {
      assert ([d] + ds)[1..] == ds;
      var t := Weave(ds, ws[1..]);
      assert Weave([d] + ds, ws) == d + ws[0] + t;
      if ds != [] {
        var rest := Weave(ds[1..], vs[1..]);
        WeaveStarts(ds[1..], vs[1..]);
        WeaveStarts(ds, ws[1..]);
        assert ds[0] + vs[0] + rest == (pre + d + ws[0]) + t;
        var between := LiesBehind(ds[0], vs[0], rest, pre + d + ws[0], t);
        assert [ds[0]] + ds[1..] == ds;
        NoRoom(ds[1..], vs[1..], ds[0], ws[1..], between);
      }
    }
  }

  lemma Cancel(a: string, b: string, c: string)
    requires a + b == a + c
    ensures b == c
  {
    assert (a + b)[|a|..] == b && (a + c)[|a|..] == c;
  }

  lemma Heads(ds: seq<string>, vs: seq<string>, ws: seq<string>)
    requires |ds| == |vs| == |ws| && ds != [] && Weave(ds, vs) == Weave(ds, ws)
    ensures vs[0] + Weave(ds[1..], vs[1..]) == ws[0] + Weave(ds[1..], ws[1..])
  {
    hide Weave;
    WeaveStep(ds, vs);
    WeaveStep(ds, ws);
    var a, b := vs[0] + Weave(ds[1..], vs[1..]), ws[0] + Weave(ds[1..], ws[1..]);
    Cancel(ds[0], a, b);
  }

  lemma NotShorter(ds: seq<string>, vs: seq<string>, ws: seq<string>)
    requires |ds| == |vs| == |ws| && ds != [] && Delimiters(ds) && Weave(ds, vs) == Weave(ds, ws)
    requires !AmbiguousAt(ds, vs, 0)
    ensures |vs[0]| <= |ws[0]|
  {
    hide Has, Weave;
    var v, w, rest, other := vs[0], ws[0], Weave(ds[1..], vs[1..]), Weave(ds[1..], ws[1..]);
    Heads(ds, vs, ws);
    WeaveStarts(ds[1..], vs[1..]);
    WeaveStarts(ds[1..], ws[1..]);
    if |w| < |v| {
      assert (v + rest)[|w|..] == other;
      assert (v + rest)[|w|..|w| + |ds[1]|] == other[0..|ds[1]|];
      NotInside(v, rest, ds[1], |w|);
    }
  }

  lemma Surplus(v: string, rest: string, w: string, other: string)
    requires v + rest == w + other && |v| < |w|
    ensures rest == w[|v|..] + other
  {
    assert (v + rest)[|v|..] == rest && (w + other)[|v|..] == w[|v|..] + other;
  }

  lemma NotLonger(ds: seq<string>, vs: seq<string>, ws: seq<string>)
    requires |ds| == |vs| == |ws| && ds != [] && Delimiters(ds) && Weave(ds, vs) == Weave(ds, ws)
    requires forall j | 1 <= j < |ds| :: !Has(vs[j], ds[j])
    ensures |ws[0]| <= |vs[0]|
  {
    hide Has, Weave;
    var v, w, rest, other := vs[0], ws[0], Weave(ds[1..], vs[1..]), Weave(ds[1..], ws[1..]);
    Heads(ds, vs, ws);
    if |v| < |w| {
      Surplus(v, rest, w, other);
      NoLaterTail(ds[1..], vs[1..], ws[1..], w[|v|..]);
    }
  }

  /** What is woven is not also found further on, with values of its own. */
  lemma NoLaterTail(ds: seq<string>, vs: seq<string>, ws: seq<string>, pre: string)
    requires |ds| == |vs| == |ws| && Delimiters(ds) && pre != ""
    requires forall j | 0 <= j < |ds| :: !Has(vs[j], ds[j])
    ensures Weave(ds, vs) != pre + Weave(ds, ws)
  {
    hide Has, Weave;
    WeaveStarts(ds, vs);
    WeaveStarts(ds, ws);
    if ds != [] && Weave(ds, vs) == pre + Weave(ds, ws) {
      var last := Weave(ds[1..], vs[1..]);
      WeaveStarts(ds[1..], vs[1..]);
      WeaveStep(ds, vs);
      Regroup(ds[0], vs[0], last);
      var between := LiesBehind(ds[0], vs[0], last, pre, Weave(ds, ws));
      HeadAndTail(ds);
      NoRoom(ds[1..], vs[1..], ds[0], ws, between);
    }
  }

  lemma Regroup(a: string, b: string, c: string)
    ensures a + b + c == a + (b + c)
  {
  }

  lemma HeadAndTail(ds: seq<string>)
    requires ds != []
    ensures [ds[0]] + ds[1..] == ds
  {
  }

  lemma WeaveStep(ds: seq<string>, vs: seq<string>)
    requires |ds| == |vs| && ds != []
    ensures Weave(ds, vs) == ds[0] + (vs[0] + Weave(ds[1..], vs[1..]))
  {
    Regroup(ds[0], vs[0], Weave(ds[1..], vs[1..]));
  }

  /** Where no value is ambiguous the values can be read back. */
  lemma {:induction false} ReadBack(ds: seq<string>, vs: seq<string>, ws: seq<string>)
    requires |ds| == |vs| == |ws| && Delimiters(ds) && !Ambiguous(ds, vs) && Weave(ds, vs) == Weave(ds, ws)
    ensures vs == ws
  {
    hide Has, Weave;
    if ds != [] {
      var v, w, rest, other := vs[0], ws[0], Weave(ds[1..], vs[1..]), Weave(ds[1..], ws[1..]);
      assert forall j | 0 <= j < |ds| :: !AmbiguousAt(ds, vs, j);
      Heads(ds, vs, ws);
      NotShorter(ds, vs, ws);
      assert forall j | 1 <= j < |ds| :: AmbiguousAt(ds, vs, j) || !Has(vs[j], ds[j]);
      NotLonger(ds, vs, ws);
      assert v == (v + rest)[..|v|] && w == (w + other)[..|v|] && rest == (v + rest)[|v|..] && other == (w + other)[|v|..];
      forall j | 0 <= j < |ds[1..]| ensures !AmbiguousAt(ds[1..], vs[1..], j) {
        assert !AmbiguousAt(ds, vs, j + 1);
      }
      ReadBack(ds[1..], vs[1..], ws[1..]);
      assert vs == [v] + vs[1..] && ws == [w] + ws[1..];
    }
  }

  // ---- An ambiguous one can be taken apart in another ----------------------

  /** Moving text between two neighbours around their delimiter changes nothing. */
  lemma {:induction false} TextMoves(ds: seq<string>, vs: seq<string>, ws: seq<string>, j: nat)
    requires |ds| == |vs| == |ws| && j + 1 < |ds|
    requires forall k | 0 <= k < |ds| && k != j && k != j + 1 :: vs[k] == ws[k]
    requires vs[j] + ds[j + 1] + vs[j + 1] == ws[j] + ds[j + 1] + ws[j + 1]
    ensures Weave(ds, vs) == Weave(ds, ws)
  {
    if j == 0 {
      assert vs[2..] == ws[2..];
      assert vs[1..][1..] == vs[2..] && ws[1..][1..] == ws[2..] && ds[1..][1..] == ds[2..];
      var last := Weave(ds[2..], vs[2..]);
      assert Weave(ds, vs) == ds[0] + vs[0] + (ds[1] + vs[1] + last);
      assert Weave(ds, ws) == ds[0] + ws[0] + (ds[1] + ws[1] + last);
      assert ds[0] + vs[0] + (ds[1] + vs[1] + last) == ds[0] + (vs[0] + ds[1] + vs[1]) + last;
      assert ds[0] + ws[0] + (ds[1] + ws[1] + last) == ds[0] + (ws[0] + ds[1] + ws[1]) + last;
    } else {
      TextMoves(ds[1..], vs[1..], ws[1..], j - 1);
    }
  }

  lemma AnotherReading(ds: seq<string>, vs: seq<string>) returns (ws: seq<string>)
    requires |ds| == |vs| && Delimiters(ds) && Ambiguous(ds, vs)
    ensures |ws| == |vs| && ws != vs && Weave(ds, ws) == Weave(ds, vs)
  {
    hide Weave;
    var j :| 0 <= j < |ds| && AmbiguousAt(ds, vs, j);
    var v := vs[j];
    if j > 0 && Has(v, ds[j]) {
      var d := ds[j];
      var i: nat :| i <= |v| && At(v, d, i);
      var u, t := v[..i], v[i + |d|..];
      assert v == u + d + t;
      ws := vs[j - 1 := vs[j - 1] + d + u][j := t];
      assert vs[j - 1] + d + (u + d + t) == vs[j - 1] + d + u + d + t;
      TextMoves(ds, vs, ws, j - 1);
      assert |ws[j]| < |vs[j]|;
    } else {
      var d := ds[j + 1];
      var i: nat :| i <= |v| && At(v, d, i);
      var u, t := v[..i], v[i + |d|..];
      assert v == u + d + t;
      ws := vs[j := u][j + 1 := t + d + vs[j + 1]];
      assert (u + d + t) + d + vs[j + 1] == u + d + (t + d + vs[j + 1]);
      TextMoves(ds, vs, ws, j);
      assert |ws[j]| < |vs[j]|;
    }
  }

  /** What is woven can be read as other values behind the same delimiters if and only if it is ambiguous. */
  lemma OneReading(ds: seq<string>, vs: seq<string>)
    requires |ds| == |vs| && Delimiters(ds)
    ensures (exists ws: seq<string> :: |ws| == |vs| && ws != vs && Weave(ds, ws) == Weave(ds, vs)) <==> Ambiguous(ds, vs)
  {
    hide Ambiguous, Weave;
    if Ambiguous(ds, vs) {
      var ws := AnotherReading(ds, vs);
    } else {
      forall ws: seq<string> | |ws| == |vs| && Weave(ds, ws) == Weave(ds, vs) ensures ws == vs {
        ReadBack(ds, vs, ws);
      }
    }
  }

  /** There is a bar for each delimiter, and one more for each bar in a value. */
  lemma {:induction false} BarsOf(ds: seq<string>, vs: seq<string>)
    requires |ds| == |vs| && Delimiters(ds)
    ensures multiset(Weave(ds, vs))['|'] >= |ds|
    ensures (forall i | 0 <= i < |vs| :: '|' !in vs[i]) ==> multiset(Weave(ds, vs))['|'] == |ds|
  {
    if ds != [] {
      BarsOf(ds[1..], vs[1..]);
      var d := ds[0];
      assert d == [d[0]] + d[1..] && multiset(d[1..])['|'] == 0;
      assert '|' !in vs[0] ==> multiset(vs[0])['|'] == 0;
      assert (forall i | 0 <= i < |vs| :: '|' !in vs[i]) ==> forall i | 0 <= i < |vs[1..]| :: '|' !in vs[1..][i];
    }
  }

  /** The last delimiter and value can be read as more of the value before. */
  lemma {:induction false} LastSwallowed(ds: seq<string>, vs: seq<string>)
    requires |ds| == |vs| >= 2
    ensures var n := |ds| - 1;
            Weave(ds[..n], vs[..n][n - 1 := vs[n - 1] + ds[n] + vs[n]]) == Weave(ds, vs)
  {
    var n := |ds| - 1;
    var us := vs[..n][n - 1 := vs[n - 1] + ds[n] + vs[n]];
    if n == 1 {
      assert Weave(ds[1..], vs[1..]) == ds[1] + vs[1] + "";
      assert Weave(ds[..n], us) == ds[0] + (vs[0] + ds[1] + vs[1]) + "";
      assert ds[0] + (vs[0] + ds[1] + vs[1]) + "" == ds[0] + vs[0] + (ds[1] + vs[1] + "");
    } else {
      LastSwallowed(ds[1..], vs[1..]);
      assert ds[..n][1..] == ds[1..][..n - 1];
      assert us[1..] == vs[1..][..n - 1][n - 2 := vs[n - 1] + ds[n] + vs[n]];
    }
  }
}

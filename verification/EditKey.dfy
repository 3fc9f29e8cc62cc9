/** The key a resubmitted edit form reuses, so that sending the same form twice files one request. */
module EditKey {
  import opened Text
  import opened Tables
  import opened EditForm
  import opened Woven

  function Posted(post: Post, names: seq<string>): (r: seq<string>)
    ensures |r| == |names|
    ensures forall i | 0 <= i < |names| :: r[i] == names[i] + "=" + FormValue(post, names[i])
  {
    seq(|names|, i requires 0 <= i < |names| => names[i] + "=" + FormValue(post, names[i]))
  }

  function Parts(post: Post, person: Id, names: seq<string>): (r: seq<string>)
    ensures |r| == 4 + |names|
  {
    ["edit-" + FormatNat(person), FormValue(post, "display_name"), FormValue(post, "call_sign"), FormValue(post, "note")] +
    Posted(post, names)
  }

  /** The values of the form, joined by bars. */
  function Key(post: Post, person: Id, names: seq<string>): string { Join(Parts(post, person, names), '|') }

  lemma {:induction false} JoinLast(parts: seq<string>, last: string)
    requires |parts| >= 1
    ensures Join(parts + [last], '|') == Join(parts, '|') + "|" + last
  {
    if |parts| == 1 {
      assert (parts + [last])[1..] == [last];
    } else {
      assert (parts + [last])[1..] == parts[1..] + [last];
      JoinLast(parts[1..], last);
    }
  }

  // ---- The fields of a post ----------------------------------------------

  /** The inputs the form has one of per contact. */
  predicate PerContact(name: string) { "contact_" <= name || "share_" <= name }

  predicate Ascending(names: seq<string>) { forall i, j | 0 <= i < j < |names| :: TextLess(names[i], names[j]) }

  /** The posted contact and share fields in sorted order. */
  ghost predicate Lists(post: Post, names: seq<string>) {
    Ascending(names) && forall n :: n in names <==> n in post && PerContact(n)
  }

  /** The inputs of the rendered form are such fields, and neither a bar nor an equals sign is in their names. */
  lemma RenderedFields(id: Id)
    ensures forall n | n in {ContactField(id), ShareField(id)} :: PerContact(n) && '|' !in n && '=' !in n
  {
  }

  function Insert(name: string, names: seq<string>): (r: seq<string>)
    ensures |r| == |names| + 1 && forall n :: n in r <==> n == name || n in names
  {
    if names == [] || TextLess(name, names[0]) then [name] + names else [names[0]] + Insert(name, names[1..])
  }

  lemma {:induction false} InsertKeepsOrder(name: string, names: seq<string>)
    requires Ascending(names) && name !in names
    ensures Ascending(Insert(name, names))
  {
    hide TextLess;
    if names == [] || TextLess(name, names[0]) {
      forall i | 0 <= i < |names| ensures TextLess(name, names[i]) {
        if i > 0 { TextLessTransitive(name, names[0], names[i]); }
      }
    } else {
      TextLessTotal(name, names[0]);
      InsertKeepsOrder(name, names[1..]);
      var rest := Insert(name, names[1..]);
      forall i | 0 <= i < |rest| ensures TextLess(names[0], rest[i]) {
        assert rest[i] in rest;
        if rest[i] != name {
          var k :| 0 <= k < |names[1..]| && names[1..][k] == rest[i];
          assert names[k + 1] == rest[i];
        }
      }
    }
  }

  /** sort.Strings, on names that are all different. */
  function Sorted(names: seq<string>): (r: seq<string>)
    ensures |r| == |names| && forall n :: n in r <==> n in names
  {
    if names == [] then [] else Insert(names[0], Sorted(names[1..]))
  }

  predicate Distinct(names: seq<string>) { forall i, j | 0 <= i < j < |names| :: names[i] != names[j] }

  lemma {:induction false} SortedAscends(names: seq<string>)
    requires Distinct(names)
    ensures Ascending(Sorted(names))
  {
    hide TextLess;
    if names != [] {
      SortedAscends(names[1..]);
      InsertKeepsOrder(names[0], Sorted(names[1..]));
    }
  }

  lemma AscendingHead(a: seq<string>, b: seq<string>)
    requires Ascending(a) && Ascending(b) && a != [] && b != [] && a[0] in b && b[0] in a
    ensures a[0] == b[0]
    ensures a[0] !in a[1..]
  {
    hide TextLess;
    var i :| 0 <= i < |a| && a[i] == b[0];
    var j :| 0 <= j < |b| && b[j] == a[0];
    TextLessTotal(a[0], b[0]);
    forall k | 1 <= k < |a| ensures a[k] != a[0] {
      TextLessTotal(a[0], a[k]);
    }
  }

  /** There is one such list, so walking the posted fields in another order gives the same key. */
  lemma {:induction false} ListedOnce(a: seq<string>, b: seq<string>)
    requires Ascending(a) && Ascending(b) && forall n :: n in a <==> n in b
    ensures a == b
  {
    hide TextLess;
    assert |b| > 0 ==> b[0] in b && b[0] in a;
    if a == [] {
    } else {
      assert a[0] in a && a[0] in b;
      AscendingHead(a, b);
      AscendingHead(b, a);
      assert forall n :: n in a[1..] <==> n in a && n != a[0];
      assert forall n :: n in b[1..] <==> n in b && n != b[0];
      ListedOnce(a[1..], b[1..]);
      assert a == [a[0]] + a[1..] && b == [b[0]] + b[1..];
    }
  }

  /** The posted contact and share fields, collected in whatever order they come and then sorted. */
  method ContactFields(post: Post) returns (names: seq<string>)
    ensures Lists(post, names)
  {
    hide Ascending, TextLess, Sorted;
    var left, found := post.Keys, [];
    while left != {}
      invariant forall n :: n in found <==> n in post && n !in left && PerContact(n)
      invariant left <= post.Keys && Distinct(found)
      decreases left
    {
      var name :| name in left;
      if PerContact(name) {
        found := found + [name];
      }
      left := left - {name};
    }
    SortedAscends(found);
    names := Sorted(found);
  }

  /** memberEditIdempotencyKey. */
  method MemberEditKey(post: Post, person: Id) returns (key: string, ghost names: seq<string>)
    ensures Lists(post, names) && key == Key(post, person, names)
  {
    hide FormatNat, FormValue, Join, Lists;
    key := "edit-" + FormatNat(person);
    var listed := ContactFields(post);
    names := listed;
    ghost var parts := [key];
    assert Join(parts, '|') == key by { JoinOne(key); }
    var fields := ["display_name", "call_sign", "note"];
    for k := 0 to 3
      invariant parts == Parts(post, person, names)[..k + 1] && key == Join(parts, '|')
    {
      JoinLast(parts, FormValue(post, fields[k]));
      key := key + "|" + FormValue(post, fields[k]);
      parts := parts + [FormValue(post, fields[k])];
    }
    for k := 0 to |listed|
      invariant parts == Parts(post, person, names)[..k + 4] && key == Join(parts, '|')
    {
      var part := listed[k] + "=" + FormValue(post, listed[k]);
      JoinLast(parts, part);
      key := key + "|" + part;
      parts := parts + [part];
    }
    assert parts == Parts(post, person, names);
  }

  lemma JoinOne(s: string)
    ensures Join([s], '|') == s
  {
  }

  predicate NoBar(parts: seq<string>) { forall i | 0 <= i < |parts| :: '|' !in parts[i] }

  /** As long as nothing that was posted contains a bar, two posts get the same key exactly when they
      are about the same record and say the same in every field. */
  lemma KeySeparates(a: Post, b: Post, p: Id, q: Id, names: seq<string>, others: seq<string>)
    requires NoBar(Parts(a, p, names)) && NoBar(Parts(b, q, others))
    requires forall n | n in names || n in others :: '=' !in n
    ensures Key(a, p, names) == Key(b, q, others) <==>
            p == q && names == others &&
            FormValue(a, "display_name") == FormValue(b, "display_name") &&
            FormValue(a, "call_sign") == FormValue(b, "call_sign") && FormValue(a, "note") == FormValue(b, "note") &&
            forall n | n in names :: FormValue(a, n) == FormValue(b, n)
  {
    hide FormatNat, FormValue, Join, CutAt;
    var x, y := Parts(a, p, names), Parts(b, q, others);
    SplitOfJoin(x, '|');
    SplitOfJoin(y, '|');
    assert Key(a, p, names) == Key(b, q, others) <==> x == y;
    if x == y {
      assert x[0] == y[0] && x[1] == y[1] && x[2] == y[2] && x[3] == y[3] && |names| == |others|;
      SameNumber(p, q);
      forall i | 0 <= i < |names| ensures names[i] == others[i] && FormValue(a, names[i]) == FormValue(b, others[i]) {
        assert x[4 + i] == Posted(a, names)[i] && y[4 + i] == Posted(b, others)[i];
        SameField(names[i], FormValue(a, names[i]), others[i], FormValue(b, others[i]));
      }
      forall n | n in names ensures FormValue(a, n) == FormValue(b, n) {
        var i :| 0 <= i < |names| && names[i] == n;
        assert FormValue(a, names[i]) == FormValue(b, others[i]);
      }
      assert names == others;
    } else if p == q && names == others && forall n | n in names :: FormValue(a, n) == FormValue(b, n) {
      assert Posted(a, names) == Posted(b, names);
    }
  }

  lemma SameNumber(p: Id, q: Id)
    ensures "edit-" + FormatNat(p) == "edit-" + FormatNat(q) ==> p == q
  {
    hide FormatNat;
    var a, b := "edit-" + FormatNat(p), "edit-" + FormatNat(q);
    assert a[5..] == FormatNat(p) && b[5..] == FormatNat(q);
  }

  lemma SameField(n: string, v: string, m: string, w: string)
    requires n + "=" + v == m + "=" + w && '=' !in n && '=' !in m
    ensures n == m && v == w
  {
    CutOfJoin(n, '=', v);
    CutOfJoin(m, '=', w);
  }

  // ---- When a key is shared ------------------------------------------------

  function Fields(names: seq<string>): (r: seq<string>) { ["display_name", "call_sign", "note"] + names }

  /** What stands in the key before each field's value. */
  function Delims(names: seq<string>): (ds: seq<string>)
    ensures |ds| == 3 + |names|
    ensures forall i | 0 <= i < |names| :: ds[3 + i] == "|" + names[i] + "="
  {
    ["|", "|", "|"] + seq(|names|, i requires 0 <= i < |names| => "|" + names[i] + "=")
  }

  function Values(post: Post, fields: seq<string>): (vs: seq<string>)
    ensures |vs| == |fields| && forall i | 0 <= i < |fields| :: vs[i] == FormValue(post, fields[i])
  {
    seq(|fields|, i requires 0 <= i < |fields| => FormValue(post, fields[i]))
  }

  predicate Barless(names: seq<string>) { forall n | n in names :: '|' !in n }

  lemma DelimsOk(names: seq<string>)
    requires Barless(names)
    ensures Delimiters(Delims(names))
  {
    var ds := Delims(names);
    forall i | 0 <= i < |ds| ensures Delimiter(ds[i]) {
      if i >= 3 {
        assert names[i - 3] in names;
        assert ds[i][1..] == names[i - 3] + "=";
      } else {
        assert ds[i] == "|";
      }
    }
  }

  lemma {:induction false} JoinIsWoven(parts: seq<string>, ds: seq<string>, vs: seq<string>)
    requires |parts| == |ds| + 1 == |vs| + 1
    requires forall i | 0 <= i < |ds| :: "|" + parts[i + 1] == ds[i] + vs[i]
    ensures Join(parts, '|') == parts[0] + Weave(ds, vs)
  {
    if ds == [] {
      assert parts[0] + "" == parts[0];
    } else {
      var rest := parts[1..];
      forall i | 0 <= i < |ds[1..]| ensures "|" + rest[i + 1] == ds[1..][i] + vs[1..][i] {
        assert "|" + parts[i + 2] == ds[i + 1] + vs[i + 1];
      }
      JoinIsWoven(rest, ds[1..], vs[1..]);
      var tail := Weave(ds[1..], vs[1..]);
      assert Join(parts, '|') == parts[0] + "|" + (parts[1] + tail);
      assert parts[0] + "|" + (parts[1] + tail) == parts[0] + (("|" + parts[1]) + tail);
    }
  }

  lemma KeyIsWoven(post: Post, person: Id, names: seq<string>)
    ensures Key(post, person, names) == "edit-" + FormatNat(person) + Weave(Delims(names), Values(post, Fields(names)))
  {
    hide FormatNat, FormValue, Join, Weave;
    var parts, ds, vs := Parts(post, person, names), Delims(names), Values(post, Fields(names));
    forall i | 0 <= i < |ds| ensures "|" + parts[i + 1] == ds[i] + vs[i] {
      if i >= 3 {
        assert parts[i + 1] == Posted(post, names)[i - 3] && Fields(names)[i] == names[i - 3];
        assert "|" + (names[i - 3] + "=" + vs[i]) == ("|" + names[i - 3] + "=") + vs[i];
      }
    }
    JoinIsWoven(parts, ds, vs);
  }

  /** Equal keys are about one record and the same woven values. */
  lemma KeysCompared(a: Post, p: Id, names: seq<string>, b: Post, q: Id, others: seq<string>)
    requires Barless(names) && Barless(others)
    ensures Key(a, p, names) == Key(b, q, others) <==>
            p == q && Weave(Delims(names), Values(a, Fields(names))) == Weave(Delims(others), Values(b, Fields(others)))
  {
    hide FormatNat, FormValue, Join, Weave, Key, CutAt;
    KeyIsWoven(a, p, names);
    KeyIsWoven(b, q, others);
    DelimsOk(names);
    DelimsOk(others);
    var x, y := Weave(Delims(names), Values(a, Fields(names))), Weave(Delims(others), Values(b, Fields(others)));
    WeaveStarts(Delims(names), Values(a, Fields(names)));
    WeaveStarts(Delims(others), Values(b, Fields(others)));
    var s, t := "edit-" + FormatNat(p), "edit-" + FormatNat(q);
    assert s + x == s + ['|'] + x[1..] && t + y == t + ['|'] + y[1..];
    CutOfJoin(s, '|', x[1..]);
    CutOfJoin(t, '|', y[1..]);
    SameNumber(p, q);
    if p == q && s + x == s + y {
      Cancel(s, x, y);
    }
  }

  /** A post that says one thing in each field, and nothing besides. */
  function PostOf(fields: seq<string>, vs: seq<string>): (post: Post)
    requires |fields| == |vs|
    ensures forall f :: f in post <==> f in fields
  {
    if fields == [] then map[] else PostOf(fields[1..], vs[1..])[fields[0] := vs[0]]
  }

  lemma {:induction false} PostSays(fields: seq<string>, vs: seq<string>)
    requires |fields| == |vs| && Distinct(fields)
    ensures Values(PostOf(fields, vs), fields) == vs
  {
    if fields != [] {
      PostSays(fields[1..], vs[1..]);
      var post, rest := PostOf(fields, vs), PostOf(fields[1..], vs[1..]);
      forall i | 0 <= i < |fields| ensures FormValue(post, fields[i]) == vs[i] {
        if i > 0 {
          assert Values(rest, fields[1..])[i - 1] == vs[1..][i - 1] && fields[1..][i - 1] == fields[i];
        }
      }
    }
  }

  lemma HeadsAreNot()
    ensures !PerContact("display_name") && !PerContact("call_sign") && !PerContact("note")
  {
    assert "contact_"[0] != "display_name"[0] && "contact_"[1] != "call_sign"[1] && "contact_"[0] != "note"[0];
    assert "share_"[0] != "display_name"[0] && "share_"[0] != "call_sign"[0] && "share_"[0] != "note"[0];
  }

  lemma FieldsDiffer(names: seq<string>)
    requires Ascending(names) && forall n | n in names :: PerContact(n)
    ensures Distinct(Fields(names))
  {
    hide TextLess, PerContact;
    var fields := Fields(names);
    HeadsAreNot();
    forall i, j | 0 <= i < j < |fields| ensures fields[i] != fields[j] {
      if i >= 3 {
        TextLessTotal(names[i - 3], names[j - 3]);
      } else if j >= 3 {
        assert fields[j] == names[j - 3] && names[j - 3] in names;
      }
    }
  }

  /** The form a post can be: the fields, in order, and no bar in their names. */
  ghost predicate Fielded(names: seq<string>) {
    Ascending(names) && Barless(names) && forall n | n in names :: PerContact(n)
  }

  lemma PostLists(names: seq<string>, vs: seq<string>)
    requires Fielded(names) && |vs| == |Fields(names)|
    ensures Lists(PostOf(Fields(names), vs), names) && Values(PostOf(Fields(names), vs), Fields(names)) == vs
  {
    hide PerContact, Ascending, PostOf;
    FieldsDiffer(names);
    PostSays(Fields(names), vs);
    var fields := Fields(names);
    HeadsAreNot();
    forall n ensures n in names <==> n in fields && PerContact(n) {
      if n in names {
        var i :| 0 <= i < |names| && names[i] == n;
        assert fields[3 + i] == n;
      }
    }
  }

  predicate HeadBar(post: Post) {
    '|' in FormValue(post, "display_name") || '|' in FormValue(post, "call_sign") || '|' in FormValue(post, "note")
  }

  /** A field contains the text that stands in the key before its own value or before the next one's. */
  predicate Mistakable(post: Post, names: seq<string>, i: nat)
    requires i < |names|
  {
    var v := FormValue(post, names[i]);
    Has(v, "|" + names[i] + "=") || (i + 1 < |names| && Has(v, "|" + names[i + 1] + "="))
  }

  predicate Mistaken(post: Post, names: seq<string>) {
    HeadBar(post) || exists i | 0 <= i < |names| :: Mistakable(post, names, i)
  }

  lemma HadBar(v: string, d: string)
    requires Delimiter(d) && Has(v, d)
    ensures '|' in v
  {
    var i: nat :| i <= |v| && At(v, d, i);
    assert v[i] == v[i..i + |d|][0];
  }

  lemma BarIsHad(v: string)
    ensures Has(v, "|") <==> '|' in v
  {
    if Has(v, "|") {
      HadBar(v, "|");
    }
    if i :| 0 <= i < |v| && v[i] == '|' {
      assert v[i..i + 1] == "|" && At(v, "|", i);
    }
  }

  lemma HeadIsAmbiguous(post: Post, names: seq<string>)
    requires Delimiters(Delims(names))
    ensures var ds, vs := Delims(names), Values(post, Fields(names));
            HeadBar(post) <==> AmbiguousAt(ds, vs, 0) || AmbiguousAt(ds, vs, 1) || AmbiguousAt(ds, vs, 2)
  {
    hide Has, FormValue, Delimiter;
    var ds, vs := Delims(names), Values(post, Fields(names));
    assert ds[0] == ds[1] == ds[2] == "|";
    assert vs[0] == FormValue(post, "display_name") && vs[1] == FormValue(post, "call_sign") &&
           vs[2] == FormValue(post, "note");
    BarIsHad(vs[0]);
    BarIsHad(vs[1]);
    BarIsHad(vs[2]);
    if |names| > 0 && Has(vs[2], ds[3]) {
      HadBar(vs[2], ds[3]);
    }
  }

  lemma FieldIsAmbiguous(post: Post, names: seq<string>, i: nat)
    requires i < |names|
    ensures Mistakable(post, names, i) <==> AmbiguousAt(Delims(names), Values(post, Fields(names)), 3 + i)
  {
    hide Has, FormValue;
    assert Fields(names)[3 + i] == names[i];
  }

  lemma MistakenIsAmbiguous(post: Post, names: seq<string>)
    requires Barless(names)
    ensures Mistaken(post, names) <==> Ambiguous(Delims(names), Values(post, Fields(names)))
  {
    hide FormValue, HeadBar, Mistakable, AmbiguousAt, Delims, Values, Fields, Delimiter;
    FieldCount(names);
    var ds, vs := Delims(names), Values(post, Fields(names));
    DelimsOk(names);
    HeadIsAmbiguous(post, names);
    forall i: nat | i < |names| ensures Mistakable(post, names, i) <==> AmbiguousAt(ds, vs, 3 + i) {
      FieldIsAmbiguous(post, names, i);
    }
    if j :| 3 <= j < |ds| && AmbiguousAt(ds, vs, j) {
      assert Mistakable(post, names, j - 3);
    }
  }

  ghost predicate Differ(a: Post, b: Post, names: seq<string>) {
    exists f | f in Fields(names) :: FormValue(a, f) != FormValue(b, f)
  }

  lemma DifferInValues(a: Post, b: Post, names: seq<string>)
    ensures Differ(a, b, names) <==> Values(a, Fields(names)) != Values(b, Fields(names))
  {
    hide FormValue;
    var fields := Fields(names);
    if f :| f in fields && FormValue(a, f) != FormValue(b, f) {
      var i :| 0 <= i < |fields| && fields[i] == f;
      assert Values(a, fields)[i] != Values(b, fields)[i];
    } else {
      assert forall i | 0 <= i < |fields| :: fields[i] in fields;
    }
  }

  /** Another post, with the same fields, has the key of this one. */
  ghost predicate Shares(a: Post, p: Id, names: seq<string>) {
    exists b: Post, q: Id :: Lists(b, names) && (q != p || Differ(a, b, names)) && Key(b, q, names) == Key(a, p, names)
  }

  /** Exactly which forms share their key with another one that has the same fields: those with a bar in
      the name, the call sign or the note, and those with a contact or share value that contains a bar
      followed by the name of its own field, or of the next one, and an equals sign. */
  lemma KeyShared(a: Post, p: Id, names: seq<string>)
    requires Lists(a, names) && Barless(names)
    ensures Shares(a, p, names) <==> Mistaken(a, names)
    ensures (forall n | n in names :: '|' !in FormValue(a, n)) ==> (Shares(a, p, names) <==> HeadBar(a))
  {
    hide FormValue, Weave, Key, Mistakable, HeadBar, Ascending, PerContact, Differ;
    var ds, vs := Delims(names), Values(a, Fields(names));
    DelimsOk(names);
    MistakenIsAmbiguous(a, names);
    if Mistaken(a, names) {
      var ws := AnotherReading(ds, vs);
      var b := PostOf(Fields(names), ws);
      PostLists(names, ws);
      DifferInValues(a, b, names);
      KeysCompared(b, p, names, a, p, names);
      assert Shares(a, p, names);
    } else {
      forall b: Post, q: Id | Lists(b, names) && Key(b, q, names) == Key(a, p, names)
        ensures q == p && !Differ(a, b, names)
      {
        KeysCompared(b, q, names, a, p, names);
        ReadBack(ds, vs, Values(b, Fields(names)));
        DifferInValues(a, b, names);
      }
    }
    if forall n | n in names :: '|' !in FormValue(a, n) {
      NoneMistakable(a, names);
    }
  }

  lemma NoneMistakable(a: Post, names: seq<string>)
    requires Barless(names) && forall n | n in names :: '|' !in FormValue(a, n)
    ensures forall i | 0 <= i < |names| :: !Mistakable(a, names, i)
  {
    hide Has, FormValue;
    DelimsOk(names);
    var ds := Delims(names);
    forall i | 0 <= i < |names| ensures !Mistakable(a, names, i) {
      var v := FormValue(a, names[i]);
      assert Delimiter(ds[3 + i]) && (i + 1 < |names| ==> Delimiter(ds[4 + i]));
      if Has(v, ds[3 + i]) {
        HadBar(v, ds[3 + i]);
      } else if i + 1 < |names| && Has(v, ds[4 + i]) {
        HadBar(v, ds[4 + i]);
      }
    }
  }

  /** Some other post, whatever its fields, has the key of this one. */
  ghost predicate SharesAnyhow(a: Post, p: Id, names: seq<string>) {
    exists b: Post, q: Id, others: seq<string> :: Lists(b, others) && Barless(others) &&
      (q != p || others != names || Differ(a, b, names)) && Key(b, q, others) == Key(a, p, names)
  }

  /** Posts with other fields count too: any form with a contact field then shares its key, with a post
      that says the same in one field fewer. */
  lemma KeySharedAnyhow(a: Post, p: Id, names: seq<string>)
    requires Lists(a, names) && Barless(names)
    ensures SharesAnyhow(a, p, names) <==> names != [] || HeadBar(a)
  {
    hide FormValue, Weave, Key, Mistakable, HeadBar, Ascending, PerContact, Differ;
    if names != [] {
      OneFieldFewer(a, p, names);
    } else if HeadBar(a) {
      KeyShared(a, p, names);
      var b: Post, q: Id :| Lists(b, names) && (q != p || Differ(a, b, names)) && Key(b, q, names) == Key(a, p, names);
      assert SharesAnyhow(a, p, names);
    } else {
      KeyShared(a, p, names);
      forall b: Post, q: Id, others: seq<string> |
        Lists(b, others) && Barless(others) && Key(b, q, others) == Key(a, p, names)
        ensures q == p && others == names && !Differ(a, b, names)
      {
        KeysCompared(b, q, others, a, p, names);
        NoMoreFields(a, b, others);
        assert others == [] && !Shares(a, p, names);
      }
    }
  }

  lemma FewerDelims(names: seq<string>)
    requires names != []
    ensures Delims(names[..|names| - 1]) == Delims(names)[..|names| + 2]
  {
  }

  lemma OneFieldFewer(a: Post, p: Id, names: seq<string>)
    requires Lists(a, names) && Barless(names) && names != []
    ensures SharesAnyhow(a, p, names)
  {
    hide FormValue, Weave, Key, PerContact, Differ, TextLess, Delims, Values, PostOf, Fields;
    var n := |names| + 2;
    assert |Fields(names)| == 3 + |names| by { FieldCount(names); }
    var ds, vs, others := Delims(names), Values(a, Fields(names)), names[..|names| - 1];
    FieldCount(others);
    LastSwallowed(ds, vs);
    var us := vs[..n][n - 1 := vs[n - 1] + ds[n] + vs[n]];
    FewerDelims(names);
    PostLists(others, us);
    var b := PostOf(Fields(others), us);
    KeysCompared(b, p, others, a, p, names);
    assert Lists(b, others) && Barless(others) && others != names && Key(b, p, others) == Key(a, p, names);
  }

  lemma FieldCount(names: seq<string>)
    ensures |Fields(names)| == 3 + |names|
  {
  }

  lemma NoMoreFields(a: Post, b: Post, others: seq<string>)
    requires !HeadBar(a) && Barless(others)
    requires Weave(Delims(others), Values(b, Fields(others))) == Weave(Delims([]), Values(a, Fields([])))
    ensures others == []
  {
    hide FormValue, Weave;
    DelimsOk(others);
    DelimsOk([]);
    var vs := Values(a, Fields([]));
    assert vs[0] == FormValue(a, "display_name") && vs[1] == FormValue(a, "call_sign") && vs[2] == FormValue(a, "note");
    BarsOf(Delims(others), Values(b, Fields(others)));
    BarsOf(Delims([]), vs);
  }

  /** For instance: a bar in the name is taken for the end of it. */
  lemma BarsCollide(person: Id, u: string, v: string, w: string)
    ensures var a: Post := map["display_name" := u + "|" + v, "call_sign" := w];
            var b: Post := map["display_name" := u, "call_sign" := v + "|" + w];
            Key(a, person, []) == Key(b, person, [])
  {
    hide FormatNat, Join;
    var a: Post := map["display_name" := u + "|" + v, "call_sign" := w];
    var b: Post := map["display_name" := u, "call_sign" := v + "|" + w];
    var id := "edit-" + FormatNat(person);
    assert Parts(a, person, []) == [id, u + "|" + v, w, ""];
    assert Parts(b, person, []) == [id, u, v + "|" + w, ""];
    JoinFour(id, u + "|" + v, w, "");
    JoinFour(id, u, v + "|" + w, "");
    assert id + "|" + (u + "|" + v) + "|" + w + "|" + "" == id + "|" + u + "|" + (v + "|" + w) + "|" + "";
  }

  lemma JoinFour(a: string, b: string, c: string, d: string)
    ensures Join([a, b, c, d], '|') == a + "|" + b + "|" + c + "|" + d
  {
    hide Join;
    JoinOne(a);
    JoinLast([a], b);
    JoinLast([a, b], c);
    JoinLast([a, b, c], d);
    assert [a] + [b] == [a, b] && [a, b] + [c] == [a, b, c] && [a, b, c] + [d] == [a, b, c, d];
  }
}

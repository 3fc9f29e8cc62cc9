/** Opaque offset cursors and the list endpoints that hand them out. */
module Paging {
  import opened Text
  import B = Base64

  datatype Result<+T> = Ok(value: T) | BadCursor

  // ---- Cursors -----------------------------------------------------------

  /** A Go string is a byte string: here, characters below 256. */
  predicate IsByteString(s: string) { forall i | 0 <= i < |s| :: s[i] < '\U{100}' }

  function BytesOf(s: string): seq<B.Byte>
    requires IsByteString(s)
  {
    seq(|s|, i requires 0 <= i < |s| => s[i] as int)
  }

  function StringOf(bs: seq<B.Byte>): string {
    seq(|bs|, i requires 0 <= i < |bs| => bs[i] as char)
  }

  function EncodeCursor(raw: string): string
    requires IsByteString(raw)
  {
    B.Encode(B.Url, BytesOf(raw))
  }

  function DecodeCursor(cursor: string): Result<string> {
    match B.Decode(B.Url, cursor)
    case None => BadCursor
    case Some(bs) => Ok(StringOf(bs))
  }

  /** DecodeCursor undoes EncodeCursor, for every raw value. */
  lemma CursorRoundTrip(raw: string)
    requires IsByteString(raw)
    ensures DecodeCursor(EncodeCursor(raw)) == Ok(raw)
  {
    B.RoundTrip(B.Url, BytesOf(raw));
    assert StringOf(BytesOf(raw)) == raw;
  }

  /** The cursor naming a row offset. */
  function OffsetCursor(offset: int): string
    requires IsByteString(FormatInt(offset))
  {
    EncodeCursor(FormatInt(offset))
  }

  /** decodeOffsetCursor and offsetFromCursor: nothing means the first row. */
  function OffsetFromCursor(cursor: string): (r: Result<int>)
    ensures r.Ok? ==> 0 <= r.value <= MAX_INT64
  {
    if cursor == "" then Ok(0)
    else
      match DecodeCursor(cursor)
      case BadCursor => BadCursor
      case Ok(raw) =>
        match ParseInt64(raw)
        case None => BadCursor
        case Some(v) => if v < 0 then BadCursor else Ok(v)
  }

  lemma DecimalIsByteString(v: int)
    ensures IsByteString(FormatInt(v))
  {
  }

  lemma OffsetCursorNotEmpty(v: int)
    requires IsByteString(FormatInt(v))
    ensures OffsetCursor(v) != ""
  {
    CursorRoundTrip(FormatInt(v));
    assert B.Decode(B.Url, "") == Some([]);
    assert FormatInt(v) != "";
  }

  /** Every non-negative offset comes back from its cursor; a negative one is refused. */
  lemma OffsetRoundTrip(offset: int)
    requires -MAX_INT64 - 1 <= offset <= MAX_INT64
    requires IsByteString(FormatInt(offset))
    ensures OffsetFromCursor(OffsetCursor(offset)) == if offset >= 0 then Ok(offset) else BadCursor
  {
    CursorRoundTrip(FormatInt(offset));
    OffsetCursorNotEmpty(offset);
    if offset >= 0 {
      ParseOfFormat(offset);
    } else {
      assert FormatInt(offset)[1..] == FormatNat(-offset);
    }
  }

  // ---- Pages -------------------------------------------------------------

  /** SELECT ... LIMIT n OFFSET off over an ordered result. */
  function Query<T>(rows: seq<T>, limit: nat, offset: nat): seq<T> {
    var from := if offset < |rows| then offset else |rows|;
    var to := if offset + limit < |rows| then offset + limit else |rows|;
    rows[from..to]
  }

  function Filter<T>(keep: T -> bool, rows: seq<T>): seq<T> {
    if rows == [] then []
    else (if keep(rows[0]) then [rows[0]] else []) + Filter(keep, rows[1..])
  }

  lemma {:induction false} FilterConcat<T>(keep: T -> bool, a: seq<T>, b: seq<T>)
    ensures Filter(keep, a + b) == Filter(keep, a) + Filter(keep, b)
  {
    if a == [] {
      assert a + b == b;
    } else {
      FilterConcat(keep, a[1..], b);
      assert (a + b)[1..] == a[1..] + b && (a + b)[0] == a[0];
      var head := if keep(a[0]) then [a[0]] else [];
      assert head + (Filter(keep, a[1..]) + Filter(keep, b)) == (head + Filter(keep, a[1..])) + Filter(keep, b);
    }
  }

  /** The rows kept are those asked for, as often as they occur; all of them if all are. */
  lemma {:induction false} FilterMeans<T>(keep: T -> bool, rows: seq<T>, x: T)
    ensures multiset(Filter(keep, rows))[x] == if keep(x) then multiset(rows)[x] else 0
  {
    if rows != [] {
      FilterMeans(keep, rows[1..], x);
      var head := if keep(rows[0]) then [rows[0]] else [];
      assert multiset(rows) == multiset([rows[0]]) + multiset(rows[1..]) by { assert rows == [rows[0]] + rows[1..]; }
      assert multiset(Filter(keep, rows)) == multiset(head) + multiset(Filter(keep, rows[1..]));
    }
  }

  lemma {:induction false} FilterAll<T>(keep: T -> bool, rows: seq<T>)
    requires forall x | x in rows :: keep(x)
    ensures Filter(keep, rows) == rows
  {
    if rows != [] {
      assert rows[0] in rows && forall x | x in rows[1..] :: x in rows;
      FilterAll(keep, rows[1..]);
      assert rows == [rows[0]] + rows[1..];
    }
  }

  /** How an endpoint knows there is another page: the page came back full (dues, coverage and
      rates), or one row more than the limit was fetched (audit events, import rows). */
  datatype Scheme = ShortPageEnds | OneExtraRow

  datatype Page<T> = Page(data: seq<T>, next: string)

  /** One list call. The row filter of the import endpoint runs after the page was cut. */
  function ListPage<T>(scheme: Scheme, keep: T -> bool, rows: seq<T>, limit: nat, cursor: string)
    : (r: Result<Page<T>>)
    requires 1 <= limit
  {
    match OffsetFromCursor(cursor)
    case BadCursor => BadCursor
    case Ok(offset) =>
      var fetched := Query(rows, if scheme.OneExtraRow? then limit + 1 else limit, offset);
      var more := if scheme.OneExtraRow? then |fetched| > limit else |fetched| >= limit;
      var shown := if |fetched| > limit then fetched[..limit] else fetched;
      DecimalIsByteString(Wrap64(offset + limit));
      Ok(Page(Filter(keep, shown), if more then OffsetCursor(Wrap64(offset + limit)) else ""))
  }

  /** Following next cursors from one cursor to the end, and everything that was shown. */
  function Walk<T>(scheme: Scheme, keep: T -> bool, rows: seq<T>, limit: nat, cursor: string)
    : (r: Result<seq<T>>)
    requires 1 <= limit && |rows| + limit <= MAX_INT64
    decreases match OffsetFromCursor(cursor) case BadCursor => 0 case Ok(o) => if o > |rows| then 0 else |rows| + 1 - o
  {
    match ListPage(scheme, keep, rows, limit, cursor)
    case BadCursor => BadCursor
    case Ok(page) =>
      if page.next == "" then Ok(page.data)
      else
        var offset := OffsetFromCursor(cursor).value;
        DecimalIsByteString(offset + limit);
        OffsetRoundTrip(offset + limit);
        match Walk(scheme, keep, rows, limit, page.next)
        case BadCursor => BadCursor
        case Ok(rest) => Ok(page.data + rest)
  }

  /** What one call shows, and whether it offers another: only while rows remain, except that a
      full last page of the short-page scheme offers one more, empty page. */
  lemma PageAt<T>(scheme: Scheme, keep: T -> bool, rows: seq<T>, limit: nat, cursor: string, offset: nat)
    returns (end: nat, more: bool)
    requires 1 <= limit && |rows| + limit <= MAX_INT64
    requires OffsetFromCursor(cursor) == Ok(offset) && offset <= |rows|
    ensures offset <= end <= |rows| && IsByteString(FormatInt(offset + limit))
    ensures more ==> end == offset + limit
    ensures !more ==> end == |rows|
    ensures ListPage(scheme, keep, rows, limit, cursor) ==
            Ok(Page(Filter(keep, rows[offset..end]), if more then OffsetCursor(offset + limit) else ""))
  {
    hide DecodeCursor, OffsetCursor, ParseInt64, FormatNat, Filter;
    end := if offset + limit < |rows| then offset + limit else |rows|;
    more := if scheme.OneExtraRow? then offset + limit < |rows| else offset + limit <= |rows|;
    var fetched := Query(rows, if scheme.OneExtraRow? then limit + 1 else limit, offset);
    DecimalIsByteString(offset + limit);
    assert (if |fetched| > limit then fetched[..limit] else fetched) == rows[offset..end];
  }

  /** Any page: the kept rows of its own stretch, which is empty beyond the end, and whether it offers another. */
  lemma PageShows<T>(scheme: Scheme, keep: T -> bool, rows: seq<T>, limit: nat, cursor: string, offset: nat)
    requires 1 <= limit && offset + limit <= MAX_INT64 && OffsetFromCursor(cursor) == Ok(offset)
    ensures ListPage(scheme, keep, rows, limit, cursor).Ok?
    ensures var page := ListPage(scheme, keep, rows, limit, cursor).value;
            (page.data == if |rows| <= offset then []
                          else if |rows| <= offset + limit then Filter(keep, rows[offset..])
                          else Filter(keep, rows[offset..offset + limit])) &&
            (page.next != "" <==> if scheme.OneExtraRow? then offset + limit < |rows| else offset + limit <= |rows|) &&
            (page.next != "" ==> OffsetFromCursor(page.next) == Ok(offset + limit))
  {
    hide DecodeCursor, OffsetCursor, OffsetFromCursor, ParseInt64, FormatNat, Filter, Query;
    DecimalIsByteString(offset + limit);
    OffsetRoundTrip(offset + limit);
    OffsetCursorNotEmpty(offset + limit);
    Stretch(rows, if scheme.OneExtraRow? then limit + 1 else limit, limit, offset);
    assert Filter(keep, []) == [] by { FilterAll(keep, []); }
  }

  lemma Stretch<T>(rows: seq<T>, fetch: nat, limit: nat, offset: nat)
    requires limit <= fetch
    ensures var fetched := Query(rows, fetch, offset);
            |fetched| == (if |rows| <= offset then 0 else if |rows| <= offset + fetch then |rows| - offset else fetch) &&
            (if |fetched| > limit then fetched[..limit] else fetched) ==
            (if |rows| <= offset then [] else if |rows| <= offset + limit then rows[offset..]
             else rows[offset..offset + limit])
  {
  }

  /** A walk from an offset's cursor shows the kept rows from that offset on. */
  lemma {:induction false} WalkFrom<T>(scheme: Scheme, keep: T -> bool, rows: seq<T>, limit: nat, cursor: string,
      offset: nat)
    requires 1 <= limit && |rows| + limit <= MAX_INT64
    requires OffsetFromCursor(cursor) == Ok(offset) && offset <= |rows|
    ensures Walk(scheme, keep, rows, limit, cursor) == Ok(Filter(keep, rows[offset..]))
    decreases |rows| - offset
  {
    hide DecodeCursor, OffsetCursor, OffsetFromCursor, ParseInt64, FormatNat, ListPage, Filter;
    var end, more := PageAt(scheme, keep, rows, limit, cursor, offset);
    var next := OffsetCursor(offset + limit);
    OffsetCursorNotEmpty(offset + limit);
    if !more {
      assert rows[offset..end] == rows[offset..];
    } else {
      OffsetRoundTrip(offset + limit);
      WalkFrom(scheme, keep, rows, limit, next, end);
      FilterConcat(keep, rows[offset..end], rows[end..]);
      assert rows[offset..] == rows[offset..end] + rows[end..];
    }
  }

  /** Paging is complete and exact: from the empty cursor, under both schemes and for every limit,
      the walk ends and the pages concatenate to the kept rows, each once and in order. */
  lemma WalkShowsEveryRowOnce<T>(scheme: Scheme, keep: T -> bool, rows: seq<T>, limit: nat)
    requires 1 <= limit && |rows| + limit <= MAX_INT64
    ensures Walk(scheme, keep, rows, limit, "") == Ok(Filter(keep, rows))
  {
    WalkFrom(scheme, keep, rows, limit, "", 0);
    assert rows[0..] == rows;
  }

  /** The import endpoint's loop: it stops at the limit and skips the rows not asked for. */
  method ImportPage<T>(rows: seq<T>, limit: nat, keep: T -> bool) returns (data: seq<T>)
    ensures data == Filter(keep, if |rows| > limit then rows[..limit] else rows)
  {
    data := [];
    var i := 0;
    while i < |rows|
      invariant 0 <= i <= |rows| && i <= limit
      invariant data == Filter(keep, rows[..i])
    {
      if i >= limit {
        break;
      }
      assert rows[..i + 1] == rows[..i] + [rows[i]];
      FilterConcat(keep, rows[..i], [rows[i]]);
      if keep(rows[i]) {
        data := data + [rows[i]];
      }
      i := i + 1;
    }
    assert i == |rows| ==> rows[..i] == rows;
  }
}

/** The embedded point store: rows in key order, upsert, cursor pagination and filtered scrolling. */
module EmbeddedStore {
  import opened Basics
  import opened Lex

  datatype PointId = Uuid(uuid: string) | Num(num: nat)

  /** String-valued payload fields; a field of another type reads as "". */
  type Payload = map<string, string>

  datatype Row = Row(key: string, kind: string, payload: Payload)

  datatype Point = Point(id: PointId, payload: Payload)

  const UINT32_MODULUS := 0x1_0000_0000
  const UINT64_MODULUS := 0x1_0000_0000_0000_0000

  /* ---- point ids ---- */

  function Decimal(n: nat): (s: string)
    ensures s != ""
  {
    if n < 10 then [Digit(n)] else Decimal(n / 10) + [Digit(n % 10)]
  }

  function EncodePointID(id: PointId): (string, string) {
    match id
    case Uuid(u) => (u, "uuid")
    case Num(n) => (Decimal(n), "num")
  }

  predicate IsDigit(c: char) {
    '0' <= c <= '9'
  }

  /** The number of leading digits, and their value, as scanning a decimal reads them. */
  function ScanDigits(s: string): (nat, nat) {
    if s == "" || !IsDigit(s[0]) then (0, 0) else ScanMore(s[1..], 1, s[0] as nat - '0' as nat)
  }

  function ScanMore(s: string, count: nat, value: nat): (nat, nat) {
    if s == "" || !IsDigit(s[0]) then (count, value) else ScanMore(s[1..], count + 1, 10 * value + (s[0] as nat - '0' as nat))
  }

  function DecodePointID(key: string, kind: string): Result<PointId> {
    if kind == "uuid" then Ok(Uuid(key))
    else if kind == "num" then
      var (count, value) := ScanDigits(key);
      if count == 0 || value >= UINT64_MODULUS then Err("decode num id") else Ok(Num(value))
    else Err("unknown point id kind")
  }

  lemma {:induction false} ScanAppend(s: string, count: nat, value: nat, d: nat)
    requires d < 10 && forall i | 0 <= i < |s| :: IsDigit(s[i])
    ensures ScanMore(s + [Digit(d)], count, value) == (ScanMore(s, count, value).0 + 1, 10 * ScanMore(s, count, value).1 + d)
  {
    var t := s + [Digit(d)];
    if s == "" {
      assert t[1..] == "";
    } else {
      assert t[1..] == s[1..] + [Digit(d)];
      ScanAppend(s[1..], count + 1, 10 * value + (s[0] as nat - '0' as nat), d);
    }
  }

  lemma {:induction false} ScanDecimal(n: nat)
    ensures forall i | 0 <= i < |Decimal(n)| :: IsDigit(Decimal(n)[i])
    ensures ScanDigits(Decimal(n)).0 > 0 && ScanDigits(Decimal(n)).1 == n
  {
    var s := Decimal(n);
    if n >= 10 {
      ScanDecimal(n / 10);
      var front := Decimal(n / 10);
      assert s[0] == front[0] && s[1..] == front[1..] + [Digit(n % 10)];
      ScanAppend(front[1..], 1, front[0] as nat - '0' as nat, n % 10);
    } else {
      assert s[1..] == "";
    }
  }

  /** GetUuid of a point id: "" for a numeric one. */
  function UuidOf(id: PointId): string {
    match id
    case Uuid(u) => u
    case Num(_) => ""
  }

  predicate Storable(id: PointId) {
    id.Num? ==> id.num < UINT64_MODULUS
  }

  /** Decoding undoes encoding. */
  lemma DecodeUndoesEncode(id: PointId)
    requires Storable(id)
    ensures DecodePointID(EncodePointID(id).0, EncodePointID(id).1) == Ok(id)
  {
    if id.Num? { ScanDecimal(id.num); }
  }

  /* ---- rows in key order ---- */

  ghost predicate Ascending(rows: seq<Row>) {
    forall i, j | 0 <= i < j < |rows| :: Less(rows[i].key, rows[j].key)
  }

  ghost predicate WrittenFor(row: Row, id: PointId) {
    Storable(id) && EncodePointID(id) == (row.key, row.kind)
  }

  ghost predicate Written(row: Row) {
    exists id :: WrittenFor(row, id)
  }

  /** Every row was written for some point id. */
  ghost predicate Decodable(rows: seq<Row>) {
    forall i | 0 <= i < |rows| :: Written(rows[i])
  }

  /** The rows with r put in its place, over a row of the same key. */
  function Put(rows: seq<Row>, r: Row): seq<Row> {
    if rows == [] then [r]
    else if rows[0].key == r.key then [r] + rows[1..]
    else if Less(r.key, rows[0].key) then [r] + rows
    else [rows[0]] + Put(rows[1..], r)
  }

  /** Putting a row keeps key order, stores it, and leaves the rows of all other keys. */
  lemma {:induction false} PutStores(rows: seq<Row>, r: Row)
    requires Ascending(rows)
    ensures Ascending(Put(rows, r))
    ensures forall x :: x in Put(rows, r) <==> x == r || (x in rows && x.key != r.key)
  {
    hide Less;
    if rows == [] {
    } else {
      var head, tail := rows[0], rows[1..];
      assert rows == [head] + tail;
      if head.key == r.key {
        LessIrreflexive(head.key);
      } else if Less(r.key, head.key) {
        LessAsymmetric(r.key, head.key);
        forall x | x in rows ensures Less(r.key, x.key) && x.key != r.key {
          if x != head { LessTransitive(r.key, head.key, x.key); }
          LessIrreflexive(r.key);
        }
        assert Put(rows, r) == [r] + rows;
      } else {
        LessTotal(head.key, r.key);
        PutStores(tail, r);
        var rest := Put(tail, r);
        forall j | 0 <= j < |rest| ensures Less(head.key, rest[j].key) {
          assert rest[j] in rest;
        }
        assert Put(rows, r) == [head] + rest;
      }
    }
  }

  /* ---- filters ---- */

  datatype Match = Keyword(keyword: string) | Text(text: string) | OtherMatch | NoMatch

  datatype Condition = Field(key: string, match_: Match) | OtherCondition

  function StringPayload(p: Payload, key: string): string {
    if key in p then p[key] else ""
  }

  predicate ConditionMatches(p: Payload, c: Condition) {
    match c
    case Field(key, Keyword(k)) => StringPayload(p, key) == k
    case Field(key, Text(t)) => StringPayload(p, key) == t
    case _ => true
  }

  /** A nil filter, and each condition of a shape the store does not know, lets everything through. */
  predicate FilterMatches(p: Payload, f: Option<seq<Condition>>) {
    f.Some? ==> forall i | 0 <= i < |f.value| :: ConditionMatches(p, f.value[i])
  }

  /** The rows behind key `after` that match f, in key order. */
  function Selected(rows: seq<Row>, after: string, f: Option<seq<Condition>>): seq<Row> {
    if rows == [] then []
    else
      var rest := Selected(rows[1..], after, f);
      if Less(after, rows[0].key) && FilterMatches(rows[0].payload, f) then [rows[0]] + rest else rest
  }

  /** The payload has the value that each keyword and text condition asks for; a field that is missing has none. */
  ghost predicate Passes(p: Payload, f: Option<seq<Condition>>) {
    f.Some? ==> forall c | c in f.value && c.Field? ::
      && (c.match_.Keyword? ==> c.match_.keyword == if c.key in p then p[c.key] else "")
      && (c.match_.Text? ==> c.match_.text == if c.key in p then p[c.key] else "")
  }

  /** all are the rows behind the key that pass the filter, in key order. */
  ghost predicate Behind(all: seq<Row>, rows: seq<Row>, after: string, f: Option<seq<Condition>>) {
    Ascending(all) && forall x :: x in all <==> x in rows && Less(after, x.key) && Passes(x.payload, f)
  }

  lemma PassesIff(p: Payload, f: Option<seq<Condition>>)
    ensures FilterMatches(p, f) <==> Passes(p, f)
  {
    if f.Some? && FilterMatches(p, f) {
      forall c | c in f.value ensures ConditionMatches(p, c) {
        var i :| 0 <= i < |f.value| && f.value[i] == c;
      }
    }
  }

  lemma {:induction false} SelectedAre(rows: seq<Row>, after: string, f: Option<seq<Condition>>)
    requires Ascending(rows)
    ensures Behind(Selected(rows, after, f), rows, after, f)
  {
    hide FilterMatches, Passes;
    forall x: Row ensures FilterMatches(x.payload, f) <==> Passes(x.payload, f) {
      PassesIff(x.payload, f);
    }
    if rows == [] {
    } else {
      SelectedAre(rows[1..], after, f);
      assert rows == [rows[0]] + rows[1..];
      var rest := Selected(rows[1..], after, f);
      forall j | 0 <= j < |rest| ensures Less(rows[0].key, rest[j].key) {
        assert rest[j] in rest;
      }
    }
  }

  lemma {:induction false} SelectedAllBehind(rows: seq<Row>, a: string, b: string, f: Option<seq<Condition>>)
    requires forall i | 0 <= i < |rows| :: Less(a, rows[i].key) && Less(b, rows[i].key)
    ensures Selected(rows, a, f) == Selected(rows, b, f)
  {
    if rows == [] {
    } else {
      SelectedAllBehind(rows[1..], a, b, f);
    }
  }

  /** Selecting puts the first row before the rest, or leaves it out. */
  lemma SelectedFirst(rows: seq<Row>, after: string, f: Option<seq<Condition>>)
    requires rows != []
    ensures Selected(rows, after, f) == Selected(rows[1..], after, f)
      || (Less(after, rows[0].key) && Selected(rows, after, f) == [rows[0]] + Selected(rows[1..], after, f))
  {
  }

  lemma TailAscends(rows: seq<Row>)
    requires Ascending(rows) && rows != []
    ensures Ascending(rows[1..])
  {
  }

  lemma SelectedIsRow(rows: seq<Row>, after: string, f: Option<seq<Condition>>, i: nat)
    requires Ascending(rows) && i < |Selected(rows, after, f)|
    ensures Selected(rows, after, f)[i] in rows
  {
    SelectedAre(rows, after, f);
    assert Selected(rows, after, f)[i] in Selected(rows, after, f);
  }

  /** Selecting from the key of a selected row on gives what followed it. */
  lemma {:induction false} SelectedFrom(rows: seq<Row>, after: string, f: Option<seq<Condition>>, i: nat)
    requires Ascending(rows) && i < |Selected(rows, after, f)|
    ensures Selected(rows, Selected(rows, after, f)[i].key, f) == Selected(rows, after, f)[i + 1..]
  {
    if rows == [] {
    } else {
      hide FilterMatches, Less, Selected, Ascending;
      var all, rest := Selected(rows, after, f), Selected(rows[1..], after, f);
      TailAscends(rows);
      SelectedFirst(rows, after, f);
      if all != rest && i == 0 {
        SelectedFromFirst(rows, after, f);
      } else {
        var k := if all == rest then i else i - 1;
        assert all[i] == rest[k] && all[i + 1..] == rest[k + 1..];
        SelectedFrom(rows[1..], after, f, k);
        SelectedIsRow(rows[1..], after, f, k);
        SelectedSkipsFirst(rows, rest[k], f);
      }
    }
  }

  lemma SelectedFromFirst(rows: seq<Row>, after: string, f: Option<seq<Condition>>)
    requires Ascending(rows) && rows != [] && Less(after, rows[0].key)
    ensures Selected(rows, rows[0].key, f) == Selected(rows[1..], after, f)
  {
    hide FilterMatches;
    LessIrreflexive(rows[0].key);
    SelectedBehindFirst(rows[1..], after, rows[0].key, f);
  }

  lemma SelectedSkipsFirst(rows: seq<Row>, x: Row, f: Option<seq<Condition>>)
    requires Ascending(rows) && rows != [] && x in rows[1..]
    ensures Selected(rows, x.key, f) == Selected(rows[1..], x.key, f)
  {
    hide Less, FilterMatches;
    assert Less(rows[0].key, x.key);
    LessAsymmetric(rows[0].key, x.key);
  }

  lemma SelectedBehindFirst(tail: seq<Row>, after: string, key: string, f: Option<seq<Condition>>)
    requires Less(after, key) && forall j | 0 <= j < |tail| :: Less(key, tail[j].key)
    ensures Selected(tail, key, f) == Selected(tail, after, f)
  {
    forall j | 0 <= j < |tail| ensures Less(after, tail[j].key) {
      LessTransitive(after, key, tail[j].key);
    }
    SelectedAllBehind(tail, key, after, f);
  }

  /* ---- pages ---- */

  /** The point id that a stored row was written for. */
  function IdOf(row: Row): PointId {
    match DecodePointID(row.key, row.kind)
    case Ok(id) => id
    case Err(_) => Uuid("")
  }

  lemma IdOfRow(rows: seq<Row>, i: nat)
    requires Decodable(rows) && i < |rows|
    ensures DecodePointID(rows[i].key, rows[i].kind) == Ok(IdOf(rows[i]))
    ensures EncodePointID(IdOf(rows[i])) == (rows[i].key, rows[i].kind)
  {
    assert Written(rows[i]);
    var id :| WrittenFor(rows[i], id);
    DecodeUndoesEncode(id);
  }

  function PointOf(row: Row): Point {
    Point(IdOf(row), row.payload)
  }

  ghost function Points(rows: seq<Row>): (r: seq<Point>)
    ensures |r| == |rows| && forall i | 0 <= i < |rows| :: r[i] == PointOf(rows[i])
  {
    seq(|rows|, i requires 0 <= i < |rows| => PointOf(rows[i]))
  }

  function PageSize(limit: nat): (n: nat)
    ensures n > 0 && (limit > 0 ==> n == limit)
  {
    if limit == 0 then 100 else limit
  }

  function TakeRows(rows: seq<Row>, n: nat): seq<Row> {
    if |rows| <= n then rows else rows[..n]
  }

  /** The points of the rows, or the error of the first row that does not decode. */
  ghost function DecodeAll(rows: seq<Row>): Result<seq<Point>> {
    if rows == [] then Ok([])
    else
      match DecodeAll(rows[..|rows| - 1])
      case Err(e) => Err(e)
      case Ok(points) =>
        var row := rows[|rows| - 1];
        match DecodePointID(row.key, row.kind)
        case Err(e) => Err(e)
        case Ok(id) => Ok(points + [Point(id, row.payload)])
  }

  lemma {:induction false} DecodeAllGivesPoints(rows: seq<Row>)
    ensures DecodeAll(rows).Ok? ==> DecodeAll(rows).value == Points(rows)
    ensures Decodable(rows) ==> DecodeAll(rows).Ok?
  {
    hide DecodePointID, EncodePointID;
    if rows == [] {
    } else {
      var m := |rows| - 1;
      DecodeAllGivesPoints(rows[..m]);
      assert rows == rows[..m] + [rows[m]];
      assert Points(rows) == Points(rows[..m]) + [PointOf(rows[m])];
      if Decodable(rows) { IdOfRow(rows, m); }
    }
  }

  /** An error among the first rows is the error of all. */
  lemma {:induction false} DecodeAllFails(rows: seq<Row>, n: nat)
    requires n <= |rows| && DecodeAll(rows[..n]).Err?
    ensures DecodeAll(rows) == DecodeAll(rows[..n])
    decreases |rows|
  {
    if n == |rows| {
      assert rows[..n] == rows;
    } else {
      assert rows[..|rows| - 1][..n] == rows[..n];
      DecodeAllFails(rows[..|rows| - 1], n);
    }
  }

  lemma DecodeAllNext(rows: seq<Row>, n: nat)
    requires n < |rows| && DecodeAll(rows[..n]).Ok?
    ensures DecodeAll(rows[..n + 1]) ==
      match DecodePointID(rows[n].key, rows[n].kind)
      case Err(e) => Err(e)
      case Ok(id) => Ok(DecodeAll(rows[..n]).value + [Point(id, rows[n].payload)])
  {
    assert rows[..n + 1][..n] == rows[..n] && rows[..n + 1][n] == rows[n];
  }

  /** The page behind `after`: one row more than the page size is read, and its presence means there is a next page. */
  ghost function Page(rows: seq<Row>, limit: nat, after: string): Result<(seq<Point>, Option<PointId>)> {
    var n := PageSize(limit);
    match DecodeAll(TakeRows(Selected(rows, after, None), n + 1))
    case Err(e) => Err(e)
    case Ok(points) => Ok(if |points| % UINT32_MODULUS > n then (points[..n], Some(points[n - 1].id)) else (points, None))
  }

  lemma PageOfDecodable(rows: seq<Row>, limit: nat, after: string)
    requires Decodable(rows)
    ensures var n := PageSize(limit);
      var taken := TakeRows(Selected(rows, after, None), n + 1);
      Page(rows, limit, after) ==
        Ok(if |taken| % UINT32_MODULUS > n then (Points(taken[..n]), Some(IdOf(taken[n - 1]))) else (Points(taken), None))
  {
    hide Selected, DecodeAll, Written;
    var n := PageSize(limit);
    var taken := TakeRows(Selected(rows, after, None), n + 1);
    SelectedDecodable(rows, after, None);
    DecodeAllGivesPoints(taken);
    if |taken| % UINT32_MODULUS > n { assert Points(taken)[..n] == Points(taken[..n]); }
  }

  lemma {:induction false} SelectedDecodable(rows: seq<Row>, after: string, f: Option<seq<Condition>>)
    requires Decodable(rows)
    ensures Decodable(Selected(rows, after, f))
  {
    if rows == [] {
    } else {
      hide Written;
      SelectedDecodable(rows[1..], after, f);
    }
  }

  /** All points that following `next` from behind `after` visits, in order. */
  ghost function Visits(rows: seq<Row>, limit: nat, after: string): seq<Point>
    requires Ascending(rows) && Decodable(rows)
    decreases |Selected(rows, after, None)|
  {
    PageOfDecodable(rows, limit, after);
    var (points, next) := Page(rows, limit, after).value;
    if next.None? then points
    else
      NextIsBehindPage(rows, limit, after);
      points + Visits(rows, limit, EncodePointID(next.value).0)
  }

  /** The cursor of a page leads to the rows right behind the page. */
  lemma NextIsBehindPage(rows: seq<Row>, limit: nat, after: string)
    requires Ascending(rows) && Decodable(rows)
    requires Page(rows, limit, after).Ok? && Page(rows, limit, after).value.1.Some?
    ensures var n, all := PageSize(limit), Selected(rows, after, None);
      && n < |all| && Page(rows, limit, after).value.0 == Points(all[..n])
      && Selected(rows, EncodePointID(Page(rows, limit, after).value.1.value).0, None) == all[n..]
  {
    hide Selected, Written, Ascending, DecodePointID, EncodePointID, DecodeAll, Page;
    PageOfDecodable(rows, limit, after);
    var n, all := PageSize(limit), Selected(rows, after, None);
    assert n < |TakeRows(all, n + 1)| && TakeRows(all, n + 1)[..n] == all[..n];
    SelectedDecodable(rows, after, None);
    IdOfRow(all, n - 1);
    SelectedFrom(rows, after, None, n - 1);
  }

  lemma {:induction false} VisitsAll(rows: seq<Row>, limit: nat, after: string)
    requires Ascending(rows) && Decodable(rows) && PageSize(limit) < UINT32_MODULUS - 1
    ensures Visits(rows, limit, after) == Points(Selected(rows, after, None))
    decreases |Selected(rows, after, None)|
  {
    hide Selected, Ascending, Written, EncodePointID, IdOf, Page, DecodeAll;
    var all, n := Selected(rows, after, None), PageSize(limit);
    PageOfDecodable(rows, limit, after);
    var next := Page(rows, limit, after).value.1;
    if next.Some? {
      NextIsBehindPage(rows, limit, after);
      VisitsAll(rows, limit, EncodePointID(next.value).0);
      assert Points(all) == Points(all[..n]) + Points(all[n..]);
    } else {
      assert TakeRows(all, n + 1) == all;
    }
  }

  /**
   * Following `next` from the start visits every point with a non-empty key exactly once, in key order, and stops, if and
   * only if the page size is not the largest 32-bit number, or there are too few points for the row count to wrap.
   */
  lemma ScrollVisitsEveryPoint(rows: seq<Row>, limit: nat)
    requires Ascending(rows) && Decodable(rows) && limit < UINT32_MODULUS
    ensures Visits(rows, limit, "") == Points(Selected(rows, "", None))
      <==> PageSize(limit) < UINT32_MODULUS - 1 || |Selected(rows, "", None)| <= UINT32_MODULUS
  {
    if PageSize(limit) < UINT32_MODULUS - 1 {
      VisitsAll(rows, limit, "");
    } else {
      WidestPageWraps(rows, limit, "");
    }
  }

  /** With the largest page size the row count wraps to 0 and no next page is ever announced. */
  lemma WidestPageWraps(rows: seq<Row>, limit: nat, after: string)
    requires Ascending(rows) && Decodable(rows) && limit == UINT32_MODULUS - 1
    ensures Visits(rows, limit, after) == Points(TakeRows(Selected(rows, after, None), UINT32_MODULUS))
    ensures |Visits(rows, limit, after)| == if |Selected(rows, after, None)| <= UINT32_MODULUS then |Selected(rows, after, None)| else UINT32_MODULUS
  {
    hide Selected, Page, Ascending, Written;
    PageOfDecodable(rows, limit, after);
    var taken := TakeRows(Selected(rows, after, None), UINT32_MODULUS);
    if |taken| == UINT32_MODULUS { assert |taken| % UINT32_MODULUS == 0; }
  }

  /* ---- a store that the widest page does not see whole ---- */

  /** The rows of `count` points numbered from `first` on, with empty payloads. */
  ghost function Numbered(first: nat, count: nat): (rows: seq<Row>)
    ensures |rows| == count && forall i | 0 <= i < count :: rows[i] == Row(Decimal(first + i), "num", map[])
  {
    seq(count, i requires 0 <= i => Row(Decimal(first + i), "num", map[]))
  }

  lemma {:induction false} DecimalOrder(a: nat, b: nat)
    requires a < b && |Decimal(a)| == |Decimal(b)|
    ensures Less(Decimal(a), Decimal(b))
  {
    if a >= 10 {
      var x, y := Decimal(a / 10), Decimal(b / 10);
      if a / 10 < b / 10 { DecimalOrder(a / 10, b / 10); }
      LessByField(x, y, [Digit(a % 10)], [Digit(b % 10)]);
    }
  }

  lemma {:induction false} DecimalLength(n: nat, w: nat)
    requires w > 0 && (w > 1 ==> Pow10(w - 1) <= n) && n < Pow10(w)
    ensures |Decimal(n)| == w
  {
    if w == 1 {
      assert Pow10(1) == 10 * Pow10(0);
    } else {
      assert Pow10(w - 1) == 10 * Pow10(w - 2);
      PowPositive(w - 2);
      DecimalLength(n / 10, w - 1);
    }
  }

  lemma {:induction false} PowPositive(w: nat)
    ensures Pow10(w) >= 1
  {
    if w == 0 {
    } else {
      PowPositive(w - 1);
    }
  }

  /** With numbers of one length, key order is number order. */
  lemma NumberedIsStored(first: nat, count: nat, w: nat)
    requires w > 1 && Pow10(w - 1) <= first && first + count <= Pow10(w) && first + count <= UINT64_MODULUS
    ensures Ascending(Numbered(first, count)) && Decodable(Numbered(first, count))
  {
    hide Less, Pow10;
    var rows := Numbered(first, count);
    forall i, j | 0 <= i < j < |rows| ensures Less(rows[i].key, rows[j].key) {
      DecimalLength(first + i, w);
      DecimalLength(first + j, w);
      DecimalOrder(first + i, first + j);
    }
    forall i | 0 <= i < |rows| ensures Written(rows[i]) {
      assert WrittenFor(rows[i], Num(first + i));
    }
  }

  lemma {:induction false} AllSelected(rows: seq<Row>)
    requires forall i | 0 <= i < |rows| :: rows[i].key != ""
    ensures Selected(rows, "", None) == rows
  {
    if rows == [] {
    } else {
      AllSelected(rows[1..]);
      assert rows == [rows[0]] + rows[1..];
    }
  }

  lemma TenToTheTen()
    ensures Pow10(10) == 10_000_000_000 && Pow10(11) == 100_000_000_000
  {
    assert Pow10(2) == 100 && Pow10(3) == 1000;
    assert Pow10(4) == 10_000 && Pow10(5) == 100_000;
    assert Pow10(6) == 1_000_000 && Pow10(7) == 10_000_000;
    assert Pow10(8) == 100_000_000 && Pow10(9) == 1_000_000_000;
  }

  /** With the largest page size, following the cursor through 2^32 + 1 points leaves the last one out. */
  lemma WidestPageMissesOne()
    ensures var rows := Numbered(10_000_000_000, UINT32_MODULUS + 1);
      && Ascending(rows) && Decodable(rows) && |Selected(rows, "", None)| == UINT32_MODULUS + 1
      && |Visits(rows, UINT32_MODULUS - 1, "")| == UINT32_MODULUS
  {
    hide Selected, Visits, Ascending, Decodable, Decimal;
    TenToTheTen();
    NumberedIsStored(10_000_000_000, UINT32_MODULUS + 1, 11);
    AllSelected(Numbered(10_000_000_000, UINT32_MODULUS + 1));
    WidestPageWraps(Numbered(10_000_000_000, UINT32_MODULUS + 1), UINT32_MODULUS - 1, "");
  }

  /** The point has the row's payload and the id that its key stands for. */
  ghost predicate ReadFrom(p: Point, row: Row) {
    DecodePointID(row.key, row.kind) == Ok(p.id) && p.payload == row.payload
  }

  /** One point for each of the first rows. */
  ghost predicate AllRead(points: seq<Point>, rows: seq<Row>) {
    |points| <= |rows| && forall i | 0 <= i < |points| :: ReadFrom(points[i], rows[i])
  }

  ghost predicate AllDecode(rows: seq<Row>) {
    forall i | 0 <= i < |rows| :: DecodePointID(rows[i].key, rows[i].kind).Ok?
  }

  lemma {:induction false} DecodeAllReads(rows: seq<Row>)
    ensures DecodeAll(rows).Ok? ==> |DecodeAll(rows).value| == |rows| && AllRead(DecodeAll(rows).value, rows)
    ensures DecodeAll(rows).Ok? <==> AllDecode(rows)
  {
    hide DecodePointID;
    if rows == [] {
    } else {
      DecodeAllReads(rows[..|rows| - 1]);
      assert forall i | 0 <= i < |rows| - 1 :: rows[i] == rows[..|rows| - 1][i];
    }
  }

  method DecodeRows(read: seq<Row>) returns (r: Result<seq<Point>>)
    ensures r == DecodeAll(read)
    ensures r.Ok? <==> AllDecode(read)
    ensures r.Ok? ==> |r.value| == |read| && AllRead(r.value, read)
  {
    hide DecodePointID, DecodeAll, AllRead, AllDecode;
    DecodeAllReads(read);
    var out: seq<Point> := [];
    NothingDecoded();
    for i := 0 to |read|
      invariant DecodeAll(read[..i]) == Ok(out)
    {
      DecodeAllNext(read, i);
      var id := DecodePointID(read[i].key, read[i].kind);
      if id.Err? {
        DecodeAllFails(read, i + 1);
        return Err(id.error);
      }
      out := out + [Point(id.value, read[i].payload)];
    }
    assert read[..|read|] == read;
    return Ok(out);
  }

  lemma NothingDecoded()
    ensures DecodeAll([]) == Ok([])
  {
  }

  /** Unless it failed: the first points behind the key, 100 of them by default, and the id of the last when there are more. */
  ghost predicate IsPage(r: Result<(seq<Point>, Option<PointId>)>, rows: seq<Row>, after: string, limit: nat) {
    r.Ok? ==>
      var (points, next) := r.value;
      var n := if limit == 0 then 100 else limit;
      exists all :: Behind(all, rows, after, None) && AllRead(points, all)
        && |points| == (if |all| > n then n else |all|) && next == if |all| > n then Some(points[n - 1].id) else None
  }

  lemma PageIs(rows: seq<Row>, limit: nat, after: string)
    requires Ascending(rows) && limit < UINT32_MODULUS - 1
    ensures IsPage(Page(rows, limit, after), rows, after, limit)
  {
    hide Selected, DecodeAll, Behind, ReadFrom, AllDecode;
    var page, all, n := Page(rows, limit, after), Selected(rows, after, None), if limit == 0 then 100 else limit;
    var read := DecodeAll(TakeRows(all, n + 1));
    SelectedAre(rows, after, None);
    DecodeAllReads(TakeRows(all, n + 1));
    if page.Ok? {
      assert |read.value| % UINT32_MODULUS == |read.value|;
      assert AllRead(page.value.0, all);
    }
  }

  /** The first points behind the key that pass the filter: `limit` of them when it is positive and there are more. */
  ghost predicate Passing(points: seq<Point>, rows: seq<Row>, after: string, f: Option<seq<Condition>>, limit: nat) {
    exists all :: Behind(all, rows, after, f) && AllRead(points, all) && |points| == if 0 < limit < |all| then limit else |all|
  }

  lemma AskedPass(rows: seq<Row>, after: string, f: Option<seq<Condition>>, limit: nat)
    requires Ascending(rows)
    ensures var r := DecodeAll(Asked(Selected(rows, after, f), limit)); r.Ok? ==> Passing(r.value, rows, after, f, limit)
  {
    hide Behind, DecodeAll, ReadFrom;
    SelectedAre(rows, after, f);
    var all := Selected(rows, after, f);
    DecodeAllReads(Asked(all, limit));
    var r := DecodeAll(Asked(all, limit));
    if r.Ok? { assert AllRead(r.value, all); }
  }

  class Store {
    var rows: seq<Row>

    ghost predicate Valid()
      reads this
    {
      Ascending(rows)
    }

    constructor ()
      ensures Valid() && rows == []
    {
      rows := [];
    }

    /** Writes all points in one transaction; a nil id fails it and leaves the rows as they were. */
    method Upsert(points: seq<(Option<PointId>, Payload)>) returns (ok: bool)
      requires Valid()
      requires forall i | 0 <= i < |points| && points[i].0.Some? :: Storable(points[i].0.value)
      modifies this
      ensures Valid() && (Decodable(old(rows)) ==> Decodable(rows))
      ensures ok <==> forall i | 0 <= i < |points| :: points[i].0.Some?
      ensures rows == if ok then PutAll(old(rows), points) else old(rows)
      ensures ok ==> forall x :: x in rows <==> KeptOrPut(old(rows), points, x)
    {
      PutAllStores(rows, points);
      PutAllDecodable(rows, points);
      hide *;
      var staged := rows;
      NothingPut(rows, points);
      for i := 0 to |points|
        invariant forall j | 0 <= j < i :: points[j].0.Some?
        invariant staged == PutAll(rows, points[..i]) && rows == old(rows)
      {
        if points[i].0.None? {
          return false;
        }
        PutAllNext(rows, points, i);
        var (key, kind) := EncodePointID(points[i].0.value);
        staged := Put(staged, Row(key, kind, points[i].1));
      }
      assert points[..|points|] == points;
      rows := staged;
      return true;
    }

    /** One page of points behind the offset, and the id to continue from. */
    method Scroll(limit: nat, offset: Option<PointId>) returns (r: Result<(seq<Point>, Option<PointId>)>)
      requires Valid() && limit < UINT32_MODULUS
      ensures r == Page(rows, limit, if offset.Some? then EncodePointID(offset.value).0 else "")
      ensures limit < UINT32_MODULUS - 1 ==> IsPage(r, rows, if offset.Some? then EncodePointID(offset.value).0 else "", limit)
    {
      hide Selected, Ascending, EncodePointID, DecodeAll, IsPage, AllRead, AllDecode;
      var after := "";
      if offset.Some? {
        after := EncodePointID(offset.value).0;
      }
      if limit < UINT32_MODULUS - 1 { PageIs(rows, limit, after); }
      var n := if limit == 0 then 100 else limit;
      var read := TakeRows(Selected(rows, after, None), n + 1);
      var decoded := DecodeRows(read);
      if decoded.Err? {
        return Err(decoded.error);
      }
      var out := decoded.value;
      var next := None;
      if |out| % UINT32_MODULUS > n {
        next := Some(out[n - 1].id);
        out := out[..n];
      }
      return Ok((out, next));
    }

    /** The matching points behind the offset, at most `limit` of them when it is positive. */
    method ScrollFiltered(filter: Option<seq<Condition>>, limit: nat, offset: string) returns (r: Result<seq<Point>>)
      requires Valid()
      ensures r == DecodeAll(Asked(Selected(rows, offset, filter), limit))
      ensures r.Ok? ==> Passing(r.value, rows, offset, filter, limit)
    {
      AskedPass(rows, offset, filter, limit);
      ghost var all := Selected(rows, offset, filter);
      var out: seq<Point> := [];
      var read := Selected(rows, offset, None);
      StartScan(rows, offset, filter, limit);
      hide *;
      for i := 0 to |read|
        invariant ReadSoFar(read, all, filter, limit, i, out)
      {
        if !FilterMatches(read[i].payload, filter) {
          ScanSkips(read, all, filter, limit, i, out);
          continue;
        }
        var id := DecodePointID(read[i].key, read[i].kind);
        ScanTakes(read, all, filter, limit, i, out);
        if id.Err? {
          return Err(id.error);
        }
        out := out + [Point(id.value, read[i].payload)];
        if limit > 0 && |out| >= limit {
          return Ok(out);
        }
      }
      ScanEnds(read, all, filter, limit, out);
      return Ok(out);
    }
  }

  /** The first i rows read have given out, and the limit is not reached; what still matches are the rest of all. */
  ghost predicate ReadSoFar(read: seq<Row>, all: seq<Row>, f: Option<seq<Condition>>, limit: nat, i: nat, out: seq<Point>) {
    && i <= |read| && |out| <= |all| && (limit > 0 ==> |out| < limit)
    && DecodeAll(all[..|out|]) == Ok(out) && Matching(read[i..], f) == all[|out|..]
  }

  lemma StartScan(rows: seq<Row>, after: string, f: Option<seq<Condition>>, limit: nat)
    ensures ReadSoFar(Selected(rows, after, None), Selected(rows, after, f), f, limit, 0, [])
  {
    hide Selected, DecodePointID, FilterMatches;
    var read, all := Selected(rows, after, None), Selected(rows, after, f);
    SelectedSplits(rows, after, f, read);
    assert read[0..] == read && all[0..] == all && all[..0] == [];
  }

  lemma ScanSkips(read: seq<Row>, all: seq<Row>, f: Option<seq<Condition>>, limit: nat, i: nat, out: seq<Point>)
    requires ReadSoFar(read, all, f, limit, i, out) && i < |read| && !FilterMatches(read[i].payload, f)
    ensures ReadSoFar(read, all, f, limit, i + 1, out)
  {
    hide FilterMatches, DecodeAll, Matching;
    MatchStep(all, read, f, i, |out|);
  }

  lemma ScanTakes(read: seq<Row>, all: seq<Row>, f: Option<seq<Condition>>, limit: nat, i: nat, out: seq<Point>)
    requires ReadSoFar(read, all, f, limit, i, out) && i < |read| && FilterMatches(read[i].payload, f)
    ensures match DecodePointID(read[i].key, read[i].kind)
      case Err(e) => DecodeAll(Asked(all, limit)) == Err(e)
      case Ok(id) =>
        var more := out + [Point(id, read[i].payload)];
        if limit > 0 && |more| >= limit then DecodeAll(Asked(all, limit)) == Ok(more)
        else ReadSoFar(read, all, f, limit, i + 1, more)
  {
    hide FilterMatches, DecodeAll, Matching, DecodePointID;
    var n := |out|;
    MatchStep(all, read, f, i, n);
    DecodeAllNext(all, n);
    PrefixAsked(all, limit, n + 1);
    if DecodePointID(read[i].key, read[i].kind).Err? { DecodeAllFails(Asked(all, limit), n + 1); }
  }

  lemma ScanEnds(read: seq<Row>, all: seq<Row>, f: Option<seq<Condition>>, limit: nat, out: seq<Point>)
    requires ReadSoFar(read, all, f, limit, |read|, out)
    ensures DecodeAll(Asked(all, limit)) == Ok(out)
  {
    hide DecodeAll;
    assert all[..|out|] == all;
    PrefixAsked(all, limit, |out|);
  }

  /** What a limit lets through; 0 is no limit. */
  function Asked(rows: seq<Row>, limit: nat): seq<Row> {
    if limit > 0 then TakeRows(rows, limit) else rows
  }

  lemma PrefixAsked(all: seq<Row>, limit: nat, n: nat)
    requires n <= |all| && (limit > 0 ==> n <= limit)
    ensures n <= |Asked(all, limit)| && Asked(all, limit)[..n] == all[..n]
    ensures limit > 0 && n == limit ==> Asked(all, limit) == all[..n]
  {
  }

  ghost function PutAll(rows: seq<Row>, points: seq<(Option<PointId>, Payload)>): seq<Row> {
    if points == [] then rows
    else
      var before, p := PutAll(rows, points[..|points| - 1]), points[|points| - 1];
      if p.0.Some? then
        var (key, kind) := EncodePointID(p.0.value);
        Put(before, Row(key, kind, p.1))
      else before
  }

  /** Point i is the last with its key, and x its row. */
  ghost predicate LastFor(points: seq<(Option<PointId>, Payload)>, i: int, x: Row) {
    && 0 <= i < |points| && points[i].0.Some? && EncodePointID(points[i].0.value) == (x.key, x.kind) && points[i].1 == x.payload
    && forall j | i < j < |points| && points[j].0.Some? :: EncodePointID(points[j].0.value).0 != x.key
  }

  /** The row of the last point with its key, or an old row whose key no point has. */
  ghost predicate KeptOrPut(rows: seq<Row>, points: seq<(Option<PointId>, Payload)>, x: Row) {
    || (exists i :: LastFor(points, i, x))
    || (x in rows && forall i | 0 <= i < |points| && points[i].0.Some? :: EncodePointID(points[i].0.value).0 != x.key)
  }

  lemma KeptOrPutNext(rows: seq<Row>, points: seq<(Option<PointId>, Payload)>, x: Row)
    requires points != []
    ensures var m := |points| - 1; var (id, payload) := points[m];
      KeptOrPut(rows, points, x) <==>
        || (id.Some? && EncodePointID(id.value) == (x.key, x.kind) && payload == x.payload)
        || (KeptOrPut(rows, points[..m], x) && (id.Some? ==> EncodePointID(id.value).0 != x.key))
  {
    hide EncodePointID;
    var m := |points| - 1;
    var (id, payload) := points[m];
    if KeptOrPut(rows, points[..m], x) && (id.Some? ==> EncodePointID(id.value).0 != x.key) {
      if i :| LastFor(points[..m], i, x) { assert LastFor(points, i, x); }
    }
    if id.Some? && EncodePointID(id.value) == (x.key, x.kind) && payload == x.payload { assert LastFor(points, m, x); }
    if i :| LastFor(points, i, x) {
      if i < m { assert LastFor(points[..m], i, x); }
    }
  }

  /** Of each key the last point is stored, with its payload; rows of other keys stay. */
  lemma {:induction false} PutAllStores(rows: seq<Row>, points: seq<(Option<PointId>, Payload)>)
    requires Ascending(rows)
    ensures Ascending(PutAll(rows, points))
    ensures forall x :: x in PutAll(rows, points) <==> KeptOrPut(rows, points, x)
  {
    hide Put, EncodePointID, Ascending;
    if points == [] {
    } else {
      hide KeptOrPut;
      var m := |points| - 1;
      PutAllStores(rows, points[..m]);
      forall x {
        KeptOrPutNext(rows, points, x);
      }
      if points[m].0.Some? {
        var (key, kind) := EncodePointID(points[m].0.value);
        PutStores(PutAll(rows, points[..m]), Row(key, kind, points[m].1));
      }
    }
  }

  lemma NothingPut(rows: seq<Row>, points: seq<(Option<PointId>, Payload)>)
    ensures PutAll(rows, points[..0]) == rows
  {
  }

  lemma PutAllNext(rows: seq<Row>, points: seq<(Option<PointId>, Payload)>, i: nat)
    requires i < |points| && points[i].0.Some?
    ensures var (key, kind) := EncodePointID(points[i].0.value);
      PutAll(rows, points[..i + 1]) == Put(PutAll(rows, points[..i]), Row(key, kind, points[i].1))
  {
    assert points[..i + 1][..i] == points[..i];
  }

  lemma {:induction false} PutAllDecodable(rows: seq<Row>, points: seq<(Option<PointId>, Payload)>)
    requires Ascending(rows) && forall i | 0 <= i < |points| && points[i].0.Some? :: Storable(points[i].0.value)
    ensures Decodable(rows) ==> Decodable(PutAll(rows, points))
  {
    hide Put, EncodePointID, Ascending, Decodable;
    if points == [] {
    } else {
      var m := |points| - 1;
      PutAllDecodable(rows, points[..m]);
      PutAllStores(rows, points[..m]);
      if Decodable(rows) && points[m].0.Some? {
        var (key, kind) := EncodePointID(points[m].0.value);
        PutDecodable(PutAll(rows, points[..m]), Row(key, kind, points[m].1), points[m].0.value);
      }
    }
  }

  lemma PutDecodable(rows: seq<Row>, r: Row, id: PointId)
    requires Ascending(rows) && Decodable(rows) && Storable(id) && EncodePointID(id) == (r.key, r.kind)
    ensures Decodable(Put(rows, r))
  {
    PutStores(rows, r);
    var after := Put(rows, r);
    assert WrittenFor(r, id);
    forall i | 0 <= i < |after| ensures Written(after[i]) {
      assert after[i] in after;
      if after[i] != r { var j :| 0 <= j < |rows| && rows[j] == after[i]; }
    }
  }

  /** The rows that match f, in order. */
  ghost function Matching(rows: seq<Row>, f: Option<seq<Condition>>): seq<Row> {
    if rows == [] then []
    else if FilterMatches(rows[0].payload, f) then [rows[0]] + Matching(rows[1..], f) else Matching(rows[1..], f)
  }

  lemma MatchStep(all: seq<Row>, read: seq<Row>, f: Option<seq<Condition>>, i: nat, n: nat)
    requires i < |read| && n <= |all| && Matching(read[i..], f) == all[n..]
    ensures if FilterMatches(read[i].payload, f)
      then n < |all| && all[n] == read[i] && Matching(read[i + 1..], f) == all[n + 1..]
      else Matching(read[i + 1..], f) == all[n..]
  {
    assert read[i..][1..] == read[i + 1..];
    if FilterMatches(read[i].payload, f) {
      assert all[n..] == [read[i]] + Matching(read[i + 1..], f);
      assert all[n..][1..] == all[n + 1..];
    }
  }

  /** Filtering what the key condition selected is selecting by both. */
  lemma {:induction false} SelectedSplits(rows: seq<Row>, after: string, f: Option<seq<Condition>>, read: seq<Row>)
    requires read == Selected(rows, after, None)
    ensures Matching(read, f) == Selected(rows, after, f)
  {
    if rows == [] {
    } else {
      SelectedSplits(rows[1..], after, f, Selected(rows[1..], after, None));
      if Less(after, rows[0].key) { assert read[1..] == Selected(rows[1..], after, None); }
    }
  }
}

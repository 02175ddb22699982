/** The data table's custom filtering (`update_table` in app_goFrames.py) and
    the age-range label (`update_ageRange`). A filter query is a list of
    clauses joined by ` && `; each recognised clause narrows the rows in turn. */
module TableFilter {
  import opened Wrappers
  import opened Text
  import opened FilterQuery
  import opened Settings

  /** A row of the medalist table: column name to cell (a number or a text). */
  type Row = map<string, Value>

  /** The table: its column names and its rows, in display order. */
  datatype Table = Table(columns: set<string>, rows: seq<Row>)

  const ComparisonWords: seq<string> := ["eq", "ne", "lt", "le", "gt", "ge"]

  /** The separator between clauses of a filter query. */
  const ClauseSeparator: string := " && "

  // ---------------------------------------------------------------------------
  // One clause against one row
  // ---------------------------------------------------------------------------

  /** pandas' `Series.<op>(v)` on one cell. Equality between a number and a text
      is false (and inequality true); ordering them is a TypeError. */
  function Compare(op: string, cell: Value, v: Value): (r: Result<bool>)
    requires op in ComparisonWords
    ensures r.Failure? <==> op != "eq" && op != "ne" && cell.Num? != v.Num?
    ensures r.Failure? ==> r.error == TypeError
  {
    match (cell, v)
    case (Num(a), Num(b)) =>
      Ok(if op == "eq" then a == b else if op == "ne" then a != b
         else if op == "lt" then a < b else if op == "le" then a <= b
         else if op == "gt" then a > b else a >= b)
    case (Str(a), Str(b)) =>
      Ok(if op == "eq" then a == b else if op == "ne" then a != b
         else if op == "lt" then Less(a, b) else if op == "le" then a == b || Less(a, b)
         else if op == "gt" then Less(b, a) else a == b || Less(b, a))
    case _ =>
      if op == "eq" then Ok(false) else if op == "ne" then Ok(true) else Failure(TypeError)
  }

  /** Whether the row is kept by the clause, or the error evaluating it raises.
      `contains` is a case-insensitive substring test and `datestartswith` a
      prefix test; both need a text cell and a text value. */
  function Holds(c: Clause, r: Row): (res: Result<bool>)
    ensures c.column !in r ==> res == Failure(KeyError)
    ensures res.Failure? ==> res.error == KeyError || res.error == TypeError
  {
    if c.column !in r then Failure(KeyError)
    else
      var cell := r[c.column];
      if c.op in ComparisonWords then Compare(c.op, cell, c.value)
      else if c.op == "contains" then
        match (cell, c.value)
        case (Str(a), Str(b)) => Ok(Occurs(Lower(a), Lower(b)))
        case _ => Failure(TypeError)
      else if c.op == "datestartswith" then
        match (cell, c.value)
        case (Str(a), Str(b)) => Ok(StartsWith(a, b))
        case _ => Failure(TypeError)
      else Ok(true)
  }

  /** The row passes the clause. */
  predicate Matches(c: Clause, r: Row) {
    Holds(c, r) == Ok(true)
  }

  // ---------------------------------------------------------------------------
  // One clause against the rows, then the whole query
  // ---------------------------------------------------------------------------

  /** `dff.loc[mask]`: the rows the clause keeps, in order, or the first error. */
  function KeepMatching(c: Clause, rows: seq<Row>): (r: Result<seq<Row>>)
    ensures r.Ok? ==> |r.value| <= |rows|
    ensures r.Failure? ==> r.error == KeyError || r.error == TypeError
  {
    if |rows| == 0 then Ok([])
    else match Holds(c, rows[0])
      case Failure(e) => Failure(e)
      case Ok(keep) =>
        match KeepMatching(c, rows[1..])
        case Failure(e) => Failure(e)
        case Ok(rest) => Ok(if keep then [rows[0]] + rest else rest)
  }

  /** One iteration of the loop of `update_table`: parse the clause, then, for a
      recognised one, look the column up and keep the matching rows. */
  function Step(columns: set<string>, rows: seq<Row>, part: string): (r: Result<seq<Row>>)
    ensures r.Ok? ==> |r.value| <= |rows|
    ensures r.Failure? ==> r.error == IndexError || r.error == KeyError || r.error == TypeError
  {
    match SplitFilterPart(part)
    case Failure(e) => Failure(e)
    case Ok(None) => Ok(rows)
    case Ok(Some(c)) =>
      if c.column !in columns then Failure(KeyError) else KeepMatching(c, rows)
  }

  /** The clauses applied one after another; the first error ends the query. */
  function Run(columns: set<string>, rows: seq<Row>, parts: seq<string>): (r: Result<seq<Row>>)
    ensures r.Ok? ==> |r.value| <= |rows|
    ensures r.Failure? ==> r.error == IndexError || r.error == KeyError || r.error == TypeError
    decreases |parts|
  {
    if |parts| == 0 then Ok(rows)
    else match Step(columns, rows, parts[0])
      case Failure(e) => Failure(e)
      case Ok(next) => Run(columns, next, parts[1..])
  }

  /** What `update_table` returns for a filter query. */
  function ApplyFilter(t: Table, query: string): (r: Result<seq<Row>>)
    ensures r.Ok? ==> |r.value| <= |t.rows|
    ensures r.Failure? ==> r.error == IndexError || r.error == KeyError || r.error == TypeError
  {
    Run(t.columns, t.rows, Split(query, ClauseSeparator))
  }

  /** `update_table`: split the query on ` && ` and narrow the rows clause by
      clause. */
  method UpdateTable(t: Table, query: string) returns (r: Result<seq<Row>>)
    ensures r == ApplyFilter(t, query)
  {
    var parts := Split(query, ClauseSeparator);
    var dff := t.rows;
    var i := 0;
    while i < |parts|
      invariant 0 <= i <= |parts|
      invariant Run(t.columns, t.rows, parts) == Run(t.columns, dff, parts[i..])
    {
      assert parts[i..][1..] == parts[i + 1..];
      var step := Step(t.columns, dff, parts[i]);
      if step.Failure? {
        return Failure(step.error);
      }
      dff := step.value;
      i := i + 1;
    }
    r := Ok(dff);
  }

  // ---------------------------------------------------------------------------
  // What the query computes
  // ---------------------------------------------------------------------------

  /** The recognised clauses of a query, in order, or the first parse error. */
  function ParseAll(parts: seq<string>): Result<seq<Clause>> {
    if |parts| == 0 then Ok([])
    else match SplitFilterPart(parts[0])
      case Failure(e) => Failure(e)
      case Ok(oc) =>
        match ParseAll(parts[1..])
        case Failure(e) => Failure(e)
        case Ok(rest) => Ok(if oc.Some? then [oc.value] + rest else rest)
  }

  predicate MatchesAll(cs: seq<Clause>, r: Row) {
    forall k :: 0 <= k < |cs| ==> Matches(cs[k], r)
  }

  /** The rows that pass every clause, in their original order. */
  function SelectAll(cs: seq<Clause>, rows: seq<Row>): seq<Row> {
    if |rows| == 0 then []
    else (if MatchesAll(cs, rows[0]) then [rows[0]] else []) + SelectAll(cs, rows[1..])
  }

  /** Every selected row is a row of the table that passes every clause. */
  lemma {:induction false} SelectAllMembers(cs: seq<Clause>, rows: seq<Row>)
    ensures forall r :: r in SelectAll(cs, rows) ==> r in rows && MatchesAll(cs, r)
  {
    if |rows| > 0 {
      SelectAllMembers(cs, rows[1..]);
    }
  }

  lemma {:induction false} KeepMatchingSelects(c: Clause, rows: seq<Row>)
    requires KeepMatching(c, rows).Ok?
    ensures KeepMatching(c, rows).value == SelectAll([c], rows)
  {
    if |rows| > 0 {
      KeepMatchingSelects(c, rows[1..]);
      MatchesAllSingle(c, rows[0]);
    }
  }

  lemma MatchesAllSingle(c: Clause, r: Row)
    ensures MatchesAll([c], r) <==> Matches(c, r)
  {
    assert [c][0] == c;
  }

  lemma MatchesAllCons(c: Clause, cs: seq<Clause>, r: Row)
    ensures MatchesAll([c] + cs, r) <==> Matches(c, r) && MatchesAll(cs, r)
  {
    var all := [c] + cs;
    if MatchesAll(all, r) {
      assert Matches(all[0], r);
      forall k | 0 <= k < |cs| ensures Matches(cs[k], r) {
        assert all[k + 1] == cs[k];
      }
    }
    if Matches(c, r) && MatchesAll(cs, r) {
      forall k | 0 <= k < |all| ensures Matches(all[k], r) {
        if k > 0 { assert all[k] == cs[k - 1]; }
      }
    }
  }

  lemma {:induction false} SelectAllCompose(c: Clause, cs: seq<Clause>, rows: seq<Row>)
    ensures SelectAll(cs, SelectAll([c], rows)) == SelectAll([c] + cs, rows)
  {
    if |rows| > 0 {
      var r := rows[0];
      SelectAllCompose(c, cs, rows[1..]);
      MatchesAllCons(c, cs, r);
      MatchesAllSingle(c, r);
      var head := if MatchesAll([c], r) then [r] else [];
      assert SelectAll([c], rows) == head + SelectAll([c], rows[1..]);
      SelectAllAppend(cs, head, SelectAll([c], rows[1..]));
    }
  }

  lemma {:induction false} SelectAllAppend(cs: seq<Clause>, a: seq<Row>, b: seq<Row>)
    ensures SelectAll(cs, a + b) == SelectAll(cs, a) + SelectAll(cs, b)
  {
    if |a| > 0 {
      assert (a + b)[1..] == a[1..] + b;
      SelectAllAppend(cs, a[1..], b);
    } else {
      assert a + b == b;
    }
  }

  /** A query that succeeds keeps exactly the rows that pass every recognised
      clause, in their original order; it also names only existing columns. */
  lemma {:induction false} RunSelects(columns: set<string>, rows: seq<Row>, parts: seq<string>)
    requires Run(columns, rows, parts).Ok?
    ensures ParseAll(parts).Ok?
    ensures Run(columns, rows, parts).value == SelectAll(ParseAll(parts).value, rows)
    ensures forall c :: c in ParseAll(parts).value ==> c.column in columns
    decreases |parts|
  {
    if |parts| == 0 {
      SelectAllNone(rows);
    } else {
      var next := Step(columns, rows, parts[0]).value;
      RunSelects(columns, next, parts[1..]);
      var cs := ParseAll(parts[1..]).value;
      match SplitFilterPart(parts[0])
      case Ok(None) =>
      case Ok(Some(c)) =>
        KeepMatchingSelects(c, rows);
        SelectAllCompose(c, cs, rows);
    }
  }

  lemma {:induction false} SelectAllNone(rows: seq<Row>)
    ensures SelectAll([], rows) == rows
  {
    if |rows| > 0 { SelectAllNone(rows[1..]); }
  }

  lemma {:induction false} SelectAllIsSubsequence(cs: seq<Clause>, rows: seq<Row>)
    ensures IsSubsequence(SelectAll(cs, rows), rows)
  {
    if |rows| > 0 {
      SelectAllIsSubsequence(cs, rows[1..]);
      var rest := SelectAll(cs, rows[1..]);
      if !MatchesAll(cs, rows[0]) {
        assert SelectAll(cs, rows) == rest;
        SubsequenceDropHead(rest, rows);
      } else {
        assert ([rows[0]] + rest)[1..] == rest;
      }
    }
  }

  lemma FilterIsSubsequence(t: Table, query: string)
    requires ApplyFilter(t, query).Ok?
    ensures var parts := Split(query, ClauseSeparator);
      ParseAll(parts).Ok?
      && ApplyFilter(t, query).value == SelectAll(ParseAll(parts).value, t.rows)
      && IsSubsequence(ApplyFilter(t, query).value, t.rows)
  {
    var parts := Split(query, ClauseSeparator);
    RunSelects(t.columns, t.rows, parts);
    SelectAllIsSubsequence(ParseAll(parts).value, t.rows);
  }

  /** A clause in which no operator token occurs leaves the rows as they are. */
  lemma UnrecognisedClauseKeepsRows(columns: set<string>, rows: seq<Row>, part: string)
    requires forall g, k :: IsToken(g, k) ==> !Occurs(part, Operators[g][k])
    ensures Step(columns, rows, part) == Ok(rows)
  {
    UnrecognisedIff(part);
  }

  /** The empty query returns the whole table. */
  lemma EmptyQueryKeepsTable(t: Table)
    ensures ApplyFilter(t, "") == Ok(t.rows)
  {
    assert Find("", ClauseSeparator) == None;
    assert Split("", ClauseSeparator) == [""];
    forall g, k | IsToken(g, k) ensures !Occurs("", Operators[g][k]) {
      assert |Operators[g][k]| > 0;
    }
    UnrecognisedClauseKeepsRows(t.columns, t.rows, "");
    assert [""][1..] == [];
    assert Run(t.columns, t.rows, [""]) == Run(t.columns, t.rows, []);
  }

  lemma {:induction false} KeepMatchingAll(c: Clause, rows: seq<Row>)
    requires forall r :: r in rows ==> Matches(c, r)
    ensures KeepMatching(c, rows) == Ok(rows)
  {
    if |rows| > 0 {
      assert rows[0] in rows;
      assert forall r :: r in rows[1..] ==> r in rows;
      KeepMatchingAll(c, rows[1..]);
      assert rows == [rows[0]] + rows[1..];
    }
  }

  lemma {:induction false} RunOnMatchingRows(columns: set<string>, rows: seq<Row>, parts: seq<string>)
    requires ParseAll(parts).Ok?
    requires forall c :: c in ParseAll(parts).value ==> c.column in columns
    requires forall r :: r in rows ==> MatchesAll(ParseAll(parts).value, r)
    ensures Run(columns, rows, parts) == Ok(rows)
    decreases |parts|
  {
    if |parts| > 0 {
      var cs := ParseAll(parts).value;
      match SplitFilterPart(parts[0])
      case Ok(None) =>
        assert ParseAll(parts[1..]).value == cs;
        RunOnMatchingRows(columns, rows, parts[1..]);
      case Ok(Some(c)) =>
        var rest := ParseAll(parts[1..]).value;
        assert cs == [c] + rest;
        assert c in cs;
        forall r | r in rows ensures Matches(c, r) && MatchesAll(rest, r) {
          MatchesAllCons(c, rest, r);
        }
        KeepMatchingAll(c, rows);
        assert Step(columns, rows, parts[0]) == Ok(rows);
        RunOnMatchingRows(columns, rows, parts[1..]);
    }
  }

  /** Filtering the result again with the same query changes nothing. */
  lemma FilterIdempotent(t: Table, query: string)
    requires ApplyFilter(t, query).Ok?
    ensures ApplyFilter(Table(t.columns, ApplyFilter(t, query).value), query) == ApplyFilter(t, query)
  {
    var parts := Split(query, ClauseSeparator);
    RunSelects(t.columns, t.rows, parts);
    SelectAllMembers(ParseAll(parts).value, t.rows);
    RunOnMatchingRows(t.columns, ApplyFilter(t, query).value, parts);
  }

  // ---------------------------------------------------------------------------
  // The age-range label
  // ---------------------------------------------------------------------------

  /** `update_ageRange`: `(lo-hi) selected`, with `+` after hi when hi is the
      slider's maximum (meaning "and older"). */
  function AgeLabel(lo: int, hi: int): (caption: string)
    ensures '+' in caption <==> hi == AgeMax
  {
    var upper := if hi == AgeMax then IntToString(hi) + "+" else IntToString(hi);
    NoPlusInNumber(lo);
    NoPlusInNumber(hi);
    "(" + IntToString(lo) + "-" + upper + ") selected"
  }

  lemma NoPlusInNumber(i: int)
    ensures '+' !in IntToString(i)
  {
    var s := IntToString(i);
    ParseNatToString(if i < 0 then -i else i);
    if i < 0 {
      assert forall k :: 1 <= k < |s| ==> s[k] == NatToString(-i)[k - 1];
    }
  }
}

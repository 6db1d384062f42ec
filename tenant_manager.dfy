/**
 * The JavaFX tenant screen of one building: the search filter over the listed tenants,
 * the list refill from the table, CSV export and import, the add/edit form's result
 * converter and the delete button. Dialogs, files and the table widget are left to the
 * caller: their answers arrive as parameters.
 */
module Gui {
  import opened Wrappers
  import opened JavaText
  import opened Money
  import opened Dates
  import opened Store
  import opened Tenants
  import PropertyManager

  // ---------------------------------------------------------------- search

  /**
   * The search box: no text (null or empty) lets every tenant through, otherwise the
   * lowered name or apartment must contain the lowered text.
   */
  predicate Matches(query: Option<string>, e: Entry)
  {
    || query.None?
    || |query.value| == 0
    || Contains(ToLower(e.name), ToLower(query.value))
    || Contains(ToLower(e.aptNumber), ToLower(query.value))
  }

  /** The filtered list the table shows, in the list's order. */
  function Filtered(query: Option<string>, es: seq<Entry>): (r: seq<Entry>)
    ensures |r| <= |es|
    decreases |es|
  {
    if |es| == 0 then []
    else (if Matches(query, es[0]) then [es[0]] else []) + Filtered(query, es[1..])
  }

  /** The filter keeps exactly the matching tenants. */
  lemma {:induction false} FilteredExactly(query: Option<string>, es: seq<Entry>)
    ensures forall e :: e in Filtered(query, es) <==> e in es && Matches(query, e)
    decreases |es|
  {
    if |es| > 0 {
      FilteredExactly(query, es[1..]);
      assert es == [es[0]] + es[1..];
    }
  }

  /** The filter keeps the list's order: it works piece by piece. */
  lemma {:induction false} FilteredConcat(query: Option<string>, a: seq<Entry>, b: seq<Entry>)
    ensures Filtered(query, a + b) == Filtered(query, a) + Filtered(query, b)
    decreases |a|
  {
    if |a| == 0 {
      assert a + b == b;
    } else {
      var head := if Matches(query, a[0]) then [a[0]] else [];
      assert (a + b)[0] == a[0] && (a + b)[1..] == a[1..] + b;
      assert Filtered(query, a + b) == head + Filtered(query, a[1..] + b);
      FilteredConcat(query, a[1..], b);
      assert Filtered(query, a) == head + Filtered(query, a[1..]);
    }
  }

  /** With no search text every tenant is shown. */
  lemma {:induction false} FilteredAll(query: Option<string>, es: seq<Entry>)
    requires query == None || query == Some("")
    ensures Filtered(query, es) == es
    decreases |es|
  {
    if |es| > 0 {
      FilteredAll(query, es[1..]);
      assert es == [es[0]] + es[1..];
    }
  }

  /** The search ignores letter case in the query... */
  lemma MatchesIgnoreQueryCase(q: string, e: Entry)
    ensures Matches(Some(q), e) <==> Matches(Some(ToLower(q)), e)
  {
    ToLowerIdempotent(q);
  }

  /** ... and a tenant whose name or apartment holds the text as typed is always found. */
  lemma MatchesExactText(q: string, e: Entry)
    requires Contains(e.name, q) || Contains(e.aptNumber, q)
    ensures Matches(Some(q), e)
  {
    if Contains(e.name, q) {
      ContainsLowered(e.name, q);
    } else {
      ContainsLowered(e.aptNumber, q);
    }
  }

  // ---------------------------------------------------------------- the listed tenants

  /** A table row as the list shows it: its id and the Tenant's seven other fields. */
  function EntryOf(id: int, r: Row): Entry
  {
    Entry(id, r.name, r.aptNumber, r.leaseStart, r.leaseExpired, r.security, r.rent, r.balance)
  }

  /** What `SELECT * FROM tenants` yields, one entry per row in scan order. */
  ghost function Listing(t: Table): seq<Entry>
  {
    AscendingElements(t.rows.Keys);
    ListingOf(t.rows, Ascending(t.rows.Keys))
  }

  /** The entries of the rows with the given ids, in the order of the ids. */
  function ListingOf(rows: map<int, Row>, ids: seq<int>): (es: seq<Entry>)
    requires forall id :: id in ids ==> id in rows
    ensures |es| == |ids|
    decreases |ids|
  {
    if |ids| == 0 then [] else ListingOf(rows, ids[..|ids| - 1]) + [EntryOf(ids[|ids| - 1], rows[ids[|ids| - 1]])]
  }

  /** One more id adds its row's entry at the end. */
  lemma ListingOfSnoc(rows: map<int, Row>, ids: seq<int>, i: nat)
    requires i < |ids| && forall id :: id in ids ==> id in rows
    ensures ListingOf(rows, ids[..i + 1]) == ListingOf(rows, ids[..i]) + [EntryOf(ids[i], rows[ids[i]])]
  {
    assert ids[..i + 1][..i] == ids[..i];
  }

  /** Entry k of the listing is the row under the k-th id. */
  lemma {:induction false} ListingOfAt(rows: map<int, Row>, ids: seq<int>)
    requires forall id :: id in ids ==> id in rows
    ensures forall k :: 0 <= k < |ids| ==> ListingOf(rows, ids)[k] == EntryOf(ids[k], rows[ids[k]])
    decreases |ids|
  {
    if |ids| > 0 {
      var init := ids[..|ids| - 1];
      assert forall k :: 0 <= k < |init| ==> init[k] == ids[k];
      ListingOfAt(rows, init);
    }
  }

  /** The listing shows every row exactly once, by increasing id, with the row's own values. */
  lemma ListingShowsEveryRow(t: Table)
    ensures |Listing(t)| == |t.rows|
    ensures forall i, j :: 0 <= i < j < |Listing(t)| ==> Listing(t)[i].id < Listing(t)[j].id
    ensures forall id :: id in t.rows <==> exists i :: 0 <= i < |Listing(t)| && Listing(t)[i].id == id
    ensures forall i :: 0 <= i < |Listing(t)| ==>
      Listing(t)[i].id in t.rows && Listing(t)[i] == EntryOf(Listing(t)[i].id, t.rows[Listing(t)[i].id])
  {
    var ids := Ascending(t.rows.Keys);
    AscendingElements(t.rows.Keys);
    AscendingSorted(t.rows.Keys);
    ListingOfAt(t.rows, ids);
    forall id | id in t.rows ensures exists i :: 0 <= i < |Listing(t)| && Listing(t)[i].id == id {
      var i :| 0 <= i < |ids| && ids[i] == id;
      assert Listing(t)[i].id == id;
    }
  }

  /** The values of a list of Tenant objects. */
  function Values(ts: seq<Tenant>): (es: seq<Entry>)
    reads ts
    ensures |es| == |ts|
    decreases |ts|
  {
    if |ts| == 0 then [] else Values(ts[..|ts| - 1]) + [ts[|ts| - 1].Value()]
  }

  /** One more Tenant adds its value at the end. */
  lemma ValuesSnoc(ts: seq<Tenant>, t: Tenant)
    ensures Values(ts + [t]) == Values(ts) + [t.Value()]
  {
    assert (ts + [t])[..|ts|] == ts;
  }

  /** Entry i of the values is the value of Tenant i. */
  lemma {:induction false} ValuesAt(ts: seq<Tenant>)
    ensures forall i :: 0 <= i < |ts| ==> Values(ts)[i] == ts[i].Value()
    decreases |ts|
  {
    if |ts| > 0 {
      var init := ts[..|ts| - 1];
      assert forall i :: 0 <= i < |init| ==> init[i] == ts[i];
      ValuesAt(init);
    }
  }

  // ---------------------------------------------------------------- CSV

  const Header: string := "ID,Name,Apt#,LeaseStart,LeaseExpired,Security,Rent,Balance"

  /** The eight fields of one exported line: `%d,%s,%s,%s,%s,%.2f,%.2f,%.2f`. */
  function CsvFields(e: Entry): seq<string>
  {
    [IntToString(e.id), e.name, e.aptNumber, IsoString(e.leaseStart), IsoString(e.leaseExpired),
     Format2(e.security), Format2(e.rent), Format2(e.balance)]
  }

  /** One exported line, unquoted: a comma inside a name ends up as a field separator. */
  function CsvLine(e: Entry): string
  {
    Join(CsvFields(e), ',')
  }

  /** f applied to each element, in order. */
  function Mapped<A, B>(f: A -> B, xs: seq<A>): (ys: seq<B>)
    ensures |ys| == |xs|
    decreases |xs|
  {
    if |xs| == 0 then [] else Mapped(f, xs[..|xs| - 1]) + [f(xs[|xs| - 1])]
  }

  lemma MappedGrow<A, B>(f: A -> B, xs: seq<A>, i: nat)
    requires i < |xs|
    ensures Mapped(f, xs[..i + 1]) == Mapped(f, xs[..i]) + [f(xs[i])]
  {
    assert xs[..i + 1][..i] == xs[..i];
  }

  /** Element i of the result is f of element i. */
  lemma {:induction false} MappedAt<A, B>(f: A -> B, xs: seq<A>)
    ensures forall i :: 0 <= i < |xs| ==> Mapped(f, xs)[i] == f(xs[i])
    decreases |xs|
  {
    if |xs| > 0 {
      var init := xs[..|xs| - 1];
      assert forall i :: 0 <= i < |init| ==> init[i] == xs[i];
      MappedAt(f, init);
    }
  }

  /** The exported lines of a list of tenants, one per tenant in list order. */
  function CsvLines(es: seq<Entry>): (lines: seq<string>)
    ensures |lines| == |es|
  {
    Mapped(CsvLine, es)
  }

  /** What one line after the header asks of the import. */
  datatype Record = Skipped | InsertRow(id: int, row: Row)

  /**
   * One imported line, split on ','. Fewer than eight tokens: the line is skipped.
   * Otherwise the id, the two dates and the three amounts are parsed in that order and
   * the first failure raises; name and apartment are taken as they are.
   */
  function ParseTokens(tokens: seq<string>): (r: Result<Record, Exception>)
    ensures r == Success(Skipped) <==> |tokens| < 8
    ensures r.Success? && r.value.InsertRow? ==>
      WellFormed(r.value.row) && r.value.row.name == tokens[1] && r.value.row.aptNumber == tokens[2]
  {
    if |tokens| < 8 then Success(Skipped)
    else match ParseInt(tokens[0])
      case None => Failure(NumberFormat)
      case Some(id) =>
        match SqlDateValueOf(tokens[3])
        case Failure(e) => Failure(e)
        case Success(leaseStart) =>
          match SqlDateValueOf(tokens[4])
          case Failure(e) => Failure(e)
          case Success(leaseExpired) =>
            match (ParseDouble(tokens[5]), ParseDouble(tokens[6]), ParseDouble(tokens[7]))
            case (Some(security), Some(rent), Some(balance)) =>
              Success(InsertRow(id, NewRow(tokens[1], tokens[2], leaseStart, leaseExpired, security, rent, balance)))
            case _ => Failure(NumberFormat)
  }

  function ParseCsvRecord(line: string): Result<Record, Exception>
  {
    ParseTokens(Split(line, ','))
  }

  /**
   * The import loop over the lines after the header: each record is inserted with its own
   * id and balance; the first line that fails to parse or to insert ends the import as a
   * failure, and the rows inserted before it stay.
   */
  function ImportRecords(t: Table, lines: seq<string>): (Table, bool)
    decreases |lines|
  {
    if |lines| == 0 then (t, true)
    else match ImportOne(t, lines[0])
      case None => (t, false)
      case Some(u) => ImportRecords(u, lines[1..])
  }

  /** One line of the loop: the table after it, or None when it throws. */
  function ImportOne(t: Table, line: string): Option<Table>
  {
    match ParseCsvRecord(line)
    case Failure(_) => None
    case Success(Skipped) => Some(t)
    case Success(InsertRow(id, row)) =>
      match InsertedWithId(t, id, row)
      case Failure(_) => None
      case Success(u) => Some(u)
  }

  /** The first line is read and dropped unexamined, whatever it holds. */
  function ImportLines(t: Table, lines: seq<string>): (Table, bool)
  {
    if |lines| == 0 then (t, true) else ImportRecords(t, lines[1..])
  }

  /** The import only adds rows: rows already present keep their values. */
  lemma {:induction false} ImportOnlyAdds(t: Table, lines: seq<string>)
    requires Consistent(t)
    ensures Consistent(ImportRecords(t, lines).0)
    ensures t.rows.Keys <= ImportRecords(t, lines).0.rows.Keys
    ensures forall id :: id in t.rows ==> ImportRecords(t, lines).0.rows[id] == t.rows[id]
    decreases |lines|
  {
    if |lines| > 0 {
      match ParseCsvRecord(lines[0])
      case Failure(_) =>
      case Success(Skipped) =>
        ImportOnlyAdds(t, lines[1..]);
      case Success(InsertRow(id, row)) =>
        InsertedWithIdAddsOneRow(t, id, row);
        if InsertedWithId(t, id, row).Success? {
          ImportOnlyAdds(InsertedWithId(t, id, row).value, lines[1..]);
        }
    }
  }

  /**
   * A line that fails, in parsing or in its insert, ends the import: the rows from the
   * lines before it stay, no later line is looked at, and the import reports failure.
   */
  lemma {:induction false} ImportStopsAtFailure(t: Table, before: seq<string>, bad: string, after: seq<string>)
    requires ImportRecords(t, before).1
    requires ImportOne(ImportRecords(t, before).0, bad).None?
    ensures ImportRecords(t, before + [bad] + after) == (ImportRecords(t, before).0, false)
    decreases |before|
  {
    var lines := before + [bad] + after;
    if |before| == 0 {
      assert lines[0] == bad;
    } else {
      assert lines[0] == before[0];
      assert lines[1..] == before[1..] + [bad] + after;
      ImportStopsAtFailure(ImportOne(t, before[0]).value, before[1..], bad, after);
    }
  }

  // ---------------------------------------------------------------- export, then import

  /** A tenant whose exported line reads back: no comma in the texts, dates valueOf can hold. */
  predicate CsvSafe(e: Entry)
  {
    IsInt32(e.id) && ',' !in e.name && ',' !in e.aptNumber && InSqlRange(e.leaseStart) && InSqlRange(e.leaseExpired)
  }

  /** The row an exported line imports as: amounts as `%.2f` shows them, nothing paid yet. */
  function Restored(e: Entry): Row
  {
    NewRow(e.name, e.aptNumber, e.leaseStart, e.leaseExpired, Rounded(e.security), Rounded(e.rent), Rounded(e.balance))
  }

  lemma TokensOfCsvLine(e: Entry)
    requires CsvSafe(e)
    ensures Split(CsvLine(e), ',') == CsvFields(e)
  {
    var f := CsvFields(e);
    IntToStringHasNoComma(e.id);
    IsoStringHasNoComma(e.leaseStart);
    IsoStringHasNoComma(e.leaseExpired);
    Format2HasNoComma(e.security);
    Format2HasNoComma(e.rent);
    Format2HasNoComma(e.balance);
    assert forall k :: 0 <= k < 8 ==> ',' !in f[k];
    SplitOfJoin(f, ',');
  }

  lemma RecordOfFields(e: Entry)
    requires CsvSafe(e)
    ensures ParseTokens(CsvFields(e)) == Success(InsertRow(e.id, Restored(e)))
  {
    var f := CsvFields(e);
    assert f[0] == IntToString(e.id) && f[1] == e.name && f[2] == e.aptNumber;
    assert f[3] == IsoString(e.leaseStart) && f[4] == IsoString(e.leaseExpired);
    assert f[5] == Format2(e.security) && f[6] == Format2(e.rent) && f[7] == Format2(e.balance);
    ParseIntOfIntToString(e.id);
    ValueOfIsoString(e.leaseStart);
    ValueOfIsoString(e.leaseExpired);
    ParseFormat2(e.security);
    ParseFormat2(e.rent);
    ParseFormat2(e.balance);
    ParseTokensOf(f, e.id, e.leaseStart, e.leaseExpired, Rounded(e.security), Rounded(e.rent), Rounded(e.balance));
  }

  /** Eight tokens that all parse give the row with those values. */
  lemma ParseTokensOf(tokens: seq<string>, id: int, leaseStart: Date, leaseExpired: Date,
                      security: real, rent: real, balance: real)
    requires |tokens| >= 8 && ParseInt(tokens[0]) == Some(id)
    requires SqlDateValueOf(tokens[3]) == Success(leaseStart) && SqlDateValueOf(tokens[4]) == Success(leaseExpired)
    requires ParseDouble(tokens[5]) == Some(security) && ParseDouble(tokens[6]) == Some(rent)
    requires ParseDouble(tokens[7]) == Some(balance)
    ensures ParseTokens(tokens)
      == Success(InsertRow(id, NewRow(tokens[1], tokens[2], leaseStart, leaseExpired, security, rent, balance)))
  {
  }

  /** An exported line imports as its tenant's id and values, with the amounts rounded to cents. */
  lemma RecordOfCsvLine(e: Entry)
    requires CsvSafe(e)
    ensures ParseCsvRecord(CsvLine(e)) == Success(InsertRow(e.id, Restored(e)))
  {
    TokensOfCsvLine(e);
    RecordOfFields(e);
  }

  /** The ids of a list of tenants. */
  function IdsOf(es: seq<Entry>): set<int>
  {
    set i | 0 <= i < |es| :: es[i].id
  }

  /** The first of several ids, then the rest. */
  lemma IdsOfCons(es: seq<Entry>)
    requires |es| > 0
    ensures IdsOf(es) == {es[0].id} + IdsOf(es[1..])
  {
    forall id | id in IdsOf(es) ensures id in {es[0].id} + IdsOf(es[1..]) {
      var i :| 0 <= i < |es| && es[i].id == id;
      if i > 0 {
        assert es[1..][i - 1].id == id;
      }
    }
  }

  /** A first line that imports successfully hands the rest of the lines the grown table. */
  lemma ImportStep(t: Table, lines: seq<string>, id: int, row: Row)
    requires |lines| > 0 && ParseCsvRecord(lines[0]) == Success(InsertRow(id, row))
    requires InsertedWithId(t, id, row).Success?
    ensures ImportRecords(t, lines) == ImportRecords(InsertedWithId(t, id, row).value, lines[1..])
  {
  }

  /** The first line decides whether the import goes on, and with which table. */
  lemma ImportFirst(t: Table, lines: seq<string>)
    requires |lines| > 0
    ensures ImportOne(t, lines[0]).None? ==> ImportRecords(t, lines) == (t, false)
    ensures ImportOne(t, lines[0]).Some? ==> ImportRecords(t, lines) == ImportRecords(ImportOne(t, lines[0]).value, lines[1..])
  {
  }

  /** What an import of exported lines needs: one line per tenant, every id new and distinct. */
  predicate ExportedFresh(t: Table, es: seq<Entry>, lines: seq<string>)
  {
    && |lines| == |es| && (forall i :: 0 <= i < |es| ==> lines[i] == CsvLine(es[i]))
    && (forall i :: 0 <= i < |es| ==> CsvSafe(es[i]) && FitsColumns(es[i].name, es[i].aptNumber) && es[i].id !in t.rows)
    && (forall i, j :: 0 <= i < j < |es| ==> es[i].id != es[j].id)
  }

  /** The first exported line goes in under its id and leaves the rest to the grown table. */
  lemma ImportOfExportHead(t: Table, es: seq<Entry>, lines: seq<string>)
    requires Consistent(t) && ExportedFresh(t, es, lines) && |es| > 0
    ensures InsertedWithId(t, es[0].id, Restored(es[0])).Success?
    ensures var t1 := InsertedWithId(t, es[0].id, Restored(es[0])).value;
      && Consistent(t1) && t1.rows == t.rows[es[0].id := Restored(es[0])]
      && ImportRecords(t, lines) == ImportRecords(t1, lines[1..])
      && ExportedFresh(t1, es[1..], lines[1..])
  {
    var e := es[0];
    assert lines[0] == CsvLine(e) && CsvSafe(e) && FitsColumns(e.name, e.aptNumber) && e.id !in t.rows;
    RecordOfCsvLine(e);
    InsertedWithIdAddsOneRow(t, e.id, Restored(e));
    var t1 := InsertedWithId(t, e.id, Restored(e)).value;
    ImportStep(t, lines, e.id, Restored(e));
    var rest := es[1..];
    forall i | 0 <= i < |rest|
      ensures lines[1..][i] == CsvLine(rest[i])
      ensures CsvSafe(rest[i]) && FitsColumns(rest[i].name, rest[i].aptNumber) && rest[i].id !in t1.rows
    {
      assert rest[i] == es[i + 1] && lines[1..][i] == lines[i + 1];
      assert es[0].id != es[i + 1].id;
    }
    forall i, j | 0 <= i < j < |rest| ensures rest[i].id != rest[j].id {
      assert rest[i] == es[i + 1] && rest[j] == es[j + 1];
    }
  }

  /** What the rest of the lines did to the grown table is what all the lines did to the table. */
  lemma ImportOfExportJoin(t: Table, t1: Table, es: seq<Entry>, u: Table)
    requires |es| > 0 && es[0].id !in t.rows && t1.rows == t.rows[es[0].id := Restored(es[0])]
    requires u.rows.Keys == t1.rows.Keys + IdsOf(es[1..])
    requires forall id :: id in t1.rows ==> u.rows[id] == t1.rows[id]
    requires forall i :: 0 <= i < |es[1..]| ==> u.rows[es[1..][i].id] == Restored(es[1..][i])
    ensures u.rows.Keys == t.rows.Keys + IdsOf(es)
    ensures forall id :: id in t.rows ==> u.rows[id] == t.rows[id]
    ensures forall i :: 0 <= i < |es| ==> u.rows[es[i].id] == Restored(es[i])
  {
    IdsOfCons(es);
    forall id | id in t.rows ensures u.rows[id] == t.rows[id] {
      assert id in t1.rows && t1.rows[id] == t.rows[id];
    }
    forall i | 0 <= i < |es| ensures u.rows[es[i].id] == Restored(es[i]) {
      if i == 0 {
        assert es[0].id in t1.rows;
      } else {
        assert es[1..][i - 1] == es[i];
      }
    }
  }

  /**
   * Importing exported lines into a table that holds none of their ids succeeds and adds
   * exactly one row per line, under the line's id, leaving the existing rows alone.
   */
  lemma {:induction false} ImportOfExport(t: Table, es: seq<Entry>, lines: seq<string>)
    requires Consistent(t) && ExportedFresh(t, es, lines)
    ensures ImportRecords(t, lines).1 && Consistent(ImportRecords(t, lines).0)
    ensures ImportRecords(t, lines).0.rows.Keys == t.rows.Keys + IdsOf(es)
    ensures forall id :: id in t.rows ==> ImportRecords(t, lines).0.rows[id] == t.rows[id]
    ensures forall i :: 0 <= i < |es| ==> ImportRecords(t, lines).0.rows[es[i].id] == Restored(es[i])
    decreases |es|
  {
    if |es| > 0 {
      ImportOfExportHead(t, es, lines);
      var t1 := InsertedWithId(t, es[0].id, Restored(es[0])).value;
      ImportOfExport(t1, es[1..], lines[1..]);
      ImportOfExportJoin(t, t1, es, ImportRecords(t1, lines[1..]).0);
    } else {
      assert IdsOf(es) == {};
    }
  }

  /** A row that the export writes out and the import reads back unchanged, up to payments. */
  predicate RowSurvivesCsv(id: int, r: Row)
  {
    && CsvSafe(EntryOf(id, r)) && FitsColumns(r.name, r.aptNumber)
    && IsCents(r.security) && IsCents(r.rent) && IsCents(r.balance)
  }

  /** The row as it comes back: every column but the twelve paid ones, which are back to 0. */
  function Cleared(r: Row): Row
  {
    NewRow(r.name, r.aptNumber, r.leaseStart, r.leaseExpired, r.security, r.rent, r.balance)
  }

  /** The listing of rows that survive the CSV, written out, is fit for an import into `t`. */
  lemma ListingExportable(src: Table, t: Table)
    requires forall id :: id in src.rows ==> RowSurvivesCsv(id, src.rows[id]) && id !in t.rows
    ensures ExportedFresh(t, Listing(src), CsvLines(Listing(src)))
  {
    var es := Listing(src);
    ListingShowsEveryRow(src);
    MappedAt(CsvLine, es);
    forall i | 0 <= i < |es| ensures CsvSafe(es[i]) && FitsColumns(es[i].name, es[i].aptNumber) && es[i].id !in t.rows {
      assert es[i] == EntryOf(es[i].id, src.rows[es[i].id]);
    }
    assert forall i, j :: 0 <= i < j < |es| ==> es[i].id != es[j].id;
  }

  /** The listing names every id of the table. */
  lemma ListingIds(src: Table)
    ensures IdsOf(Listing(src)) == src.rows.Keys
  {
    var es := Listing(src);
    ListingShowsEveryRow(src);
    forall id | id in src.rows ensures id in IdsOf(es) {
      var i :| 0 <= i < |es| && es[i].id == id;
    }
  }

  /** A surviving row comes back as itself with the paid columns cleared. */
  lemma RestoredSurvivor(id: int, r: Row)
    requires RowSurvivesCsv(id, r)
    ensures Restored(EntryOf(id, r)) == Cleared(r)
  {
    RoundedIsClose(r.security);
    RoundedIsClose(r.rent);
    RoundedIsClose(r.balance);
  }

  /** Export after a refresh, then import into `t`: the imported rows, listing entry by listing entry. */
  lemma ImportOfListing(src: Table, t: Table)
    requires Consistent(t)
    requires forall id :: id in src.rows ==> RowSurvivesCsv(id, src.rows[id]) && id !in t.rows
    ensures var (u, ok) := ImportLines(t, [Header] + CsvLines(Listing(src)));
      && ok && u.rows.Keys == t.rows.Keys + src.rows.Keys
      && (forall id :: id in t.rows ==> u.rows[id] == t.rows[id])
      && (forall id :: id in src.rows ==> u.rows[id] == Cleared(src.rows[id]))
  {
    var es := Listing(src);
    ListingExportable(src, t);
    ListingIds(src);
    ListingShowsEveryRow(src);
    ImportOfExport(t, es, CsvLines(es));
    assert ([Header] + CsvLines(es))[1..] == CsvLines(es);
    var u := ImportRecords(t, CsvLines(es)).0;
    forall id | id in src.rows ensures u.rows[id] == Cleared(src.rows[id]) {
      var i :| 0 <= i < |es| && es[i].id == id;
      RestoredSurvivor(id, src.rows[id]);
    }
  }

  /**
   * Export after a refresh, then import into a table that holds none of the ids: the
   * import succeeds and restores every exported row under its id, except that the paid
   * columns, which the export does not write, come back as 0. The amounts are printed
   * with '.' as the decimal separator, as Format2 writes them.
   */
  lemma ExportImportRoundTrip(src: Table, t: Table)
    requires Consistent(t)
    requires forall id :: id in src.rows ==> RowSurvivesCsv(id, src.rows[id]) && id !in t.rows
    ensures var (u, ok) := ImportLines(t, [Header] + CsvLines(Listing(src)));
      ok && u.rows == t.rows + map id | id in src.rows :: Cleared(src.rows[id])
  {
    ImportOfListing(src, t);
    var u := ImportLines(t, [Header] + CsvLines(Listing(src))).0;
    var m := map id | id in src.rows :: Cleared(src.rows[id]);
    assert u.rows.Keys == (t.rows + m).Keys;
    forall id | id in u.rows ensures u.rows[id] == (t.rows + m)[id] {
      if id in src.rows {
        assert (t.rows + m)[id] == m[id];
      } else {
        assert id in t.rows;
      }
    }
    assert u.rows == t.rows + m;
  }

  // ---------------------------------------------------------------- the add/edit form

  /** The six text fields of the tenant form. */
  datatype FormTexts = FormTexts(
    name: string,
    aptNumber: string,
    leaseStart: string,
    leaseEnd: string,
    security: string,
    rent: string)

  /** The statement the form issues: an INSERT of a new row, or an UPDATE of six columns by id. */
  datatype FormPlan = AddRow(row: Row) | EditRow(id: int, edits: seq<Edit>)

  /**
   * The OK handler up to executeUpdate, in the source's order: formatDate on both dates,
   * the rent, valueOf on both dates, the security; then the balance seed for a new tenant
   * or the six column values for the selected one. Any exception aborts the form.
   */
  function PlanForm(editing: Option<int>, f: FormTexts, today: Date): (r: Result<FormPlan, Exception>)
    ensures r.Success? ==> (r.value.AddRow? <==> editing.None?)
    ensures r.Success? && r.value.AddRow? ==> WellFormed(r.value.row)
  {
    match FormatDate(f.leaseStart)
    case Failure(e) => Failure(e)
    case Success(start) =>
      match FormatDate(f.leaseEnd)
      case Failure(e) => Failure(e)
      case Success(end) =>
        match ParseDouble(f.rent)
        case None => Failure(NumberFormat)
        case Some(rent) => Filled(editing, f, start, end, rent, today)
  }

  /** The rest of the handler, once both dates are reordered and the rent is parsed. */
  function Filled(editing: Option<int>, f: FormTexts, start: string, end: string, rent: real, today: Date): (r: Result<FormPlan, Exception>)
    ensures r.Success? ==> (r.value.AddRow? <==> editing.None?)
    ensures r.Success? && r.value.AddRow? ==> WellFormed(r.value.row)
  {
    match SqlDateValueOf(start)
    case Failure(e) => Failure(e)
    case Success(leaseStart) =>
      match SqlDateValueOf(end)
      case Failure(e) => Failure(e)
      case Success(leaseExpired) =>
        match ParseDouble(f.security)
        case None => Failure(NumberFormat)
        case Some(security) =>
          match editing
          case Some(id) =>
            Success(EditRow(id, FormEdits(f, leaseStart, leaseExpired, security, rent)))
          case None =>
            match UnpaidMonthsStrict(start, today)
            case Failure(e) => Failure(e)
            case Success(months) =>
              Success(AddRow(NewRow(f.name, f.aptNumber, leaseStart, leaseExpired, security, rent, Times(rent, months))))
  }

  /** `SET name=?, apt_number=?, lease_start=?, lease_expired=?, security=?, rent=?`: no balance. */
  function FormEdits(f: FormTexts, leaseStart: Date, leaseExpired: Date, security: real, rent: real): seq<Edit>
  {
    [SetName(f.name), SetAptNumber(f.aptNumber), SetLeaseStart(leaseStart), SetLeaseExpired(leaseExpired),
     SetSecurity(security), SetRent(rent)]
  }

  /** The statement's effect on the table; an UPDATE of an absent id matches no row. */
  function Submitted(t: Table, plan: FormPlan): Result<Table, Exception>
  {
    match plan
    case AddRow(row) =>
      (match Inserted(t, row)
       case Failure(e) => Failure(e)
       case Success(res) => Success(res.0))
    case EditRow(id, edits) =>
      if id !in t.rows then Success(t)
      else
        var s := ApplyAll(t.rows[id], edits);
        if !FitsColumns(s.name, s.aptNumber) then Failure(Sql) else Success(Updated(t, id, s))
  }

  /** The whole OK handler on a table: plan, then execute; any exception leaves the table as it was. */
  function FormOutcome(t: Table, editing: Option<int>, f: FormTexts, today: Date): Result<Table, Exception>
  {
    match PlanForm(editing, f, today)
    case Failure(e) => Failure(e)
    case Success(plan) => Submitted(t, plan)
  }

  /**
   * A new tenant from the form: the row holds the texts, the parsed amounts and dates,
   * nothing paid, and rent times the months since the lease-start month.
   */
  lemma FormAddRow(f: FormTexts, today: Date, start: string, end: string,
                   security: real, rent: real, leaseStart: Date, leaseExpired: Date)
    requires FormatDate(f.leaseStart) == Success(start) && FormatDate(f.leaseEnd) == Success(end)
    requires ParseDouble(f.rent) == Some(rent) && ParseDouble(f.security) == Some(security)
    requires SqlDateValueOf(start) == Success(leaseStart) && SqlDateValueOf(end) == Success(leaseExpired)
    ensures PlanForm(None, f, today)
      == Success(AddRow(NewRow(f.name, f.aptNumber, leaseStart, leaseExpired, security, rent,
                               Times(rent, UnpaidMonthsLenient(start, today)))))
  {
    assert PlanForm(None, f, today) == Filled(None, f, start, end, rent, today);
    UnpaidMonthsStrictSucceeds(start, today);
    FilledAdd(f, today, start, end, security, rent, leaseStart, leaseExpired, UnpaidMonthsLenient(start, today));
  }

  lemma FilledAdd(f: FormTexts, today: Date, start: string, end: string,
                  security: real, rent: real, leaseStart: Date, leaseExpired: Date, months: int)
    requires ParseDouble(f.security) == Some(security)
    requires SqlDateValueOf(start) == Success(leaseStart) && SqlDateValueOf(end) == Success(leaseExpired)
    requires UnpaidMonthsStrict(start, today) == Success(months)
    ensures Filled(None, f, start, end, rent, today)
      == Success(AddRow(NewRow(f.name, f.aptNumber, leaseStart, leaseExpired, security, rent, Times(rent, months))))
  {
  }

  /**
   * An edit from the form sets name, apartment, both dates, security and rent of the
   * selected id, whatever the row held before; balance and paid columns stay.
   */
  lemma FormEditRow(f: FormTexts, today: Date, id: int, r: Row, start: string, end: string,
                    security: real, rent: real, leaseStart: Date, leaseExpired: Date)
    requires FormatDate(f.leaseStart) == Success(start) && FormatDate(f.leaseEnd) == Success(end)
    requires ParseDouble(f.rent) == Some(rent) && ParseDouble(f.security) == Some(security)
    requires SqlDateValueOf(start) == Success(leaseStart) && SqlDateValueOf(end) == Success(leaseExpired)
    ensures PlanForm(Some(id), f, today) == Success(EditRow(id, FormEdits(f, leaseStart, leaseExpired, security, rent)))
    ensures ApplyAll(r, FormEdits(f, leaseStart, leaseExpired, security, rent))
      == r.(name := f.name, aptNumber := f.aptNumber, leaseStart := leaseStart, leaseExpired := leaseExpired,
            security := security, rent := rent)
  {
    assert PlanForm(Some(id), f, today) == Filled(Some(id), f, start, end, rent, today);
    FormEditsApply(r, f, leaseStart, leaseExpired, security, rent);
  }

  lemma ApplyAllCons(r: Row, e: Edit, rest: seq<Edit>)
    ensures ApplyAll(r, [e] + rest) == ApplyAll(Apply(r, e), rest)
  {
    assert ([e] + rest)[1..] == rest;
  }

  lemma FormEditsApply(r: Row, f: FormTexts, leaseStart: Date, leaseExpired: Date, security: real, rent: real)
    ensures ApplyAll(r, FormEdits(f, leaseStart, leaseExpired, security, rent))
      == r.(name := f.name, aptNumber := f.aptNumber, leaseStart := leaseStart, leaseExpired := leaseExpired,
            security := security, rent := rent)
  {
    var tail := [SetAptNumber(f.aptNumber), SetLeaseStart(leaseStart), SetLeaseExpired(leaseExpired),
                 SetSecurity(security), SetRent(rent)];
    assert FormEdits(f, leaseStart, leaseExpired, security, rent) == [SetName(f.name)] + tail;
    ApplyAllCons(r, SetName(f.name), tail);
    TailEditsApply(r.(name := f.name), f.aptNumber, leaseStart, leaseExpired, security, rent);
  }

  lemma TailEditsApply(r: Row, aptNumber: string, leaseStart: Date, leaseExpired: Date, security: real, rent: real)
    ensures ApplyAll(r, [SetAptNumber(aptNumber), SetLeaseStart(leaseStart), SetLeaseExpired(leaseExpired),
                         SetSecurity(security), SetRent(rent)])
      == r.(aptNumber := aptNumber, leaseStart := leaseStart, leaseExpired := leaseExpired, security := security, rent := rent)
  {
    var tail := [SetLeaseStart(leaseStart), SetLeaseExpired(leaseExpired), SetSecurity(security), SetRent(rent)];
    assert [SetAptNumber(aptNumber), SetLeaseStart(leaseStart), SetLeaseExpired(leaseExpired), SetSecurity(security), SetRent(rent)]
      == [SetAptNumber(aptNumber)] + tail;
    ApplyAllCons(r, SetAptNumber(aptNumber), tail);
    DateEditsApply(r.(aptNumber := aptNumber), leaseStart, leaseExpired, security, rent);
  }

  lemma DateEditsApply(r: Row, leaseStart: Date, leaseExpired: Date, security: real, rent: real)
    ensures ApplyAll(r, [SetLeaseStart(leaseStart), SetLeaseExpired(leaseExpired), SetSecurity(security), SetRent(rent)])
      == r.(leaseStart := leaseStart, leaseExpired := leaseExpired, security := security, rent := rent)
  {
    var tail := [SetLeaseExpired(leaseExpired), SetSecurity(security), SetRent(rent)];
    assert [SetLeaseStart(leaseStart), SetLeaseExpired(leaseExpired), SetSecurity(security), SetRent(rent)]
      == [SetLeaseStart(leaseStart)] + tail;
    ApplyAllCons(r, SetLeaseStart(leaseStart), tail);
    var tail2 := [SetSecurity(security), SetRent(rent)];
    assert tail == [SetLeaseExpired(leaseExpired)] + tail2;
    ApplyAllCons(r.(leaseStart := leaseStart), SetLeaseExpired(leaseExpired), tail2);
    AmountEditsApply(r.(leaseStart := leaseStart, leaseExpired := leaseExpired), security, rent);
  }

  lemma AmountEditsApply(r: Row, security: real, rent: real)
    ensures ApplyAll(r, [SetSecurity(security), SetRent(rent)]) == r.(security := security, rent := rent)
  {
    assert [SetSecurity(security), SetRent(rent)] == [SetSecurity(security)] + [SetRent(rent)];
    ApplyAllCons(r, SetSecurity(security), [SetRent(rent)]);
    assert [SetRent(rent)] == [SetRent(rent)] + [];
    ApplyAllCons(r.(security := security), SetRent(rent), []);
  }

  /** The form's add and the console's add build the same row from the same accepted answers. */
  lemma FormAgreesWithConsole(a: PropertyManager.AddAnswers, today: Date, start: string, end: string,
                              security: real, rent: real, leaseStart: Date, leaseExpired: Date)
    requires !PropertyManager.IsBack(a.name) && !PropertyManager.IsBack(a.aptNumber)
    requires !PropertyManager.IsBack(a.leaseStart) && !PropertyManager.IsBack(a.leaseExpired)
    requires ConvertDateFormat(a.leaseStart) == Success(start) && ConvertDateFormat(a.leaseExpired) == Success(end)
    requires ParseDouble(a.security) == Some(security) && ParseDouble(a.rent) == Some(rent)
    requires SqlDateValueOf(start) == Success(leaseStart) && SqlDateValueOf(end) == Success(leaseExpired)
    ensures PropertyManager.PlanAdd(a, today).Success?
    ensures PlanForm(None, FormTexts(a.name, a.aptNumber, a.leaseStart, a.leaseExpired, a.security, a.rent), today)
      == Success(AddRow(PropertyManager.PlanAdd(a, today).value))
  {
    ReorderingsAgree(a.leaseStart);
    ReorderingsAgree(a.leaseExpired);
    PropertyManager.PlanAddRow(a, today, start, end, security, rent, leaseStart, leaseExpired);
    FormAddRow(FormTexts(a.name, a.aptNumber, a.leaseStart, a.leaseExpired, a.security, a.rent),
               today, start, end, security, rent, leaseStart, leaseExpired);
  }

  /**
   * Where they differ: a start date with more than three '-' parts makes the console's
   * add fail with an uncaught exception, while the form's formatDate accepts it.
   */
  lemma FormAcceptsExtraParts(a: PropertyManager.AddAnswers, today: Date)
    requires !PropertyManager.IsBack(a.name) && !PropertyManager.IsBack(a.aptNumber)
    requires !PropertyManager.IsBack(a.leaseStart)
    requires |Split(a.leaseStart, '-')| > 3
    ensures PropertyManager.PlanAdd(a, today) == Failure(PropertyManager.Escaped(IllegalArgument))
    ensures FormatDate(a.leaseStart).Success?
  {
    ReorderingsAgree(a.leaseStart);
  }

  // ---------------------------------------------------------------- the screen

  /** One building's tenant screen: the building's table and the list it shows. */
  class TenantManager {
    const db: Ledger
    var tenantData: seq<Tenant>

    /** The values of the listed tenants, in list order. */
    function Entries(): seq<Entry>
      reads this, tenantData
    {
      Values(tenantData)
    }

    /** What the table widget shows for the search text. */
    function Shown(query: Option<string>): seq<Entry>
      reads this, tenantData
    {
      Filtered(query, Entries())
    }

    /** The screen opens on the building's table with an empty list. */
    constructor (db: Ledger)
      ensures this.db == db && tenantData == []
    {
      this.db := db;
      tenantData := [];
    }

    /** refreshTenants: clear the list, then one new Tenant per row, in scan order. */
    method Refresh()
      modifies this
      ensures Entries() == Listing(db.Contents())
      ensures forall t :: t in tenantData ==> fresh(t)
    {
      var rows := db.rows;
      var ids := db.ListIds();
      assert ids == Ascending(rows.Keys);
      AscendingIndexed(rows.Keys);
      var data: seq<Tenant> := [];
      var i := 0;
      while i < |ids|
        invariant 0 <= i <= |ids| && |data| == i
        invariant forall k :: 0 <= k < |ids| ==> ids[k] in rows
        invariant forall t :: t in data ==> fresh(t)
        invariant Values(data) == ListingOf(rows, ids[..i])
      {
        var r := rows[ids[i]];
        var t := new Tenant(ids[i], r.name, r.aptNumber, r.leaseStart, r.leaseExpired, r.security, r.rent, r.balance);
        ValuesSnoc(data, t);
        ListingOfSnoc(rows, ids, i);
        data := data + [t];
        i := i + 1;
      }
      assert ids[..i] == ids;
      tenantData := data;
    }

    /** exportToCSV: the header, then one line per listed tenant, in list order. */
    method ExportCsv() returns (lines: seq<string>)
      ensures lines == [Header] + CsvLines(Entries())
    {
      lines := [Header];
      ghost var es := Entries();
      ValuesAt(tenantData);
      var i := 0;
      while i < |tenantData|
        invariant 0 <= i <= |tenantData|
        invariant lines == [Header] + CsvLines(es[..i])
      {
        var e := tenantData[i].Value();
        MappedGrow(CsvLine, es, i);
        lines := lines + [CsvLine(e)];
        i := i + 1;
      }
      assert es[..i] == es;
    }

    /**
     * importFromCSV: insert the records of the lines after the first; the list is
     * refreshed only when every line went through.
     */
    method ImportCsv(lines: seq<string>) returns (ok: bool)
      requires db.Valid()
      modifies this, db
      ensures db.Valid()
      ensures (db.Contents(), ok) == ImportLines(old(db.Contents()), lines)
      ensures ok ==> Entries() == Listing(db.Contents())
      ensures !ok ==> tenantData == old(tenantData)
    {
      ok := ImportAll(lines);
      if ok {
        Refresh();
      }
    }

    /** The loop of importFromCSV: every line after the first, until one throws. */
    method ImportAll(lines: seq<string>) returns (ok: bool)
      requires db.Valid()
      modifies db
      ensures db.Valid()
      ensures (db.Contents(), ok) == ImportLines(old(db.Contents()), lines)
    {
      ok := true;
      var i := if |lines| == 0 then 0 else 1;
      while i < |lines| && ok
        invariant i <= |lines| && db.Valid()
        invariant ok ==> ImportRecords(db.Contents(), lines[i..]) == ImportLines(old(db.Contents()), lines)
        invariant !ok ==> (db.Contents(), false) == ImportLines(old(db.Contents()), lines)
        decreases |lines| - i
      {
        assert lines[i..][0] == lines[i] && lines[i..][1..] == lines[i + 1..];
        ImportFirst(db.Contents(), lines[i..]);
        ok := ImportLine(lines[i]);
        i := i + 1;
      }
    }

    /** One pass of the import loop: parse the line, and insert its record unless it is skipped. */
    method ImportLine(line: string) returns (ok: bool)
      requires db.Valid()
      modifies db
      ensures db.Valid()
      ensures ok == ImportOne(old(db.Contents()), line).Some?
      ensures ok ==> db.Contents() == ImportOne(old(db.Contents()), line).value
      ensures !ok ==> db.Contents() == old(db.Contents())
    {
      match ParseCsvRecord(line) {
        case Failure(_) =>
          ok := false;
        case Success(Skipped) =>
          ok := true;
        case Success(InsertRow(id, row)) =>
          var res := db.InsertWithId(id, row);
          ok := res.Success?;
      }
    }

    /** The form's OK button: plan, execute, and refresh the list when the statement went through. */
    method SubmitForm(editing: Option<int>, f: FormTexts, today: Date) returns (ok: bool)
      requires db.Valid()
      modifies this, db
      ensures db.Valid()
      ensures ok == FormOutcome(old(db.Contents()), editing, f, today).Success?
      ensures ok ==> db.Contents() == FormOutcome(old(db.Contents()), editing, f, today).value
                     && Entries() == Listing(db.Contents())
      ensures !ok ==> db.Contents() == old(db.Contents()) && tenantData == old(tenantData)
    {
      match PlanForm(editing, f, today) {
        case Failure(_) =>
          return false;
        case Success(AddRow(row)) =>
          var res := db.Insert(row);
          if res.Failure? {
            return false;
          }
        case Success(EditRow(id, edits)) =>
          var res := db.UpdateColumns(id, edits);
          if res.Failure? {
            return false;
          }
      }
      Refresh();
      ok := true;
    }

    /** deleteSelectedTenant: with a selection and a confirmation, DELETE by its id and refresh. */
    method DeleteSelected(selected: Option<Tenant>, confirmed: bool)
      requires db.Valid()
      modifies this, db
      ensures db.Valid()
      ensures selected.Some? && confirmed ==>
        db.Contents() == Deleted(old(db.Contents()), selected.value.id) && Entries() == Listing(db.Contents())
      ensures selected.None? || !confirmed ==> db.Contents() == old(db.Contents()) && tenantData == old(tenantData)
    {
      if selected.Some? && confirmed {
        db.Delete(selected.value.id);
        Refresh();
      }
    }
  }
}

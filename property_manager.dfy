/**
 * The console front end's ledger commands. Each command reads its answers from the
 * console (here: parameters), turns them into one row operation, or stops with a
 * message (here: a Report) and leaves the table as it was.
 */
module PropertyManager {
  import opened Wrappers
  import opened JavaText
  import opened Money
  import opened Dates
  import opened Store

  /** How a command ends. */
  datatype Report =
    | Done                    // the row operation was issued
    | Cancelled               // the user typed 'back'
    | NoTenants               // the tenant list was empty
    | InvalidChoice           // a menu number outside 1..n
    | InvalidNumber           // a menu choice that is not a number
    | InvalidMonth            // not one of jan..dec
    | InvalidAmount           // a payment amount that is not a number
    | InvalidInput            // SQLException or NumberFormatException, caught by the command
    | NotFound                // no row has the id
    | Escaped(e: Exception)   // an exception the command does not catch

  /** The console's 'back' answer, in any letter case. */
  predicate IsBack(s: string)
  {
    EqualsIgnoreCase(s, "back")
  }

  // ---------------------------------------------------------------- selecting a tenant

  datatype Selection = Back | NotANumber | OutOfRange | Picked(id: int)

  /** A numbered-list answer: 'back', not a number, outside 1..n, or the id at position choice - 1. */
  function Select(ids: seq<int>, input: string): (s: Selection)
    ensures s.Picked? <==> !IsBack(input) && ParseInt(input).Some? && 1 <= ParseInt(input).value <= |ids|
    ensures s.Picked? ==> s.id == ids[ParseInt(input).value - 1]
    ensures s == Back <==> IsBack(input)
  {
    if IsBack(input) then Back
    else match ParseInt(input)
      case None => NotANumber
      case Some(c) => if c < 1 || c > |ids| then OutOfRange else Picked(ids[c - 1])
  }

  /** The menu lists the table's ids, so a picked id always names an existing row. */
  lemma SelectPicksExisting(t: Table, input: string)
    requires Select(Ascending(t.rows.Keys), input).Picked?
    ensures Select(Ascending(t.rows.Keys), input).id in t.rows
  {
    AscendingElements(t.rows.Keys);
  }

  /** Choice k picks the k-th smallest id: the choice numbers follow the scan order. */
  lemma SelectFollowsScanOrder(t: Table, a: string, b: string)
    requires Select(Ascending(t.rows.Keys), a).Picked? && Select(Ascending(t.rows.Keys), b).Picked?
    ensures ParseInt(a).value < ParseInt(b).value <==> Select(Ascending(t.rows.Keys), a).id < Select(Ascending(t.rows.Keys), b).id
  {
    var ids := Ascending(t.rows.Keys);
    AscendingSorted(t.rows.Keys);
    var i, j := ParseInt(a).value - 1, ParseInt(b).value - 1;
    if i < j {
      assert ids[i] < ids[j];
    } else if j < i {
      assert ids[j] < ids[i];
    }
  }

  // ---------------------------------------------------------------- addTenant

  /** The six answers addTenant asks for, in order. */
  datatype AddAnswers = AddAnswers(
    name: string,
    aptNumber: string,
    leaseStart: string,
    leaseExpired: string,
    security: string,
    rent: string)

  /**
   * addTenant up to the INSERT, step by step in the source's order: 'back' checks on the
   * first four answers (the start date is converted before the expiry is asked for),
   * the two reorderings, the two numbers, the balance seed, the two valueOf calls.
   * IllegalArgumentException is not among the exceptions the command catches.
   */
  function PlanAdd(a: AddAnswers, today: Date): Result<Row, Report>
  {
    if IsBack(a.name) || IsBack(a.aptNumber) || IsBack(a.leaseStart) then Failure(Cancelled)
    else match ConvertDateFormat(a.leaseStart)
      case Failure(e) => Failure(Escaped(e))
      case Success(start) =>
        if IsBack(a.leaseExpired) then Failure(Cancelled)
        else match ConvertDateFormat(a.leaseExpired)
          case Failure(e) => Failure(Escaped(e))
          case Success(end) =>
            match ParseDouble(a.security)
            case None => Failure(InvalidInput)
            case Some(security) =>
              match ParseDouble(a.rent)
              case None => Failure(InvalidInput)
              case Some(rent) => Seeded(a, start, end, security, rent, UnpaidMonthsLenient(start, today))
  }

  /** addTenant's catch: NumberFormatException is reported, anything else escapes. */
  function AddCaught(e: Exception): Report
  {
    if e == NumberFormat || e == Sql then InvalidInput else Escaped(e)
  }

  /** The last steps of addTenant: the balance seed, then java.sql.Date.valueOf on both dates. */
  function Seeded(a: AddAnswers, start: string, end: string, security: real, rent: real, months: int): Result<Row, Report>
  {
    var balance := Times(rent, months);
    match SqlDateValueOf(start)
    case Failure(e) => Failure(AddCaught(e))
    case Success(leaseStart) =>
      match SqlDateValueOf(end)
      case Failure(e) => Failure(AddCaught(e))
      case Success(leaseExpired) => Success(NewRow(a.name, a.aptNumber, leaseStart, leaseExpired, security, rent, balance))
  }

  /** Everything addTenant demands of its answers before it inserts. */
  predicate AddAccepts(a: AddAnswers)
  {
    && !IsBack(a.name) && !IsBack(a.aptNumber) && !IsBack(a.leaseStart) && !IsBack(a.leaseExpired)
    && ConvertDateFormat(a.leaseStart).Success? && ConvertDateFormat(a.leaseExpired).Success?
    && ParseDouble(a.security).Some? && ParseDouble(a.rent).Some?
    && SqlDateValueOf(ConvertDateFormat(a.leaseStart).value).Success?
    && SqlDateValueOf(ConvertDateFormat(a.leaseExpired).value).Success?
  }

  /** A row is planned exactly when every answer is acceptable. */
  lemma PlanAddAccepts(a: AddAnswers, today: Date)
    ensures PlanAdd(a, today).Success? <==> AddAccepts(a)
  {
  }

  /**
   * The planned row holds the answers as typed and converted, no payments (a new row),
   * and rent times the months since the lease began.
   */
  lemma PlanAddRow(a: AddAnswers, today: Date, start: string, end: string,
                   security: real, rent: real, leaseStart: Date, leaseExpired: Date)
    requires !IsBack(a.name) && !IsBack(a.aptNumber) && !IsBack(a.leaseStart) && !IsBack(a.leaseExpired)
    requires ConvertDateFormat(a.leaseStart) == Success(start) && ConvertDateFormat(a.leaseExpired) == Success(end)
    requires ParseDouble(a.security) == Some(security) && ParseDouble(a.rent) == Some(rent)
    requires SqlDateValueOf(start) == Success(leaseStart) && SqlDateValueOf(end) == Success(leaseExpired)
    ensures PlanAdd(a, today)
      == Success(NewRow(a.name, a.aptNumber, leaseStart, leaseExpired, security, rent, Times(rent, UnpaidMonthsLenient(start, today))))
  {
    PlanAddStages(a, today, start, end, security, rent);
    SeededRow(a, start, end, security, rent, UnpaidMonthsLenient(start, today));
  }

  /** With the answers past the 'back' checks, conversions and parses, addTenant reaches its last steps. */
  lemma PlanAddStages(a: AddAnswers, today: Date, start: string, end: string, security: real, rent: real)
    requires !IsBack(a.name) && !IsBack(a.aptNumber) && !IsBack(a.leaseStart) && !IsBack(a.leaseExpired)
    requires ConvertDateFormat(a.leaseStart) == Success(start) && ConvertDateFormat(a.leaseExpired) == Success(end)
    requires ParseDouble(a.security) == Some(security) && ParseDouble(a.rent) == Some(rent)
    ensures PlanAdd(a, today) == Seeded(a, start, end, security, rent, UnpaidMonthsLenient(start, today))
  {
  }

  lemma SeededRow(a: AddAnswers, start: string, end: string, security: real, rent: real, months: int)
    requires SqlDateValueOf(start).Success? && SqlDateValueOf(end).Success?
    ensures Seeded(a, start, end, security, rent, months)
      == Success(NewRow(a.name, a.aptNumber, SqlDateValueOf(start).value, SqlDateValueOf(end).value,
                        security, rent, Times(rent, months)))
  {
  }

  /** 'back' at any of the first four prompts means nothing is inserted. */
  lemma PlanAddBack(a: AddAnswers, today: Date)
    ensures IsBack(a.name) || IsBack(a.aptNumber) || IsBack(a.leaseStart) ==> PlanAdd(a, today) == Failure(Cancelled)
    ensures IsBack(a.leaseExpired) ==> PlanAdd(a, today).Failure?
  {
  }

  /**
   * A lease start that valueOf refuses with NumberFormatException is caught and reported,
   * whatever the later answers are.
   */
  lemma PlanAddNotANumber(a: AddAnswers, today: Date)
    requires !IsBack(a.name) && !IsBack(a.aptNumber) && !IsBack(a.leaseStart) && !IsBack(a.leaseExpired)
    requires ConvertDateFormat(a.leaseStart).Success? && ConvertDateFormat(a.leaseExpired).Success?
    requires SqlDateValueOf(ConvertDateFormat(a.leaseStart).value) == Failure(NumberFormat)
    ensures PlanAdd(a, today) == Failure(InvalidInput)
  {
  }

  /**
   * A date part that is not a number, as in 01-0a-2024, passes the reordering; valueOf
   * then throws NumberFormatException, which addTenant catches and reports.
   */
  lemma PlanAddNonNumericDate(a: AddAnswers, today: Date, m: string, d: string, y: string)
    requires m == "01" && d == "0a" && y == "2024" && a.leaseStart == m + "-" + d + "-" + y
    requires !IsBack(a.name) && !IsBack(a.aptNumber) && !IsBack(a.leaseExpired)
    requires ConvertDateFormat(a.leaseExpired).Success?
    ensures PlanAdd(a, today) == Failure(InvalidInput)
  {
    ReorderThree(m, d, y);
    assert SqlDateValueOf(y + "-" + m + "-" + d) == Failure(NumberFormat) by {
      SqlDateValueOfJoin(y, m, d);
      assert !IsDigit(d[1]);
    }
    assert !IsBack(a.leaseStart) by {
      assert |ToLower(a.leaseStart)| != |ToLower("back")|;
    }
    PlanAddNotANumber(a, today);
  }

  /** addTenant: insert the planned row; a column-width failure is caught and reported. */
  method AddTenant(db: Ledger, a: AddAnswers, today: Date) returns (rep: Report)
    requires db.Valid()
    modifies db
    ensures db.Valid()
    ensures PlanAdd(a, today).Failure? ==> rep == PlanAdd(a, today).error && db.Contents() == old(db.Contents())
    ensures PlanAdd(a, today).Success? ==>
      var ins := Inserted(old(db.Contents()), PlanAdd(a, today).value);
      && (ins.Failure? ==> rep == InvalidInput && db.Contents() == old(db.Contents()))
      && (ins.Success? ==> rep == Done && db.Contents() == ins.value.0)
  {
    match PlanAdd(a, today)
    case Failure(report) =>
      rep := report;
    case Success(row) =>
      var res := db.Insert(row);
      rep := if res.Success? then Done else InvalidInput;
  }

  // ---------------------------------------------------------------- recordPayment

  /** recordPayment's three answers: the tenant's number, the month and the amount. */
  datatype PaymentAnswers = PaymentAnswers(choice: string, month: string, amount: string)

  /** recordPayment's checks, in order, giving the tenant id, month and amount to post. */
  function PaymentRequest(ids: seq<int>, p: PaymentAnswers): Result<(int, Month, real), Report>
  {
    if |ids| == 0 then Failure(NoTenants)
    else match Select(ids, p.choice)
      case Back => Failure(Cancelled)
      case NotANumber => Failure(InvalidNumber)
      case OutOfRange => Failure(InvalidChoice)
      case Picked(id) =>
        match MonthFromCode(ToLower(p.month))
        case None => Failure(InvalidMonth)
        case Some(m) =>
          match ParseDouble(Trim(p.amount))
          case None => Failure(InvalidAmount)
          case Some(amount) => Success((id, m, amount))
  }

  /**
   * A payment is posted exactly when the choice picks a listed tenant, the month's code
   * matches in any letter case and the amount parses; the amount is used as typed, of
   * any sign.
   */
  lemma PaymentRequestAccepts(ids: seq<int>, p: PaymentAnswers)
    ensures PaymentRequest(ids, p).Success? <==>
      Select(ids, p.choice).Picked? && MonthFromCode(ToLower(p.month)).Some? && ParseDouble(Trim(p.amount)).Some?
    ensures PaymentRequest(ids, p).Success? ==>
      var (id, m, amount) := PaymentRequest(ids, p).value;
      && id == Select(ids, p.choice).id && MonthCode(m) == ToLower(p.month)
      && Some(amount) == ParseDouble(Trim(p.amount))
  {
  }

  /** Month names are accepted in any letter case: "JAN" posts to jan_paid. */
  lemma PaymentMonthAnyCase(m: Month, typed: string)
    requires ToLower(typed) == MonthCode(m)
    ensures MonthFromCode(ToLower(typed)) == Some(m)
  {
    MonthCodeRoundTrip(m, m);
  }

  /**
   * recordPayment: the picked row's month column grows by the amount and its balance
   * shrinks by it; nothing else changes. The picked id is always present, so the
   * not-found branch is never taken.
   */
  method RecordPayment(db: Ledger, p: PaymentAnswers) returns (rep: Report)
    requires db.Valid()
    modifies db
    ensures db.Valid()
    ensures var req := PaymentRequest(Ascending(old(db.rows).Keys), p);
      && (req.Failure? ==> rep == req.error && db.Contents() == old(db.Contents()))
      && (req.Success? ==>
            (rep == Done && req.value.0 in old(db.rows)
             && db.Contents() == Updated(old(db.Contents()), req.value.0,
                                         WithPayment(old(db.rows)[req.value.0], req.value.1, req.value.2))))
  {
    var ids := db.ListIds();
    match PaymentRequest(ids, p)
    case Failure(report) =>
      rep := report;
    case Success((id, m, amount)) =>
      SelectPicksExisting(db.Contents(), p.choice);
      var found := db.PostPayment(id, m, amount);
      rep := if found then Done else NotFound;
  }

  // ---------------------------------------------------------------- deleteTenant

  /** deleteTenant's checks: an empty list, 'back', a non-number, a number outside 1..n. */
  function DeleteTarget(ids: seq<int>, choice: string): Result<int, Report>
  {
    if |ids| == 0 then Failure(NoTenants)
    else match Select(ids, choice)
      case Back => Failure(Cancelled)
      case NotANumber => Failure(InvalidInput)
      case OutOfRange => Failure(InvalidChoice)
      case Picked(id) => Success(id)
  }

  /** Deleting the picked tenant removes exactly one row and keeps every other one as it was. */
  lemma DeleteRemovesOne(t: Table, choice: string)
    requires DeleteTarget(Ascending(t.rows.Keys), choice).Success?
    ensures var id := DeleteTarget(Ascending(t.rows.Keys), choice).value;
      && id in t.rows
      && |Deleted(t, id).rows| == |t.rows| - 1
      && forall k :: k in t.rows && k != id ==> k in Deleted(t, id).rows && Deleted(t, id).rows[k] == t.rows[k]
  {
    SelectPicksExisting(t, choice);
  }

  /** deleteTenant: remove the picked row. */
  method DeleteTenant(db: Ledger, choice: string) returns (rep: Report)
    requires db.Valid()
    modifies db
    ensures db.Valid()
    ensures var target := DeleteTarget(Ascending(old(db.rows).Keys), choice);
      && (target.Failure? ==> rep == target.error && db.Contents() == old(db.Contents()))
      && (target.Success? ==> rep == Done && db.Contents() == Deleted(old(db.Contents()), target.value))
  {
    var ids := db.ListIds();
    match DeleteTarget(ids, choice)
    case Failure(report) =>
      rep := report;
    case Success(id) =>
      db.Delete(id);
      rep := Done;
  }

  // ---------------------------------------------------------------- increaseRent

  /** increaseRent's two answers: an id (not a list position) and a percentage. */
  function RentRequest(idText: string, percentText: string): (r: Result<(int, real), Report>)
    ensures r.Success? <==> ParseInt(idText).Some? && ParseDouble(percentText).Some?
    ensures r.Failure? ==> r.error == InvalidInput
  {
    match ParseInt(idText)
    case None => Failure(InvalidInput)
    case Some(id) =>
      match ParseDouble(percentText)
      case None => Failure(InvalidInput)
      case Some(p) => Success((id, p))
  }

  /** increaseRent: only the rent of that id changes; an unknown id is reported and changes nothing. */
  method IncreaseRent(db: Ledger, idText: string, percentText: string) returns (rep: Report)
    requires db.Valid()
    modifies db
    ensures db.Valid()
    ensures var req := RentRequest(idText, percentText);
      && (req.Failure? ==> rep == req.error && db.Contents() == old(db.Contents()))
      && (req.Success? && req.value.0 !in old(db.rows) ==> rep == NotFound && db.Contents() == old(db.Contents()))
      && (req.Success? && req.value.0 in old(db.rows) ==>
            (rep == Done
             && db.Contents() == Updated(old(db.Contents()), req.value.0, WithRentIncrease(old(db.rows)[req.value.0], req.value.1))))
  {
    match RentRequest(idText, percentText)
    case Failure(report) =>
      rep := report;
    case Success((id, p)) =>
      var found := db.RaiseRent(id, p);
      rep := if found then Done else NotFound;
  }

  // ---------------------------------------------------------------- editTenant / updateTenantField

  /** The edit menu's options 1..6; 7 ends editing and anything else is invalid. */
  function MenuField(option: string): (f: Option<Field>)
    ensures f.Some? <==> option in {"1", "2", "3", "4", "5", "6"}
  {
    if option == "1" then Some(Name)
    else if option == "2" then Some(AptNumber)
    else if option == "3" then Some(LeaseStart)
    else if option == "4" then Some(LeaseExpired)
    else if option == "5" then Some(Security)
    else if option == "6" then Some(Rent)
    else None
  }

  /** The column name each option writes into its UPDATE statement. */
  function Column(f: Field): string
  {
    match f
    case Name => "name"
    case AptNumber => "apt_number"
    case LeaseStart => "lease_start"
    case LeaseExpired => "lease_expired"
    case Security => "security"
    case Rent => "rent"
  }

  /** Different options write different columns, and none of them is the balance or a paid column. */
  lemma ColumnsDistinct(f: Field, g: Field, m: Month)
    ensures Column(f) == Column(g) ==> f == g
    ensures Column(f) != "balance" && Column(f) != MonthCode(m) + "_paid"
  {
    var paid := MonthCode(m) + "_paid";
    assert |paid| == 8 && paid[3] == '_';
  }

  /** Options 3 and 4 are the date fields, whose answers are reordered first. */
  predicate IsDateField(f: Field) { f == LeaseStart || f == LeaseExpired }

  /**
   * updateTenantField up to its UPDATE: 'back' cancels; a date answer is reordered (an
   * uncaught IllegalArgumentException when it has not three parts) and bound as text,
   * which the database must convert to a date (an SQLException, caught, otherwise);
   * security and rent must parse; name and apartment are taken as typed.
   */
  function PlanFieldUpdate(f: Field, answer: string): Result<Edit, Report>
  {
    if IsBack(answer) then Failure(Cancelled)
    else if IsDateField(f) then
      match ConvertDateFormat(answer)
      case Failure(e) => Failure(Escaped(e))
      case Success(text) =>
        match DbDate(text)
        case None => Failure(InvalidInput)
        case Some(d) => Success(if f == LeaseStart then SetLeaseStart(d) else SetLeaseExpired(d))
    else if f == Security || f == Rent then
      match ParseDouble(answer)
      case None => Failure(InvalidInput)
      case Some(v) => Success(if f == Security then SetSecurity(v) else SetRent(v))
    else Success(if f == Name then SetName(answer) else SetAptNumber(answer))
  }

  /**
   * A planned update writes the chosen column and no other; so the balance and the paid
   * columns are never recomputed. Name and apartment are taken verbatim.
   */
  lemma PlanFieldUpdateTargets(f: Field, answer: string, r: Row)
    requires PlanFieldUpdate(f, answer).Success?
    ensures FieldOf(PlanFieldUpdate(f, answer).value) == f
    ensures AgreeExcept(r, Apply(r, PlanFieldUpdate(f, answer).value), f)
    ensures f == Name ==> Apply(r, PlanFieldUpdate(f, answer).value).name == answer
    ensures f == AptNumber ==> Apply(r, PlanFieldUpdate(f, answer).value).aptNumber == answer
  {
  }

  /**
   * A calendar date typed as MM-DD-Y, with a year of any number of digits, is stored as
   * that date.
   */
  lemma PlanFieldUpdateDate(f: Field, d: Date)
    requires IsDateField(f) && CalendarDate(d) && 0 <= d.year <= IntMax
    ensures PlanFieldUpdate(f, FormatDateForInput(d)) == Success(if f == LeaseStart then SetLeaseStart(d) else SetLeaseExpired(d))
  {
    DbDateOfConsoleText(d);
    assert !IsBack(FormatDateForInput(d)) by {
      Pad2Month(d.month);
      var s := FormatDateForInput(d);
      assert IsDigit(s[0]);
      assert ToLower(s)[0] == s[0];
    }
  }

  /** An off-calendar date such as 02-30-2024 is refused by the database and reported. */
  lemma PlanFieldUpdateOffCalendar(f: Field, m: string, d: string, y: string)
    requires IsDateField(f) && m == "02" && d == "30" && y == "2024"
    ensures PlanFieldUpdate(f, m + "-" + d + "-" + y) == Failure(InvalidInput)
  {
    ReorderThree(m, d, y);
    DbDateOffCalendar(y, m, d);
    assert !IsBack(m + "-" + d + "-" + y) by {
      assert |ToLower(m + "-" + d + "-" + y)| != |ToLower("back")|;
    }
  }

  /** A two-digit year is not widened: 3-5-24 is stored as 5 March of the year 24. */
  lemma PlanFieldUpdateShortYear(f: Field, m: string, d: string, y: string)
    requires IsDateField(f) && m == "3" && d == "5" && y == "24"
    ensures PlanFieldUpdate(f, m + "-" + d + "-" + y)
      == Success(if f == LeaseStart then SetLeaseStart(Date(24, 3, 5)) else SetLeaseExpired(Date(24, 3, 5)))
  {
    ReorderThree(m, d, y);
    DbDateShortYear(y, m, d);
    assert !IsBack(m + "-" + d + "-" + y) by {
      assert |ToLower(m + "-" + d + "-" + y)| != |ToLower("back")|;
    }
  }

  /**
   * A date answer the database cannot convert: the conversion happens per matching row,
   * so it fails only when the id names a row.
   */
  predicate DateRefused(f: Field, answer: string)
  {
    IsDateField(f) && !IsBack(answer) && ConvertDateFormat(answer).Success?
    && DbDate(ConvertDateFormat(answer).value).None?
  }

  /**
   * updateTenantField: one UPDATE of one column of row `id`; an absent id matches
   * nothing, so a date the database would refuse is then never converted.
   */
  method UpdateTenantField(db: Ledger, id: int, f: Field, answer: string) returns (rep: Report)
    requires db.Valid()
    modifies db
    ensures db.Valid()
    ensures PlanFieldUpdate(f, answer).Failure? ==> db.Contents() == old(db.Contents())
    ensures PlanFieldUpdate(f, answer).Failure? ==>
      rep == (if DateRefused(f, answer) && id !in old(db.rows) then Done else PlanFieldUpdate(f, answer).error)
    ensures PlanFieldUpdate(f, answer).Success? ==>
      var e := PlanFieldUpdate(f, answer).value;
      if id in old(db.rows) && !FitsColumns(Apply(old(db.rows)[id], e).name, Apply(old(db.rows)[id], e).aptNumber)
      then rep == InvalidInput && db.Contents() == old(db.Contents())
      else rep == Done && db.Contents() == (if id in old(db.rows) then Updated(old(db.Contents()), id, Apply(old(db.rows)[id], e)) else old(db.Contents()))
  {
    match PlanFieldUpdate(f, answer)
    case Failure(report) =>
      rep := if DateRefused(f, answer) && id !in db.rows then Done else report;
    case Success(e) =>
      assert ApplyAll(if id in db.rows then db.rows[id] else NewRow("", "", Date(0, 1, 1), Date(0, 1, 1), 0.0, 0.0, 0.0), [e])
        == Apply(if id in db.rows then db.rows[id] else NewRow("", "", Date(0, 1, 1), Date(0, 1, 1), 0.0, 0.0, 0.0), e);
      var res := db.UpdateColumns(id, [e]);
      rep := if res.Success? then Done else InvalidInput;
  }
}

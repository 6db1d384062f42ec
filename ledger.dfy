/**
 * The per-building tenants table: one row per tenant, keyed by an auto-increment id,
 * with name, apartment, lease dates, security, rent, twelve monthly "paid" columns
 * that default to 0, and the running balance. The SQL statements the front ends issue
 * become the pure row and table operations below; the `Ledger` class holds the table
 * and applies them in place.
 */
module Store {
  import opened Wrappers
  import opened JavaText
  import opened Dates

  // ---------------------------------------------------------------- months

  datatype Month = Jan | Feb | Mar | Apr | May | Jun | Jul | Aug | Sep | Oct | Nov | Dec

  /** Position of the month's `<code>_paid` column among the twelve. */
  function MonthIndex(m: Month): (i: nat)
    ensures i < 12
  {
    match m
    case Jan => 0 case Feb => 1 case Mar => 2 case Apr => 3
    case May => 4 case Jun => 5 case Jul => 6 case Aug => 7
    case Sep => 8 case Oct => 9 case Nov => 10 case Dec => 11
  }

  /** The three-letter code that names the month's column. */
  function MonthCode(m: Month): string
  {
    match m
    case Jan => "jan" case Feb => "feb" case Mar => "mar" case Apr => "apr"
    case May => "may" case Jun => "jun" case Jul => "jul" case Aug => "aug"
    case Sep => "sep" case Oct => "oct" case Nov => "nov" case Dec => "dec"
  }

  /** Membership in the list of valid month codes; None for anything else. */
  function MonthFromCode(code: string): (r: Option<Month>)
    ensures r.Some? ==> MonthCode(r.value) == code
  {
    if code == "jan" then Some(Jan) else if code == "feb" then Some(Feb)
    else if code == "mar" then Some(Mar) else if code == "apr" then Some(Apr)
    else if code == "may" then Some(May) else if code == "jun" then Some(Jun)
    else if code == "jul" then Some(Jul) else if code == "aug" then Some(Aug)
    else if code == "sep" then Some(Sep) else if code == "oct" then Some(Oct)
    else if code == "nov" then Some(Nov) else if code == "dec" then Some(Dec)
    else None
  }

  /** Every month is recognised by its own code, and distinct months have distinct columns. */
  lemma MonthCodeRoundTrip(m: Month, n: Month)
    ensures MonthFromCode(MonthCode(m)) == Some(m)
    ensures MonthIndex(m) == MonthIndex(n) ==> m == n
  {
  }

  // ---------------------------------------------------------------- rows

  /** The columns of one tenants row other than its id. */
  datatype Row = Row(
    name: string,
    aptNumber: string,
    leaseStart: Date,
    leaseExpired: Date,
    security: real,
    rent: real,
    paid: seq<real>,
    balance: real)

  /** Twelve paid columns, one per month. */
  predicate WellFormed(r: Row) { |r.paid| == 12 }

  /** name is VARCHAR(255) and apt_number VARCHAR(50); longer text is refused by the database. */
  predicate FitsColumns(name: string, aptNumber: string)
  {
    |name| <= 255 && |aptNumber| <= 50
  }

  /** A freshly inserted row: the given columns and every paid column at its default 0. */
  function NewRow(name: string, aptNumber: string, leaseStart: Date, leaseExpired: Date,
                  security: real, rent: real, balance: real): (r: Row)
    ensures WellFormed(r) && forall i :: 0 <= i < 12 ==> r.paid[i] == 0.0
    ensures r.name == name && r.aptNumber == aptNumber && r.balance == balance
    ensures r.leaseStart == leaseStart && r.leaseExpired == leaseExpired
    ensures r.security == security && r.rent == rent
  {
    Row(name, aptNumber, leaseStart, leaseExpired, security, rent, seq(12, _ => 0.0), balance)
  }

  function Sum(s: seq<real>): real
  {
    if |s| == 0 then 0.0 else s[0] + Sum(s[1..])
  }

  lemma {:induction false} SumUpdate(s: seq<real>, i: nat, v: real)
    requires i < |s|
    ensures Sum(s[i := v]) == Sum(s) - s[i] + v
  {
    if i > 0 {
      SumUpdate(s[1..], i - 1, v);
      assert s[i := v][1..] == s[1..][i - 1 := v];
    }
  }

  /**
   * The payment UPDATE: the month's paid column becomes previous + amount and the
   * balance becomes balance - amount, whatever the sign of the amount.
   */
  function WithPayment(r: Row, m: Month, amount: real): (s: Row)
    requires WellFormed(r)
    ensures WellFormed(s)
    ensures s.paid[MonthIndex(m)] == r.paid[MonthIndex(m)] + amount
    ensures forall i :: 0 <= i < 12 && i != MonthIndex(m) ==> s.paid[i] == r.paid[i]
    ensures s.balance == r.balance - amount
    ensures s == r.(paid := s.paid, balance := s.balance)
  {
    r.(paid := r.paid[MonthIndex(m) := r.paid[MonthIndex(m)] + amount], balance := r.balance - amount)
  }

  /** A payment moves money from the balance to a paid column: their total is unchanged. */
  lemma PaymentKeepsAccountTotal(r: Row, m: Month, amount: real)
    requires WellFormed(r)
    ensures WithPayment(r, m, amount).balance + Sum(WithPayment(r, m, amount).paid) == r.balance + Sum(r.paid)
  {
    var i := MonthIndex(m);
    SumUpdate(r.paid, i, r.paid[i] + amount);
  }

  /** Recording the opposite amount for the same month undoes a payment. */
  lemma PaymentUndone(r: Row, m: Month, amount: real)
    requires WellFormed(r)
    ensures WithPayment(WithPayment(r, m, amount), m, -amount) == r
  {
    var s := WithPayment(WithPayment(r, m, amount), m, -amount);
    assert s.paid == r.paid;
  }

  /** Payments are order-independent. */
  lemma PaymentsCommute(r: Row, m: Month, a: real, n: Month, b: real)
    requires WellFormed(r)
    ensures WithPayment(WithPayment(r, m, a), n, b) == WithPayment(WithPayment(r, n, b), m, a)
  {
    var s, t := WithPayment(WithPayment(r, m, a), n, b), WithPayment(WithPayment(r, n, b), m, a);
    assert s.paid == t.paid;
  }

  /** The rent UPDATE: rent becomes rent * (1 + percent / 100); nothing else moves. */
  function WithRentIncrease(r: Row, percent: real): (s: Row)
    ensures s == r.(rent := s.rent)
    ensures s.rent == r.rent * (1.0 + percent / 100.0)
  {
    r.(rent := r.rent * (1.0 + percent / 100.0))
  }

  /** Two increases compound, and a 0 % increase changes nothing. */
  lemma RentIncreasesCompound(r: Row, p: real, q: real)
    ensures WithRentIncrease(WithRentIncrease(r, p), q).rent == r.rent * (1.0 + p / 100.0) * (1.0 + q / 100.0)
    ensures WithRentIncrease(r, 0.0) == r
  {
  }

  /** An increase by p is undone by the decrease that divides back: -100p / (100 + p) percent. */
  lemma RentIncreaseUndone(r: Row, p: real)
    requires p != -100.0
    ensures WithRentIncrease(WithRentIncrease(r, p), -100.0 * p / (100.0 + p)) == r
  {
    var k := 1.0 + p / 100.0;
    var back := -100.0 * p / (100.0 + p);
    assert 1.0 + back / 100.0 == 1.0 / k by {
      assert 100.0 + p != 0.0;
      calc {
        1.0 + back / 100.0;
        1.0 - p / (100.0 + p);
        100.0 / (100.0 + p);
        1.0 / k;
      }
    }
    assert r.rent * k * (1.0 / k) == r.rent;
  }

  /** The six columns the edit menus can change. */
  datatype Field = Name | AptNumber | LeaseStart | LeaseExpired | Security | Rent

  /** One column change, with the value already converted to the column's type. */
  datatype Edit =
    | SetName(name: string)
    | SetAptNumber(aptNumber: string)
    | SetLeaseStart(leaseStart: Date)
    | SetLeaseExpired(leaseExpired: Date)
    | SetSecurity(security: real)
    | SetRent(rent: real)

  function FieldOf(e: Edit): Field
  {
    match e
    case SetName(_) => Name
    case SetAptNumber(_) => AptNumber
    case SetLeaseStart(_) => LeaseStart
    case SetLeaseExpired(_) => LeaseExpired
    case SetSecurity(_) => Security
    case SetRent(_) => Rent
  }

  /** r and s agree on every column except possibly f; paid columns and balance always agree. */
  predicate AgreeExcept(r: Row, s: Row, f: Field)
  {
    r.paid == s.paid && r.balance == s.balance
    && (f != Name ==> r.name == s.name)
    && (f != AptNumber ==> r.aptNumber == s.aptNumber)
    && (f != LeaseStart ==> r.leaseStart == s.leaseStart)
    && (f != LeaseExpired ==> r.leaseExpired == s.leaseExpired)
    && (f != Security ==> r.security == s.security)
    && (f != Rent ==> r.rent == s.rent)
  }

  /** The edited row holds the edit's value in its column. */
  predicate Holds(s: Row, e: Edit)
  {
    match e
    case SetName(v) => s.name == v
    case SetAptNumber(v) => s.aptNumber == v
    case SetLeaseStart(v) => s.leaseStart == v
    case SetLeaseExpired(v) => s.leaseExpired == v
    case SetSecurity(v) => s.security == v
    case SetRent(v) => s.rent == v
  }

  /** `UPDATE tenants SET <field> = ?`: that one column changes, the balance is not recomputed. */
  function Apply(r: Row, e: Edit): (s: Row)
    ensures Holds(s, e) && AgreeExcept(r, s, FieldOf(e))
  {
    match e
    case SetName(v) => r.(name := v)
    case SetAptNumber(v) => r.(aptNumber := v)
    case SetLeaseStart(v) => r.(leaseStart := v)
    case SetLeaseExpired(v) => r.(leaseExpired := v)
    case SetSecurity(v) => r.(security := v)
    case SetRent(v) => r.(rent := v)
  }

  /** Holds and AgreeExcept pin the edited row down completely. */
  lemma ApplyUnique(r: Row, e: Edit, s: Row)
    requires Holds(s, e) && AgreeExcept(r, s, FieldOf(e))
    ensures s == Apply(r, e)
  {
  }

  /** Of two edits to the same column the later wins. */
  lemma LastEditWins(r: Row, e1: Edit, e2: Edit)
    requires FieldOf(e1) == FieldOf(e2)
    ensures Apply(Apply(r, e1), e2) == Apply(r, e2)
  {
  }

  // ---------------------------------------------------------------- the table

  /** The table's rows by id, and the next auto-increment id. */
  datatype Table = Table(rows: map<int, Row>, nextId: int)

  /** Every id is below the counter and every row has its twelve paid columns. */
  predicate Consistent(t: Table)
  {
    forall id :: id in t.rows ==> id < t.nextId && WellFormed(t.rows[id])
  }

  /** The empty table of a new building; auto-increment ids start at 1. */
  function EmptyTable(): (t: Table)
    ensures Consistent(t) && t.rows == map[]
  {
    Table(map[], 1)
  }

  /** INSERT without an id: the row gets the next id; text too wide for its column fails. */
  function Inserted(t: Table, r: Row): (res: Result<(Table, int), Exception>)
  {
    if !FitsColumns(r.name, r.aptNumber) then Failure(Sql)
    else Success((Table(t.rows[t.nextId := r], t.nextId + 1), t.nextId))
  }

  /** A successful insert adds exactly one row, under a new id, and keeps the table consistent. */
  lemma InsertedAddsOneRow(t: Table, r: Row)
    requires Consistent(t) && WellFormed(r)
    ensures Inserted(t, r).Success? <==> FitsColumns(r.name, r.aptNumber)
    ensures Inserted(t, r).Success? ==>
      var (u, id) := Inserted(t, r).value;
      id !in t.rows && u.rows == t.rows[id := r] && Consistent(u)
  {
  }

  /** INSERT with an explicit id: a taken id or over-wide text fails; the counter moves past the id. */
  function InsertedWithId(t: Table, id: int, r: Row): (res: Result<Table, Exception>)
  {
    if id in t.rows || !FitsColumns(r.name, r.aptNumber) then Failure(Sql)
    else Success(Table(t.rows[id := r], if id < t.nextId then t.nextId else id + 1))
  }

  lemma InsertedWithIdAddsOneRow(t: Table, id: int, r: Row)
    requires Consistent(t) && WellFormed(r)
    ensures InsertedWithId(t, id, r).Success? <==> id !in t.rows && FitsColumns(r.name, r.aptNumber)
    ensures InsertedWithId(t, id, r).Success? ==>
      InsertedWithId(t, id, r).value.rows == t.rows[id := r] && Consistent(InsertedWithId(t, id, r).value)
  {
  }

  /** An UPDATE ... WHERE id = ?: the row, if present, is replaced by f of it; otherwise nothing happens. */
  function Updated(t: Table, id: int, s: Row): (u: Table)
    ensures id in t.rows ==> u.rows == t.rows[id := s]
    ensures id !in t.rows ==> u == t
    ensures u.nextId == t.nextId && u.rows.Keys == t.rows.Keys
  {
    if id in t.rows then Table(t.rows[id := s], t.nextId) else t
  }

  /** DELETE ... WHERE id = ?: the row goes if present; an absent id changes nothing. */
  function Deleted(t: Table, id: int): (u: Table)
    ensures u.rows == t.rows - {id} && u.nextId == t.nextId
    ensures id !in t.rows ==> u == t
  {
    Table(t.rows - {id}, t.nextId)
  }

  // ---------------------------------------------------------------- scan order

  lemma HasElement(s: set<int>)
    requires s != {}
    ensures exists x :: x in s
  {
    if forall x :: x !in s { assert false; }
  }

  /** The least element of a non-empty finite set. */
  ghost function SetMin(s: set<int>): (m: int)
    requires s != {}
    ensures m in s && forall y :: y in s ==> m <= y
    decreases |s|
  {
    HasElement(s);
    var x :| x in s;
    var rest := s - {x};
    if rest == {} then
      assert forall y :: y in s ==> y == x by {
        forall y | y in s ensures y == x { assert y !in rest; }
      }
      x
    else
      var y := SetMin(rest);
      assert forall z :: z in s ==> z == x || z in rest;
      if x < y then x else y
  }

  /** The ids of a table in the order a scan of the primary key returns them. */
  ghost function Ascending(s: set<int>): (r: seq<int>)
    decreases |s|
  {
    if s == {} then [] else [SetMin(s)] + Ascending(s - {SetMin(s)})
  }

  predicate StrictlyIncreasing(r: seq<int>)
  {
    forall i, j :: 0 <= i < j < |r| ==> r[i] < r[j]
  }

  /** The scan lists exactly the ids of the set, each once. */
  lemma {:induction false} AscendingElements(s: set<int>)
    ensures forall x :: x in s <==> x in Ascending(s)
    ensures |Ascending(s)| == |s|
    decreases |s|
  {
    if s != {} {
      var m := SetMin(s);
      AscendingElements(s - {m});
    }
  }

  /** Every position of the scan holds an id of the set. */
  lemma AscendingIndexed(s: set<int>)
    ensures forall k :: 0 <= k < |Ascending(s)| ==> Ascending(s)[k] in s
  {
    AscendingElements(s);
    forall k | 0 <= k < |Ascending(s)| ensures Ascending(s)[k] in s {
      assert Ascending(s)[k] in Ascending(s);
    }
  }

  lemma ConsIncreasing(m: int, r: seq<int>)
    requires StrictlyIncreasing(r) && forall x :: x in r ==> m < x
    ensures StrictlyIncreasing([m] + r)
  {
    var q := [m] + r;
    forall i, j | 0 <= i < j < |q| ensures q[i] < q[j] {
      assert q[j] == r[j - 1];
      if i > 0 {
        assert q[i] == r[i - 1];
      } else {
        assert r[j - 1] in r;
      }
    }
  }

  /** The scan lists the ids in increasing order. */
  lemma {:induction false} AscendingSorted(s: set<int>)
    ensures StrictlyIncreasing(Ascending(s))
    decreases |s|
  {
    if s != {} {
      var m := SetMin(s);
      var rest := s - {m};
      AscendingSorted(rest);
      AscendingElements(rest);
      ConsIncreasing(m, Ascending(rest));
    }
  }

  // ---------------------------------------------------------------- the store

  /** One building's tenants table, updated in place by the front ends. */
  class Ledger {
    var rows: map<int, Row>
    var nextId: int

    function Contents(): Table
      reads this
    {
      Table(rows, nextId)
    }

    ghost predicate Valid()
      reads this
    {
      Consistent(Contents())
    }

    /** A new building starts with no tenants. */
    constructor ()
      ensures Valid() && Contents() == EmptyTable()
    {
      rows := map[];
      nextId := 1;
    }

    /** `SELECT id ... FROM tenants`: the ids, one at a time, in scan order. */
    method ListIds() returns (ids: seq<int>)
      ensures ids == Ascending(rows.Keys)
    {
      ids := [];
      var rest := rows.Keys;
      while rest != {}
        invariant ids + Ascending(rest) == Ascending(rows.Keys)
        decreases |rest|
      {
        ghost var least := SetMin(rest);
        var m :| m in rest && forall y :: y in rest ==> m <= y;
        assert m == least;
        ids := ids + [m];
        rest := rest - {m};
      }
    }

    /** INSERT with an auto-increment id. */
    method Insert(r: Row) returns (res: Result<int, Exception>)
      requires Valid() && WellFormed(r)
      modifies this
      ensures Valid()
      ensures Inserted(old(Contents()), r).Failure? ==> res == Failure(Sql) && Contents() == old(Contents())
      ensures Inserted(old(Contents()), r).Success? ==>
        res == Success(Inserted(old(Contents()), r).value.1) && Contents() == Inserted(old(Contents()), r).value.0
    {
      if !FitsColumns(r.name, r.aptNumber) {
        return Failure(Sql);
      }
      res := Success(nextId);
      rows := rows[nextId := r];
      nextId := nextId + 1;
    }

    /** INSERT with the caller's id. */
    method InsertWithId(id: int, r: Row) returns (res: Result<(), Exception>)
      requires Valid() && WellFormed(r)
      modifies this
      ensures Valid()
      ensures InsertedWithId(old(Contents()), id, r).Failure? ==> res == Failure(Sql) && Contents() == old(Contents())
      ensures InsertedWithId(old(Contents()), id, r).Success? ==>
        res == Success(()) && Contents() == InsertedWithId(old(Contents()), id, r).value
    {
      if id in rows || !FitsColumns(r.name, r.aptNumber) {
        return Failure(Sql);
      }
      rows := rows[id := r];
      if id >= nextId {
        nextId := id + 1;
      }
      res := Success(());
    }

    /** The payment UPDATE on one row; false when no row has the id. */
    method PostPayment(id: int, m: Month, amount: real) returns (found: bool)
      requires Valid()
      modifies this
      ensures Valid() && found == (id in old(rows))
      ensures found ==> Contents() == Updated(old(Contents()), id, WithPayment(old(rows)[id], m, amount))
      ensures !found ==> Contents() == old(Contents())
    {
      found := id in rows;
      if found {
        rows := rows[id := WithPayment(rows[id], m, amount)];
      }
    }

    /** The rent UPDATE on one row; false when no row has the id. */
    method RaiseRent(id: int, percent: real) returns (found: bool)
      requires Valid()
      modifies this
      ensures Valid() && found == (id in old(rows))
      ensures found ==> Contents() == Updated(old(Contents()), id, WithRentIncrease(old(rows)[id], percent))
      ensures !found ==> Contents() == old(Contents())
    {
      found := id in rows;
      if found {
        rows := rows[id := WithRentIncrease(rows[id], percent)];
      }
    }

    /**
     * A sequence of column edits on one row in a single UPDATE. Text too wide for its
     * column fails and changes nothing; an absent id matches no row and changes nothing.
     */
    method UpdateColumns(id: int, edits: seq<Edit>) returns (res: Result<(), Exception>)
      requires Valid()
      modifies this
      ensures Valid()
      ensures res.Failure? <==> id in old(rows) && !FitsColumns(ApplyAll(old(rows)[id], edits).name, ApplyAll(old(rows)[id], edits).aptNumber)
      ensures res.Failure? ==> res.error == Sql
      ensures res.Success? && id in old(rows) ==> Contents() == Updated(old(Contents()), id, ApplyAll(old(rows)[id], edits))
      ensures res.Failure? || id !in old(rows) ==> Contents() == old(Contents())
    {
      if id !in rows {
        return Success(());
      }
      var s := ApplyAll(rows[id], edits);
      ApplyAllKeepsAccount(rows[id], edits);
      if !FitsColumns(s.name, s.aptNumber) {
        return Failure(Sql);
      }
      rows := rows[id := s];
      res := Success(());
    }

    /** DELETE by id; an absent id changes nothing. */
    method Delete(id: int)
      requires Valid()
      modifies this
      ensures Valid() && Contents() == Deleted(old(Contents()), id)
    {
      rows := rows - {id};
    }
  }

  /** Edits applied left to right, as the SET list of one UPDATE. */
  function ApplyAll(r: Row, edits: seq<Edit>): Row
    decreases |edits|
  {
    if |edits| == 0 then r else ApplyAll(Apply(r, edits[0]), edits[1..])
  }

  /** Editing never touches the balance or the paid columns. */
  lemma {:induction false} ApplyAllKeepsAccount(r: Row, edits: seq<Edit>)
    ensures ApplyAll(r, edits).balance == r.balance && ApplyAll(r, edits).paid == r.paid
    decreases |edits|
  {
    if |edits| > 0 {
      ApplyAllKeepsAccount(Apply(r, edits[0]), edits[1..]);
    }
  }
}

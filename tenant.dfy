/**
 * The Tenant record the JavaFX view lists: eight private fields behind a constructor,
 * getters and setters that neither validate nor cross-check anything.
 */
module Tenants {
  import opened JavaText
  import opened Dates

  /** The eight values a Tenant holds, as one value. */
  datatype Entry = Entry(
    id: int,
    name: string,
    aptNumber: string,
    leaseStart: Date,
    leaseExpired: Date,
    security: real,
    rent: real,
    balance: real)

  class Tenant {
    var id: int
    var name: string
    var aptNumber: string
    var leaseStart: Date
    var leaseExpired: Date
    var security: real
    var rent: real
    var balance: real

    /** All eight fields at once. */
    function Value(): Entry
      reads this
    {
      Entry(id, name, aptNumber, leaseStart, leaseExpired, security, rent, balance)
    }

    /** Each argument lands in its own field, unchanged. */
    constructor (id: int, name: string, aptNumber: string, leaseStart: Date, leaseExpired: Date,
                 security: real, rent: real, balance: real)
      ensures Value() == Entry(id, name, aptNumber, leaseStart, leaseExpired, security, rent, balance)
    {
      this.id := id;
      this.name := name;
      this.aptNumber := aptNumber;
      this.leaseStart := leaseStart;
      this.leaseExpired := leaseExpired;
      this.security := security;
      this.rent := rent;
      this.balance := balance;
    }

    /** The id is an ordinary mutable field. */
    method SetId(id: int)
      modifies this
      ensures Value() == old(Value()).(id := id)
    {
      this.id := id;
    }

    method SetName(name: string)
      modifies this
      ensures Value() == old(Value()).(name := name)
    {
      this.name := name;
    }

    method SetAptNumber(aptNumber: string)
      modifies this
      ensures Value() == old(Value()).(aptNumber := aptNumber)
    {
      this.aptNumber := aptNumber;
    }

    /** No check against the lease end: any date is stored. */
    method SetLeaseStart(leaseStart: Date)
      modifies this
      ensures Value() == old(Value()).(leaseStart := leaseStart)
    {
      this.leaseStart := leaseStart;
    }

    method SetLeaseExpired(leaseExpired: Date)
      modifies this
      ensures Value() == old(Value()).(leaseExpired := leaseExpired)
    {
      this.leaseExpired := leaseExpired;
    }

    /** No sign check: a negative deposit is stored as given. */
    method SetSecurity(security: real)
      modifies this
      ensures Value() == old(Value()).(security := security)
    {
      this.security := security;
    }

    method SetRent(rent: real)
      modifies this
      ensures Value() == old(Value()).(rent := rent)
    {
      this.rent := rent;
    }

    method SetBalance(balance: real)
      modifies this
      ensures Value() == old(Value()).(balance := balance)
    {
      this.balance := balance;
    }

    /**
     * toString: the name, the apartment in "(Apt ...)" and the balance after "$". Java's
     * rendering of a double is not modelled; `showDouble` stands for it.
     */
    function Describe(showDouble: real -> string): string
      reads this
    {
      Label(name, aptNumber, showDouble(balance))
    }
  }

  /** The toString layout for given texts. */
  function Label(name: string, aptNumber: string, balanceText: string): string
  {
    name + " (Apt " + aptNumber + ") - Balance: $" + balanceText
  }

  /** The label starts with the name and ends with the balance text, with the apartment between. */
  lemma LabelParts(name: string, aptNumber: string, balanceText: string)
    ensures var r := Label(name, aptNumber, balanceText);
      && r[..|name|] == name
      && r[|name|..|name| + 6] == " (Apt "
      && r[|name| + 6..|name| + 6 + |aptNumber|] == aptNumber
      && r[|r| - |balanceText|..] == balanceText
      && |r| == |name| + |aptNumber| + |balanceText| + 20
  {
  }
}

/**
 * The two tables of the ticket-matching database: `sap` (financial
 * reference records) and `snow` (service-desk tickets), and the
 * SELECT queries the engine runs against them.
 */
module Tables {
  import opened Wrappers
  import opened Text

  /** One row of the `sap` table. The REAL currency value is kept as an integer. */
  datatype Record = Record(
    documentNumber: string,
    reference: string,
    currencyValue: int,
    currencyKey: string,
    name: string,
    customer: string)

  /** One row of the `snow` table; None stands for SQL NULL. */
  datatype Ticket = Ticket(
    id: string,
    shortDescription: string,
    emlDomain: Option<string>,
    accountNumber: Option<string>,
    accountName: Option<string>,
    text: Option<string>,
    extractionStatus: Option<string>)

  /** The primary key of the `sap` table. */
  function Key(r: Record): (string, string) {
    (r.customer, r.documentNumber)
  }

  predicate KeysUnique(sap: seq<Record>) {
    forall i, j :: 0 <= i < |sap| && 0 <= j < |sap| && i != j ==> Key(sap[i]) != Key(sap[j])
  }

  predicate CustomersNonEmpty(sap: seq<Record>) {
    forall r :: r in sap ==> r.customer != ""
  }

  /** The primary key of the `snow` table. */
  predicate IdsUnique(snow: seq<Ticket>) {
    forall i, j :: 0 <= i < |snow| && 0 <= j < |snow| && i != j ==> snow[i].id != snow[j].id
  }

  predicate HasTicket(snow: seq<Ticket>, id: string) {
    exists t :: t in snow && t.id == id
  }

  /** `SELECT * FROM sap WHERE customer = ?`, rows in table order. */
  function ByCustomer(sap: seq<Record>, code: string): (rs: seq<Record>)
    ensures |rs| <= |sap|
    ensures forall r :: r in rs <==> r in sap && r.customer == code
  {
    if sap == [] then []
    else
      var rest := ByCustomer(sap[..|sap| - 1], code);
      var last := sap[|sap| - 1];
      assert sap == sap[..|sap| - 1] + [last];
      if last.customer == code then rest + [last] else rest
  }

  /** `SELECT * FROM sap WHERE document_number = ? OR reference = ?`, rows in table order. */
  function ByDocumentOrReference(sap: seq<Record>, number: string): (rs: seq<Record>)
    ensures |rs| <= |sap|
    ensures forall r :: r in rs <==> r in sap && (r.documentNumber == number || r.reference == number)
  {
    if sap == [] then []
    else
      var rest := ByDocumentOrReference(sap[..|sap| - 1], number);
      var last := sap[|sap| - 1];
      assert sap == sap[..|sap| - 1] + [last];
      if last.documentNumber == number || last.reference == number then rest + [last] else rest
  }

  /** The customer lookup keeps table order: filtering a concatenation filters each part in turn. */
  lemma {:induction false} ByCustomerConcat(xs: seq<Record>, ys: seq<Record>, code: string)
    ensures ByCustomer(xs + ys, code) == ByCustomer(xs, code) + ByCustomer(ys, code)
    decreases |ys|
  {
    if ys == [] {
      assert xs + ys == xs;
    } else {
      var n := |ys| - 1;
      assert (xs + ys)[..|xs + ys| - 1] == xs + ys[..n];
      ByCustomerConcat(xs, ys[..n], code);
    }
  }

  /** The customer lookup returns each row of that customer as often as the table holds it, and no other row. */
  lemma {:induction false} ByCustomerCount(sap: seq<Record>, code: string, r: Record)
    ensures multiset(ByCustomer(sap, code))[r] == if r.customer == code then multiset(sap)[r] else 0
    decreases |sap|
  {
    if sap != [] {
      var n := |sap| - 1;
      assert sap == sap[..n] + [sap[n]];
      ByCustomerCount(sap[..n], code, r);
    }
  }

  /** A table without rows of that customer gives an empty lookup. */
  lemma {:induction false} ByCustomerNone(sap: seq<Record>, code: string)
    requires forall j :: 0 <= j < |sap| ==> sap[j].customer != code
    ensures ByCustomer(sap, code) == []
    decreases |sap|
  {
    if sap != [] {
      ByCustomerNone(sap[..|sap| - 1], code);
    }
  }

  /** The first row the customer lookup returns is the customer's first row in the table. */
  lemma ByCustomerFirst(sap: seq<Record>, code: string, i: nat)
    requires i < |sap| && sap[i].customer == code
    requires forall j :: 0 <= j < i ==> sap[j].customer != code
    ensures ByCustomer(sap, code) != [] && ByCustomer(sap, code)[0] == sap[i]
  {
    assert sap == sap[..i] + ([sap[i]] + sap[i + 1..]);
    ByCustomerConcat(sap[..i], [sap[i]] + sap[i + 1..], code);
    ByCustomerConcat([sap[i]], sap[i + 1..], code);
    assert [sap[i]][..0] == [];
    ByCustomerNone(sap[..i], code);
  }

  /** The invoice lookup keeps table order: filtering a concatenation filters each part in turn. */
  lemma {:induction false} ByDocumentOrReferenceConcat(xs: seq<Record>, ys: seq<Record>, number: string)
    ensures ByDocumentOrReference(xs + ys, number) == ByDocumentOrReference(xs, number) + ByDocumentOrReference(ys, number)
    decreases |ys|
  {
    if ys == [] {
      assert xs + ys == xs;
    } else {
      var n := |ys| - 1;
      assert (xs + ys)[..|xs + ys| - 1] == xs + ys[..n];
      ByDocumentOrReferenceConcat(xs, ys[..n], number);
    }
  }

  /** The invoice lookup returns each row holding the number as often as the table holds it, and no other row. */
  lemma {:induction false} ByDocumentOrReferenceCount(sap: seq<Record>, number: string, r: Record)
    ensures multiset(ByDocumentOrReference(sap, number))[r] ==
      if r.documentNumber == number || r.reference == number then multiset(sap)[r] else 0
    decreases |sap|
  {
    if sap != [] {
      var n := |sap| - 1;
      assert sap == sap[..n] + [sap[n]];
      ByDocumentOrReferenceCount(sap[..n], number, r);
    }
  }

  /** A table without rows holding the number gives an empty lookup. */
  lemma {:induction false} ByDocumentOrReferenceNone(sap: seq<Record>, number: string)
    requires forall j :: 0 <= j < |sap| ==> sap[j].documentNumber != number && sap[j].reference != number
    ensures ByDocumentOrReference(sap, number) == []
    decreases |sap|
  {
    if sap != [] {
      ByDocumentOrReferenceNone(sap[..|sap| - 1], number);
    }
  }

  /** The first row the invoice lookup returns is the table's first row holding the number. */
  lemma ByDocumentOrReferenceFirst(sap: seq<Record>, number: string, i: nat)
    requires i < |sap| && (sap[i].documentNumber == number || sap[i].reference == number)
    requires forall j :: 0 <= j < i ==> sap[j].documentNumber != number && sap[j].reference != number
    ensures ByDocumentOrReference(sap, number) != [] && ByDocumentOrReference(sap, number)[0] == sap[i]
  {
    assert sap == sap[..i] + ([sap[i]] + sap[i + 1..]);
    ByDocumentOrReferenceConcat(sap[..i], [sap[i]] + sap[i + 1..], number);
    ByDocumentOrReferenceConcat([sap[i]], sap[i + 1..], number);
    assert [sap[i]][..0] == [];
    ByDocumentOrReferenceNone(sap[..i], number);
  }

  /** Under the primary key a row occurs in the table at most once. */
  lemma {:induction false} KeyedRowOnce(sap: seq<Record>, r: Record)
    requires KeysUnique(sap)
    ensures multiset(sap)[r] <= 1
    decreases |sap|
  {
    if sap != [] {
      var n := |sap| - 1;
      assert sap == sap[..n] + [sap[n]];
      assert KeysUnique(sap[..n]);
      KeyedRowOnce(sap[..n], r);
      forall j | 0 <= j < n
        ensures sap[..n][j] != sap[n]
      {
        assert Key(sap[j]) != Key(sap[n]);
      }
    }
  }

  /**
   * The database connection: both tables, with the constraints the schema
   * declares (the two primary keys) and the one the loader keeps (no
   * record without a customer code).
   */
  class Database {
    var sap: seq<Record>
    var snow: seq<Ticket>

    ghost predicate Valid()
      reads this
    {
      KeysUnique(sap) && CustomersNonEmpty(sap) && IdsUnique(snow)
    }

    /** `create_database` on a new file: both tables exist and are empty. */
    constructor ()
      ensures Valid() && sap == [] && snow == []
    {
      sap := [];
      snow := [];
    }
  }
}

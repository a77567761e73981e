/**
 * The table loaders of create_database.py: the `sap` upsert keyed on
 * (customer, document_number), the `sap` clear, and the three ways
 * `load_snow_data` merges tickets into `snow` without clobbering the
 * fields that matching and email extraction own.
 */
module Loaders {
  import opened Wrappers
  import opened Text
  import opened Tables

  /** One row of the ERP export after column renaming; a missing customer cell is None. */
  datatype SapRow = SapRow(
    documentNumber: string,
    reference: string,
    currencyValue: int,
    currencyKey: string,
    name: string,
    customer: Option<string>)

  /** `dropna(subset=['customer'])` and `chunk['customer'] != ''` remove the row. */
  predicate Dropped(row: SapRow) {
    row.customer.None? || row.customer.value == ""
  }

  function RecordOf(row: SapRow): (r: Record)
    requires !Dropped(row)
    ensures r.customer != ""
  {
    Record(row.documentNumber, row.reference, row.currencyValue, row.currencyKey, row.name, row.customer.value)
  }

  /** Appending a record keeps keys unique exactly when its key is new. */
  lemma KeysUniqueSnoc(sap: seq<Record>, r: Record)
    ensures KeysUnique(sap + [r]) <==> KeysUnique(sap) && forall x :: x in sap ==> Key(x) != Key(r)
  {
    var s := sap + [r];
    if KeysUnique(s) {
      forall x | x in sap ensures Key(x) != Key(r) {
        var i :| 0 <= i < |sap| && sap[i] == x;
        assert s[i] == x && s[|sap|] == r;
      }
      forall i, j | 0 <= i < |sap| && 0 <= j < |sap| && i != j ensures Key(sap[i]) != Key(sap[j]) {
        assert s[i] == sap[i] && s[j] == sap[j];
      }
    }
  }

  /** The table with every row of key `k` deleted, the others in their order. */
  function WithoutKey(sap: seq<Record>, k: (string, string)): (rest: seq<Record>)
    ensures |rest| <= |sap|
    ensures forall r :: r in rest <==> r in sap && Key(r) != k
    ensures KeysUnique(sap) ==> KeysUnique(rest)
  {
    if sap == [] then []
    else
      var init := sap[..|sap| - 1];
      var last := sap[|sap| - 1];
      assert sap == init + [last];
      KeysUniqueSnoc(init, last);
      var rest := WithoutKey(init, k);
      if Key(last) == k then rest
      else
        KeysUniqueSnoc(rest, last);
        rest + [last]
  }

  /** `INSERT OR REPLACE`: the row with the same key is deleted, the new row goes last. */
  function Upserted(sap: seq<Record>, r: Record): (res: seq<Record>)
    ensures |res| > 0 && res[|res| - 1] == r
    ensures forall x :: x in res <==> x == r || (x in sap && Key(x) != Key(r))
    ensures KeysUnique(sap) ==> KeysUnique(res)
  {
    var rest := WithoutKey(sap, Key(r));
    KeysUniqueSnoc(rest, r);
    rest + [r]
  }

  /** The `sap` table after `load_sap_data` has read `rows` in order. */
  function SapAfterRows(sap: seq<Record>, rows: seq<SapRow>): (res: seq<Record>)
    ensures KeysUnique(sap) ==> KeysUnique(res)
    ensures CustomersNonEmpty(sap) ==> CustomersNonEmpty(res)
  {
    if rows == [] then sap
    else
      var before := SapAfterRows(sap, rows[..|rows| - 1]);
      var row := rows[|rows| - 1];
      if Dropped(row) then before else Upserted(before, RecordOf(row))
  }

  /** `load_sap_data(conn, csv_file)`, with the file's rows as a parameter. */
  method LoadSapData(db: Database, rows: seq<SapRow>)
    requires db.Valid()
    modifies db
    ensures db.Valid()
    ensures db.sap == SapAfterRows(old(db.sap), rows) && db.snow == old(db.snow)
  {
    for i := 0 to |rows|
      invariant db.Valid()
      invariant db.sap == SapAfterRows(old(db.sap), rows[..i]) && db.snow == old(db.snow)
    {
      var row := rows[i];
      if !Dropped(row) {
        db.sap := Upserted(db.sap, RecordOf(row));
      }
      assert rows[..i + 1][..i] == rows[..i];
    }
    assert rows[..|rows|] == rows;
  }

  /** `clear_sap_data(conn)`: `DELETE FROM sap`. */
  method ClearSapData(db: Database)
    requires db.Valid()
    modifies db
    ensures db.Valid() && db.sap == [] && db.snow == old(db.snow)
  {
    db.sap := [];
  }

  /** A kept row whose key no later kept row repeats is in the loaded table: the last row of a key wins. */
  lemma {:induction false} LastRowWins(sap: seq<Record>, rows: seq<SapRow>, i: nat)
    requires i < |rows| && !Dropped(rows[i])
    requires forall j :: i < j < |rows| && !Dropped(rows[j]) ==> Key(RecordOf(rows[j])) != Key(RecordOf(rows[i]))
    ensures RecordOf(rows[i]) in SapAfterRows(sap, rows)
  {
    var init := rows[..|rows| - 1];
    if i < |rows| - 1 {
      assert init[i] == rows[i];
      forall j | i < j < |init| && !Dropped(init[j])
        ensures Key(RecordOf(init[j])) != Key(RecordOf(init[i]))
      {
        assert init[j] == rows[j];
      }
      LastRowWins(sap, init, i);
    }
  }

  /** Every record of the loaded table was there before or comes from a kept row. */
  lemma {:induction false} LoadedRecordOrigin(sap: seq<Record>, rows: seq<SapRow>, x: Record)
    requires x in SapAfterRows(sap, rows)
    ensures x in sap || exists j :: 0 <= j < |rows| && !Dropped(rows[j]) && x == RecordOf(rows[j])
  {
    if rows != [] {
      var init := rows[..|rows| - 1];
      var row := rows[|rows| - 1];
      if Dropped(row) || x != RecordOf(row) {
        LoadedRecordOrigin(sap, init, x);
        if !(x in sap) {
          var j :| 0 <= j < |init| && !Dropped(init[j]) && x == RecordOf(init[j]);
          assert init[j] == rows[j];
        }
      }
    }
  }

  /** A row of a service-desk export in sc_req_item layout. */
  datatype ScRow = ScRow(number: string, shortDescription: string, senderAddress: Option<string>)

  /** A row of the generic layout; a column the file lacks reads as None. */
  datatype GenericRow = GenericRow(
    ticket: string,
    shortDescription: string,
    emlDomain: Option<string>,
    accountNumber: Option<string>,
    accountName: Option<string>)

  /** A ticket export: sc_req_item when it has `number` and `short_description` columns, generic otherwise. */
  datatype SnowFile = ScReqItemFile(scRows: seq<ScRow>) | GenericFile(genericRows: seq<GenericRow>)

  /** One element of `tickets_data`: the first six columns of a `snow` row. */
  datatype TicketTuple = TicketTuple(
    ticket: string,
    shortDescription: string,
    emlDomain: Option<string>,
    accountNumber: Option<string>,
    accountName: Option<string>,
    text: Option<string>)

  /** The prefix of `s` up to its first '@' (all of `s` if it has none). */
  function UpToAt(s: string): (r: string)
    ensures |r| <= |s| && r == s[..|r|] && '@' !in r
    ensures |r| == |s| || s[|r|] == '@'
  {
    if s == [] || s[0] == '@' then [] else [s[0]] + UpToAt(s[1..])
  }

  /** `email.split('@')[1]` when the sender address holds an '@'; None otherwise. */
  function EmailDomain(address: Option<string>): (domain: Option<string>)
    ensures domain.Some? <==> address.Some? && '@' in address.value
    ensures domain.Some? ==> '@' !in domain.value
  {
    if address.Some? && '@' in address.value then
      var e := address.value;
      var first := UpToAt(e);
      Some(UpToAt(e[|first| + 1..]))
    else None
  }

  /** The domain is the text between the first '@' and the next one (or the end). */
  lemma EmailDomainBetweenAts(e: string, i: nat)
    requires i < |e| && e[i] == '@' && '@' !in e[..i]
    ensures var d := EmailDomain(Some(e)).value;
      i + 1 + |d| <= |e| && e[i + 1..i + 1 + |d|] == d && (i + 1 + |d| == |e| || e[i + 1 + |d|] == '@')
  {
    var first := UpToAt(e);
    assert |first| == i;
  }

  /** `UPDATE snow SET short_description = ?, eml_domain = ? WHERE ticket = ?` */
  function WithBasics(snow: seq<Ticket>, id: string, description: string, domain: Option<string>): (res: seq<Ticket>)
    ensures |res| == |snow|
    ensures forall i :: 0 <= i < |snow| ==>
      res[i] == if snow[i].id == id then snow[i].(shortDescription := description, emlDomain := domain) else snow[i]
  {
    seq(|snow|, i requires 0 <= i < |snow| =>
      if snow[i].id == id then snow[i].(shortDescription := description, emlDomain := domain) else snow[i])
  }

  /** The four columns that matching and email extraction own. */
  function OwnedFields(t: Ticket): (Option<string>, Option<string>, Option<string>, Option<string>) {
    (t.accountNumber, t.accountName, t.text, t.extractionStatus)
  }

  /** None of the owned columns is set. */
  predicate Unextracted(t: Ticket) {
    t.accountNumber.None? && t.accountName.None? && t.text.None? && t.extractionStatus.None?
  }

  /** What loading never changes: the position and id of a ticket already there, and its owned columns. */
  predicate KeepsOwnedFields(before: seq<Ticket>, after: seq<Ticket>) {
    && |before| <= |after|
    && forall i :: 0 <= i < |before| ==> after[i].id == before[i].id && OwnedFields(after[i]) == OwnedFields(before[i])
  }

  /** Appending a ticket keeps ids unique exactly when its id is new. */
  lemma IdsUniqueSnoc(snow: seq<Ticket>, t: Ticket)
    ensures IdsUnique(snow + [t]) <==> IdsUnique(snow) && !HasTicket(snow, t.id)
  {
    var s := snow + [t];
    if HasTicket(snow, t.id) {
      var x :| x in snow && x.id == t.id;
      var i :| 0 <= i < |snow| && snow[i] == x;
      assert s[i].id == s[|snow|].id;
    } else if IdsUnique(snow) {
      forall i, j | 0 <= i < |s| && 0 <= j < |s| && i != j ensures s[i].id != s[j].id {
        if i < |snow| && j < |snow| {
          assert s[i] == snow[i] && s[j] == snow[j];
        } else if i < |snow| {
          assert snow[i] in snow;
        } else {
          assert snow[j] in snow;
        }
      }
    } else {
      var i, j :| 0 <= i < |snow| && 0 <= j < |snow| && i != j && snow[i].id == snow[j].id;
      assert s[i] == snow[i] && s[j] == snow[j];
    }
  }

  /** One sc_req_item row: the row's ticket ends up present with the row's description and domain; every other ticket is untouched. */
  function AfterScRow(snow: seq<Ticket>, row: ScRow): (res: seq<Ticket>)
    ensures HasTicket(res, row.number)
    ensures |res| == |snow| + (if HasTicket(snow, row.number) then 0 else 1)
    ensures !HasTicket(snow, row.number) ==>
      res[|snow|] == Ticket(row.number, row.shortDescription, EmailDomain(row.senderAddress), None, None, None, None)
    ensures forall i :: 0 <= i < |res| ==>
      if res[i].id == row.number
      then res[i].shortDescription == row.shortDescription && res[i].emlDomain == EmailDomain(row.senderAddress)
      else i < |snow| && res[i] == snow[i]
    ensures KeepsOwnedFields(snow, res)
    ensures IdsUnique(snow) ==> IdsUnique(res)
  {
    var domain := EmailDomain(row.senderAddress);
    if HasTicket(snow, row.number) then
      var res := WithBasics(snow, row.number, row.shortDescription, domain);
      var t :| t in snow && t.id == row.number;
      var p :| 0 <= p < |snow| && snow[p] == t;
      assert res[p].id == row.number;
      assert IdsUnique(snow) ==> IdsUnique(res) by {
        forall i | 0 <= i < |res| ensures res[i].id == snow[i].id { }
      }
      res
    else
      var t := Ticket(row.number, row.shortDescription, domain, None, None, None, None);
      IdsUniqueSnoc(snow, t);
      assert (snow + [t])[|snow|] == t;
      snow + [t]
  }

  /** One generic row: like an sc_req_item row, but a new ticket takes the row's account columns. */
  function AfterGenericRow(snow: seq<Ticket>, row: GenericRow): (res: seq<Ticket>)
    ensures HasTicket(res, row.ticket)
    ensures |res| == |snow| + (if HasTicket(snow, row.ticket) then 0 else 1)
    ensures !HasTicket(snow, row.ticket) ==>
      res[|snow|] == Ticket(row.ticket, row.shortDescription, row.emlDomain, row.accountNumber, row.accountName, None, None)
    ensures forall i :: 0 <= i < |res| ==>
      if res[i].id == row.ticket
      then res[i].shortDescription == row.shortDescription && res[i].emlDomain == row.emlDomain
      else i < |snow| && res[i] == snow[i]
    ensures KeepsOwnedFields(snow, res)
    ensures IdsUnique(snow) ==> IdsUnique(res)
  {
    if HasTicket(snow, row.ticket) then
      var res := WithBasics(snow, row.ticket, row.shortDescription, row.emlDomain);
      var t :| t in snow && t.id == row.ticket;
      var p :| 0 <= p < |snow| && snow[p] == t;
      assert res[p].id == row.ticket;
      assert IdsUnique(snow) ==> IdsUnique(res) by {
        forall i | 0 <= i < |res| ensures res[i].id == snow[i].id { }
      }
      res
    else
      var t := Ticket(row.ticket, row.shortDescription, row.emlDomain, row.accountNumber, row.accountName, None, None);
      IdsUniqueSnoc(snow, t);
      assert (snow + [t])[|snow|] == t;
      snow + [t]
  }

  /** One tuple: a ticket already present is left alone, a new one is appended whole. */
  function AfterTuple(snow: seq<Ticket>, t: TicketTuple): (res: seq<Ticket>)
    ensures |snow| <= |res| && res[..|snow|] == snow && HasTicket(res, t.ticket)
    ensures HasTicket(snow, t.ticket) ==> res == snow
    ensures !HasTicket(snow, t.ticket) ==>
      && |res| == |snow| + 1
      && res[|snow|] == Ticket(t.ticket, t.shortDescription, t.emlDomain, t.accountNumber, t.accountName, t.text, None)
    ensures IdsUnique(snow) ==> IdsUnique(res)
  {
    if HasTicket(snow, t.ticket) then snow
    else
      var n := Ticket(t.ticket, t.shortDescription, t.emlDomain, t.accountNumber, t.accountName, t.text, None);
      IdsUniqueSnoc(snow, n);
      assert (snow + [n])[|snow|] == n;
      snow + [n]
  }

  function SnowAfterScRows(snow: seq<Ticket>, rows: seq<ScRow>): (res: seq<Ticket>)
    ensures IdsUnique(snow) ==> IdsUnique(res)
    ensures KeepsOwnedFields(snow, res)
  {
    if rows == [] then snow
    else
      var before := SnowAfterScRows(snow, rows[..|rows| - 1]);
      var res := AfterScRow(before, rows[|rows| - 1]);
      assert KeepsOwnedFields(before, res);
      res
  }

  function SnowAfterGenericRows(snow: seq<Ticket>, rows: seq<GenericRow>): (res: seq<Ticket>)
    ensures IdsUnique(snow) ==> IdsUnique(res)
    ensures KeepsOwnedFields(snow, res)
  {
    if rows == [] then snow
    else
      var before := SnowAfterGenericRows(snow, rows[..|rows| - 1]);
      var res := AfterGenericRow(before, rows[|rows| - 1]);
      assert KeepsOwnedFields(before, res);
      res
  }

  function SnowAfterTuples(snow: seq<Ticket>, data: seq<TicketTuple>): (res: seq<Ticket>)
    ensures IdsUnique(snow) ==> IdsUnique(res)
    ensures |snow| <= |res| && res[..|snow|] == snow
  {
    if data == [] then snow
    else AfterTuple(SnowAfterTuples(snow, data[..|data| - 1]), data[|data| - 1])
  }

  function SnowAfterFile(snow: seq<Ticket>, file: SnowFile): seq<Ticket> {
    match file
    case ScReqItemFile(rows) => SnowAfterScRows(snow, rows)
    case GenericFile(rows) => SnowAfterGenericRows(snow, rows)
  }

  /** The sc_req_item branch of `load_snow_data`. */
  method LoadScRows(db: Database, rows: seq<ScRow>)
    requires db.Valid()
    modifies db
    ensures db.Valid() && db.sap == old(db.sap)
    ensures db.snow == SnowAfterScRows(old(db.snow), rows)
  {
    for i := 0 to |rows|
      invariant db.Valid() && db.sap == old(db.sap)
      invariant db.snow == SnowAfterScRows(old(db.snow), rows[..i])
    {
      var row := rows[i];
      var emailDomain := EmailDomain(row.senderAddress);
      if HasTicket(db.snow, row.number) {
        db.snow := WithBasics(db.snow, row.number, row.shortDescription, emailDomain);
      } else {
        db.snow := db.snow + [Ticket(row.number, row.shortDescription, emailDomain, None, None, None, None)];
      }
      assert db.snow == AfterScRow(SnowAfterScRows(old(db.snow), rows[..i]), row);
      assert rows[..i + 1][..i] == rows[..i];
    }
    assert rows[..|rows|] == rows;
  }

  /** The generic-layout branch of `load_snow_data`. */
  method LoadGenericRows(db: Database, rows: seq<GenericRow>)
    requires db.Valid()
    modifies db
    ensures db.Valid() && db.sap == old(db.sap)
    ensures db.snow == SnowAfterGenericRows(old(db.snow), rows)
  {
    for i := 0 to |rows|
      invariant db.Valid() && db.sap == old(db.sap)
      invariant db.snow == SnowAfterGenericRows(old(db.snow), rows[..i])
    {
      var row := rows[i];
      if HasTicket(db.snow, row.ticket) {
        db.snow := WithBasics(db.snow, row.ticket, row.shortDescription, row.emlDomain);
      } else {
        db.snow := db.snow + [Ticket(row.ticket, row.shortDescription, row.emlDomain,
                                     row.accountNumber, row.accountName, None, None)];
      }
      assert db.snow == AfterGenericRow(SnowAfterGenericRows(old(db.snow), rows[..i]), row);
      assert rows[..i + 1][..i] == rows[..i];
    }
    assert rows[..|rows|] == rows;
  }

  /** The `tickets_data` branch of `load_snow_data`. */
  method LoadTuples(db: Database, ticketsData: seq<TicketTuple>)
    requires db.Valid()
    modifies db
    ensures db.Valid() && db.sap == old(db.sap)
    ensures db.snow == SnowAfterTuples(old(db.snow), ticketsData)
  {
    for i := 0 to |ticketsData|
      invariant db.Valid() && db.sap == old(db.sap)
      invariant db.snow == SnowAfterTuples(old(db.snow), ticketsData[..i])
    {
      var t := ticketsData[i];
      if !HasTicket(db.snow, t.ticket) {
        db.snow := db.snow + [Ticket(t.ticket, t.shortDescription, t.emlDomain, t.accountNumber, t.accountName, t.text, None)];
      }
      assert db.snow == AfterTuple(SnowAfterTuples(old(db.snow), ticketsData[..i]), t);
      assert ticketsData[..i + 1][..i] == ticketsData[..i];
    }
    assert ticketsData[..|ticketsData|] == ticketsData;
  }

  /** `load_snow_data(conn, csv_file, tickets_data)`: the file if there is one, else the tuples if any. */
  method LoadSnowData(db: Database, csvFile: Option<SnowFile>, ticketsData: seq<TicketTuple>)
    requires db.Valid()
    modifies db
    ensures db.Valid() && db.sap == old(db.sap)
    ensures db.snow == if csvFile.Some? then SnowAfterFile(old(db.snow), csvFile.value)
                       else SnowAfterTuples(old(db.snow), ticketsData)
  {
    if csvFile.Some? {
      match csvFile.value
      case ScReqItemFile(rows) => LoadScRows(db, rows);
      case GenericFile(rows) => LoadGenericRows(db, rows);
    } else if ticketsData != [] {
      LoadTuples(db, ticketsData);
    }
  }

  /** A ticket first seen in an sc_req_item file starts with no account, no text and no status. */
  lemma {:induction false} ScNewTicketsStartBlank(snow: seq<Ticket>, rows: seq<ScRow>)
    ensures forall i :: |snow| <= i < |SnowAfterScRows(snow, rows)| ==>
      Unextracted(SnowAfterScRows(snow, rows)[i])
  {
    if rows != [] {
      var init := rows[..|rows| - 1];
      var before := SnowAfterScRows(snow, init);
      var res := SnowAfterScRows(snow, rows);
      ScNewTicketsStartBlank(snow, init);
      var row := rows[|rows| - 1];
      assert res == AfterScRow(before, row);
      assert KeepsOwnedFields(before, res);
      forall i | |snow| <= i < |res| ensures Unextracted(res[i]) {
        if i < |before| {
          assert Unextracted(before[i]);
        } else {
          assert !HasTicket(before, row.number);
          assert i == |before|;
        }
      }
    }
  }

  /** After an sc_req_item load, every row's ticket is in the table. */
  lemma {:induction false} ScRowTicketPresent(snow: seq<Ticket>, rows: seq<ScRow>, j: nat)
    requires j < |rows|
    ensures HasTicket(SnowAfterScRows(snow, rows), rows[j].number)
  {
    var init := rows[..|rows| - 1];
    if j < |rows| - 1 {
      var before := SnowAfterScRows(snow, init);
      var res := SnowAfterScRows(snow, rows);
      assert res == AfterScRow(before, rows[|rows| - 1]);
      assert init[j] == rows[j];
      ScRowTicketPresent(snow, init, j);
      var t :| t in before && t.id == rows[j].number;
      var p :| 0 <= p < |before| && before[p] == t;
      assert KeepsOwnedFields(before, res);
      assert res[p].id == rows[j].number;
    }
  }

  /** The description and domain an sc_req_item row sets on its ticket. */
  predicate HoldsRow(t: Ticket, row: ScRow) {
    t.shortDescription == row.shortDescription && t.emlDomain == EmailDomain(row.senderAddress)
  }

  /** A ticket named by an sc_req_item row holds the description and domain of the last row that names it. */
  lemma {:induction false} ScLastRowSetsBasics(snow: seq<Ticket>, rows: seq<ScRow>, j: nat)
    requires j < |rows|
    requires forall k :: j < k < |rows| ==> rows[k].number != rows[j].number
    ensures forall i :: 0 <= i < |SnowAfterScRows(snow, rows)| && SnowAfterScRows(snow, rows)[i].id == rows[j].number ==>
      HoldsRow(SnowAfterScRows(snow, rows)[i], rows[j])
  {
    var init := rows[..|rows| - 1];
    var row := rows[|rows| - 1];
    var before := SnowAfterScRows(snow, init);
    var res := SnowAfterScRows(snow, rows);
    assert res == AfterScRow(before, row);
    if j < |rows| - 1 {
      forall k | j < k < |init| ensures init[k].number != init[j].number {
        assert init[k] == rows[k];
      }
      assert init[j] == rows[j];
      ScLastRowSetsBasics(snow, init, j);
      forall i | 0 <= i < |res| && res[i].id == rows[j].number ensures HoldsRow(res[i], rows[j]) {
        assert res[i].id != row.number;
        assert i < |before| && res[i] == before[i];
      }
    }
  }
}

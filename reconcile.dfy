/**
 * The reconciliation pass of create_database.py: `process_all_tickets`
 * recomputes every ticket's account pair from its description,
 * `update_database` chains clear, loads and that pass, and
 * `get_database_stats` counts the tables.
 */
module Reconcile {
  import opened Wrappers
  import opened Text
  import opened Tables
  import opened Matching
  import opened Loaders

  /** The account pair a description earns: from its first match, or (NULL, NULL) when nothing matches. */
  function Assignment(description: string, sap: seq<Record>): (pair: (Option<string>, Option<string>))
    ensures pair.0.Some? <==> AccountMatches(description, sap) != []
    ensures pair.0.Some? <==> pair.1.Some?
    ensures pair.0.Some? ==> pair.0.value != ""
  {
    var ms := AccountMatches(description, sap);
    if ms == [] then (None, None)
    else
      assert ms[0] in ms;
      AccountMatchesSound(description, sap);
      assert Sound(ms[0], sap);
      (Some(AccountNumberOf(ms[0])), Some(AccountNameOf(ms[0])))
  }

  /** The account pair of one ticket, as `process_all_tickets` computes it from the engine's matches. */
  method AssignAccount(description: string, sap: seq<Record>) returns (number: Option<string>, name: Option<string>)
    ensures (number, name) == Assignment(description, sap)
  {
    var matches := FindAccountMatches(description, sap);
    if matches != [] {
      var m := matches[0];
      var accountNumber := if m.record.customer != "" then m.record.customer else m.code;
      var accountName := if m.record.name != "" then m.record.name else "";
      number, name := Some(accountNumber), Some(accountName);
    } else {
      number, name := None, None;
    }
  }

  /** `UPDATE snow SET account_number = ?, account_name = ? WHERE ticket = ?` */
  function WithAccount(snow: seq<Ticket>, id: string, number: Option<string>, name: Option<string>): (res: seq<Ticket>)
    ensures |res| == |snow|
    ensures forall i :: 0 <= i < |snow| ==>
      res[i] == if snow[i].id == id then snow[i].(accountNumber := number, accountName := name) else snow[i]
  {
    seq(|snow|, i requires 0 <= i < |snow| =>
      if snow[i].id == id then snow[i].(accountNumber := number, accountName := name) else snow[i])
  }

  function Reconciled(t: Ticket, sap: seq<Record>): Ticket {
    var pair := Assignment(t.shortDescription, sap);
    t.(accountNumber := pair.0, accountName := pair.1)
  }

  /** The table once tickets before position `i` have been reconciled. */
  function PartlyReconciled(tickets: seq<Ticket>, i: nat, sap: seq<Record>): (res: seq<Ticket>)
    requires i <= |tickets|
    ensures |res| == |tickets|
    ensures forall k :: 0 <= k < |tickets| ==> res[k] == if k < i then Reconciled(tickets[k], sap) else tickets[k]
    ensures IdsUnique(tickets) ==> IdsUnique(res)
  {
    var res := seq(|tickets|, k requires 0 <= k < |tickets| => if k < i then Reconciled(tickets[k], sap) else tickets[k]);
    assert forall k :: 0 <= k < |tickets| ==> res[k].id == tickets[k].id;
    res
  }

  /** The table after `process_all_tickets`: every ticket carries the pair its own description earns. */
  function ReconcileAll(snow: seq<Ticket>, sap: seq<Record>): (res: seq<Ticket>)
    ensures IdsUnique(snow) ==> IdsUnique(res)
  {
    PartlyReconciled(snow, |snow|, sap)
  }

  /** The number of tickets whose description matches something. */
  function MatchedCount(snow: seq<Ticket>, sap: seq<Record>): (n: nat)
    ensures n <= |snow|
  {
    if snow == [] then 0
    else
      var last := snow[|snow| - 1];
      MatchedCount(snow[..|snow| - 1], sap) + if Assignment(last.shortDescription, sap).0.Some? then 1 else 0
  }

  /** Reconciling position `i` is one account update addressed by its id, because ids are unique. */
  lemma ReconcileStep(tickets: seq<Ticket>, i: nat, sap: seq<Record>)
    requires IdsUnique(tickets) && i < |tickets|
    ensures var pair := Assignment(tickets[i].shortDescription, sap);
      WithAccount(PartlyReconciled(tickets, i, sap), tickets[i].id, pair.0, pair.1) == PartlyReconciled(tickets, i + 1, sap)
  {
    var pair := Assignment(tickets[i].shortDescription, sap);
    var before := PartlyReconciled(tickets, i, sap);
    var res := WithAccount(before, tickets[i].id, pair.0, pair.1);
    var after := PartlyReconciled(tickets, i + 1, sap);
    forall k | 0 <= k < |tickets| ensures res[k] == after[k] {
      assert before[k].id == tickets[k].id;
    }
  }

  /** One iteration of `process_all_tickets`: match ticket `i` and store its pair; reports whether it matched. */
  method ReconcileTicket(db: Database, tickets: seq<Ticket>, i: nat) returns (matched: bool)
    requires db.Valid() && IdsUnique(tickets) && i < |tickets|
    requires db.snow == PartlyReconciled(tickets, i, db.sap)
    modifies db
    ensures db.Valid() && db.sap == old(db.sap)
    ensures db.snow == PartlyReconciled(tickets, i + 1, db.sap)
    ensures matched == Assignment(tickets[i].shortDescription, db.sap).0.Some?
  {
    var ticket := tickets[i];
    var accountNumber, accountName := AssignAccount(ticket.shortDescription, db.sap);
    ReconcileStep(tickets, i, db.sap);
    db.snow := WithAccount(db.snow, ticket.id, accountNumber, accountName);
    matched := accountNumber.Some?;
  }

  /** `process_all_tickets(conn)`: returns how many tickets matched. */
  method ProcessAllTickets(db: Database) returns (matchedCount: nat)
    requires db.Valid()
    modifies db
    ensures db.Valid() && db.sap == old(db.sap)
    ensures db.snow == ReconcileAll(old(db.snow), db.sap)
    ensures matchedCount == MatchedCount(old(db.snow), db.sap)
  {
    var tickets := db.snow;
    matchedCount := 0;
    for i := 0 to |tickets|
      invariant db.Valid() && db.sap == old(db.sap)
      invariant db.snow == PartlyReconciled(tickets, i, db.sap)
      invariant matchedCount == MatchedCount(tickets[..i], db.sap)
    {
      var matched := ReconcileTicket(db, tickets, i);
      PrefixStep(tickets, i);
      if matched {
        matchedCount := matchedCount + 1;
      }
    }
    assert tickets[..|tickets|] == tickets;
  }

  /** Reconciling twice is reconciling once: the pair depends on the description only. */
  lemma ReconcileIdempotent(snow: seq<Ticket>, sap: seq<Record>)
    ensures ReconcileAll(ReconcileAll(snow, sap), sap) == ReconcileAll(snow, sap)
  {
  }

  /** Reconciling touches the account pair only; id, description, domain, text and status stay. */
  lemma ReconcileKeepsOtherFields(snow: seq<Ticket>, sap: seq<Record>)
    ensures var res := ReconcileAll(snow, sap);
      |res| == |snow| && forall i :: 0 <= i < |snow| ==>
        res[i].(accountNumber := snow[i].accountNumber, accountName := snow[i].accountName) == snow[i]
  {
  }

  /** Every assigned account is an existing customer, or a valid-range code outside the ERP export named as such. */
  lemma AssignedAccountsSound(snow: seq<Ticket>, sap: seq<Record>)
    requires CustomersNonEmpty(sap)
    ensures forall t :: t in ReconcileAll(snow, sap) && t.accountNumber.Some? ==>
      && t.accountNumber.value != ""
      && t.accountName.Some?
      && (|| (exists r :: r in sap && r.customer == t.accountNumber.value)
          || (IsValidAccountRange(t.accountNumber.value) && t.accountName.value == NotInSapName
              && forall r :: r in sap ==> r.customer != t.accountNumber.value))
  {
    var res := ReconcileAll(snow, sap);
    forall t | t in res && t.accountNumber.Some?
      ensures t.accountNumber.value != "" && t.accountName.Some?
      ensures || (exists r :: r in sap && r.customer == t.accountNumber.value)
              || (IsValidAccountRange(t.accountNumber.value) && t.accountName.value == NotInSapName
                  && forall r :: r in sap ==> r.customer != t.accountNumber.value)
    {
      var i :| 0 <= i < |res| && res[i] == t;
      var ms := AccountMatches(snow[i].shortDescription, sap);
      assert ms[0] in ms;
      AssignedAccountSound(snow[i].shortDescription, sap, ms[0]);
    }
  }

  /** A lone valid-range 8-digit code that no customer has earns itself and the not-in-ERP name. */
  lemma NotInSapAssignment(c: string, sap: seq<Record>)
    requires |c| == 8 && AllDigits(c) && IsValidAccountRange(c)
    requires forall r :: r in sap ==> r.customer != c
    ensures Assignment(c, sap) == (Some(c), Some(NotInSapName))
  {
    LoneCodeText(c, sap);
  }

  /** A lone 8-digit code with rows in the table earns itself and the name of the customer's first row. */
  lemma InSapAssignment(c: string, sap: seq<Record>, i: nat)
    requires |c| == 8 && AllDigits(c)
    requires i < |sap| && sap[i].customer == c
    requires forall j :: 0 <= j < i ==> sap[j].customer != c
    ensures Assignment(c, sap) == (Some(c), Some(sap[i].name))
  {
    EightDigitText(c, sap);
    CustomerMatchesFirst(c, sap, Customer, CustomerValid, i);
  }

  /**
   * A lone invoice number earns the customer and name of the first row
   * holding it as document number or reference (the number itself when
   * that row has no customer).
   */
  lemma InvoiceAssignment(n: string, sap: seq<Record>, i: nat)
    requires |n| == 10 && AllDigits(n) && n[..2] != "00"
    requires i < |sap| && (sap[i].documentNumber == n || sap[i].reference == n)
    requires forall j :: 0 <= j < i ==> sap[j].documentNumber != n && sap[j].reference != n
    ensures Assignment(n, sap) == (Some(if sap[i].customer != "" then sap[i].customer else n), Some(sap[i].name))
  {
    InvoiceTextIsInvoiceCandidate(n, sap);
    InvoiceMatchesFirst(n, sap, i);
  }

  /** `COUNT(*) ... WHERE account_number IS NOT NULL AND account_number != ''` */
  function CountMatched(snow: seq<Ticket>): (n: nat)
    ensures n <= |snow|
  {
    if snow == [] then 0
    else
      var last := snow[|snow| - 1];
      CountMatched(snow[..|snow| - 1]) + if last.accountNumber.Some? && last.accountNumber.value != "" then 1 else 0
  }

  /** After reconciliation the matched-tickets statistic equals the count `process_all_tickets` returned. */
  lemma {:induction false} MatchedStatIsMatchedCount(snow: seq<Ticket>, sap: seq<Record>)
    ensures CountMatched(ReconcileAll(snow, sap)) == MatchedCount(snow, sap)
  {
    if snow != [] {
      var init := snow[..|snow| - 1];
      var res := ReconcileAll(snow, sap);
      assert res[..|res| - 1] == ReconcileAll(init, sap);
      MatchedStatIsMatchedCount(init, sap);
    }
  }

  /** The number of tickets per extraction status: extracted, nothing to extract, pending (NULL or empty). */
  function StatusTally(snow: seq<Ticket>): (c: (nat, nat, nat))
    ensures c.0 + c.1 + c.2 <= |snow|
  {
    if snow == [] then (0, 0, 0)
    else
      var c := StatusTally(snow[..|snow| - 1]);
      var s := snow[|snow| - 1].extractionStatus;
      if s == Some("extracted") then (c.0 + 1, c.1, c.2)
      else if s == Some("nothing_to_extract") then (c.0, c.1 + 1, c.2)
      else if s.None? || s == Some("") then (c.0, c.1, c.2 + 1)
      else c
  }

  /** The counters of `get_database_stats`; the percentage is left out. */
  datatype Stats = Stats(
    totalTickets: nat,
    matchedTickets: nat,
    extractedCount: nat,
    nothingToExtractCount: nat,
    pendingExtractionCount: nat,
    sapRecords: nat)

  /** `get_database_stats()` on the current tables. */
  function GetDatabaseStats(db: Database): (s: Stats)
    reads db
    ensures s.totalTickets == |db.snow| && s.sapRecords == |db.sap|
    ensures s.matchedTickets <= s.totalTickets
    ensures s.extractedCount + s.nothingToExtractCount + s.pendingExtractionCount <= s.totalTickets
  {
    var tally := StatusTally(db.snow);
    Stats(|db.snow|, CountMatched(db.snow), tally.0, tally.1, tally.2, |db.sap|)
  }

  /** The ticket table `update_database` leaves before its reconciliation pass. */
  function LoadedSnow(snow: seq<Ticket>, snowFile: Option<SnowFile>, snowData: seq<TicketTuple>): seq<Ticket> {
    var afterFile := if snowFile.Some? then SnowAfterFile(snow, snowFile.value) else snow;
    SnowAfterTuples(afterFile, snowData)
  }

  /**
   * `update_database(sap_file, snow_file, snow_data)`: a present export
   * replaces the ERP table, ticket files and tuples are merged, then every
   * ticket is reconciled. An absent or missing file is None.
   */
  method UpdateDatabase(db: Database, sapFile: Option<seq<SapRow>>, snowFile: Option<SnowFile>, snowData: seq<TicketTuple>)
    returns (matched: nat)
    requires db.Valid()
    modifies db
    ensures db.Valid()
    ensures db.sap == if sapFile.Some? then SapAfterRows([], sapFile.value) else old(db.sap)
    ensures db.snow == ReconcileAll(LoadedSnow(old(db.snow), snowFile, snowData), db.sap)
    ensures matched == MatchedCount(LoadedSnow(old(db.snow), snowFile, snowData), db.sap)
  {
    if sapFile.Some? {
      ClearSapData(db);
      LoadSapData(db, sapFile.value);
    }
    if snowFile.Some? {
      LoadSnowData(db, snowFile, []);
    }
    if snowData != [] {
      LoadSnowData(db, None, snowData);
    }
    matched := ProcessAllTickets(db);
  }

  /** A reload keeps every ticket already stored, in place, with its email text and extraction status. */
  lemma ReloadKeepsExtraction(snow: seq<Ticket>, snowFile: Option<SnowFile>, snowData: seq<TicketTuple>, sap: seq<Record>)
    ensures var res := ReconcileAll(LoadedSnow(snow, snowFile, snowData), sap);
      |snow| <= |res| && forall i :: 0 <= i < |snow| ==>
        res[i].id == snow[i].id && res[i].text == snow[i].text && res[i].extractionStatus == snow[i].extractionStatus
  {
    var afterFile := if snowFile.Some? then SnowAfterFile(snow, snowFile.value) else snow;
    assert KeepsOwnedFields(snow, afterFile) by {
      if snowFile.Some? {
        match snowFile.value
        case ScReqItemFile(rows) =>
        case GenericFile(rows) =>
      }
    }
    var loaded := SnowAfterTuples(afterFile, snowData);
    assert loaded[..|afterFile|] == afterFile;
    forall i | 0 <= i < |snow| ensures loaded[i] == afterFile[i] {
      assert loaded[..|afterFile|][i] == loaded[i];
    }
  }
}

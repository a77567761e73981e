/**
 * The ticket-side logic of selenium_debug_session.py: which tickets still
 * need their email read, how the email text and its extraction status are
 * stored, and what one visit does to a ticket given what the browser found.
 * The browser itself is a parameter: for each ticket number it yields the
 * outcome of opening the ticket's first email.
 */
module DebugSession {
  import opened Wrappers
  import opened Text
  import opened Tables
  import opened Matching
  import opened Reconcile
  import opened EmailMatching

  /** `(account_number IS NULL OR account_number = '') AND (extraction_status IS NULL OR extraction_status = '')` */
  predicate NeedsExtraction(t: Ticket) {
    && (t.accountNumber.None? || t.accountNumber == Some(""))
    && (t.extractionStatus.None? || t.extractionStatus == Some(""))
  }

  /** `ORDER BY ticket`: no ticket is preceded by one whose number sorts after its own. */
  predicate SortedById(ts: seq<Ticket>) {
    forall i, j :: 0 <= i < j < |ts| ==> !Below(ts[j].id, ts[i].id)
  }

  /** The tickets that need extraction, in table order. */
  function Needy(snow: seq<Ticket>): (res: seq<Ticket>)
    ensures forall t :: t in res <==> t in snow && NeedsExtraction(t)
  {
    if snow == [] then []
    else
      var last := snow[|snow| - 1];
      assert snow == snow[..|snow| - 1] + [last];
      Needy(snow[..|snow| - 1]) + if NeedsExtraction(last) then [last] else []
  }

  /** A ticket that does not sort after the head of a sorted list may go in front of it. */
  lemma InsertFrontSorted(t: Ticket, sorted: seq<Ticket>)
    requires SortedById(sorted) && (sorted == [] || !Below(sorted[0].id, t.id))
    ensures SortedById([t] + sorted)
  {
    forall j | 0 < j < |sorted| ensures !Below(sorted[j].id, t.id) {
      BelowTotal(sorted[0].id, sorted[j].id);
      if Below(sorted[j].id, t.id) && Below(sorted[0].id, sorted[j].id) {
        BelowTransitive(sorted[0].id, sorted[j].id, t.id);
      }
    }
    var res := [t] + sorted;
    forall i, j | 0 <= i < j < |res| ensures !Below(res[j].id, res[i].id) {
      if i > 0 {
        assert res[i] == sorted[i - 1] && res[j] == sorted[j - 1];
      }
    }
  }

  /** A head that sorts before the inserted ticket and before the rest stays in front. */
  lemma InsertBehindSorted(head: Ticket, t: Ticket, tail: seq<Ticket>, rest: seq<Ticket>)
    requires SortedById([head] + tail) && Below(head.id, t.id)
    requires SortedById(rest) && multiset(rest) == multiset(tail) + multiset{t}
    ensures SortedById([head] + rest)
  {
    forall x | x in rest ensures !Below(x.id, head.id) {
      assert x in multiset(rest);
      if x == t {
        BelowAsymmetric(head.id, t.id);
      } else {
        assert x in multiset(tail);
        var j :| 0 <= j < |tail| && tail[j] == x;
        assert ([head] + tail)[j + 1] == x && ([head] + tail)[0] == head;
      }
    }
    var res := [head] + rest;
    forall i, j | 0 <= i < j < |res| ensures !Below(res[j].id, res[i].id) {
      assert res[j] == rest[j - 1];
      if i > 0 {
        assert res[i] == rest[i - 1];
      } else {
        assert res[i] == head && rest[j - 1] in rest;
        assert !Below(rest[j - 1].id, head.id);
      }
    }
  }

  function InsertById(t: Ticket, sorted: seq<Ticket>): (res: seq<Ticket>)
    requires SortedById(sorted)
    ensures SortedById(res)
    ensures multiset(res) == multiset(sorted) + multiset{t}
  {
    if sorted == [] || !Below(sorted[0].id, t.id) then
      InsertFrontSorted(t, sorted);
      [t] + sorted
    else
      assert sorted == [sorted[0]] + sorted[1..];
      var rest := InsertById(t, sorted[1..]);
      InsertBehindSorted(sorted[0], t, sorted[1..], rest);
      [sorted[0]] + rest
  }

  function SortById(ts: seq<Ticket>): (res: seq<Ticket>)
    ensures SortedById(res) && multiset(res) == multiset(ts)
  {
    if ts == [] then []
    else
      assert ts == ts[..|ts| - 1] + [ts[|ts| - 1]];
      InsertById(ts[|ts| - 1], SortById(ts[..|ts| - 1]))
  }

  /**
   * `get_unmatched_tickets()`: exactly the tickets without an account and
   * without an extraction status, each once, ordered by ticket number.
   */
  function GetUnmatchedTickets(snow: seq<Ticket>): (res: seq<Ticket>)
    ensures SortedById(res)
    ensures multiset(res) == multiset(Needy(snow))
    ensures forall t :: t in res <==> t in snow && NeedsExtraction(t)
  {
    var res := SortById(Needy(snow));
    assert forall t :: t in res <==> t in multiset(Needy(snow));
    res
  }

  /** The status `update_ticket_text` stores: 'extracted' exactly when `text and text.strip()` holds. */
  function ExtractionStatus(text: Option<string>): (status: string)
    ensures status == "extracted" <==> HasContent(text)
    ensures status == "extracted" || status == "nothing_to_extract"
  {
    if HasContent(text) then "extracted" else "nothing_to_extract"
  }

  /** A text counts as extracted exactly when it is present and holds a non-whitespace character. */
  lemma ExtractedIffNonBlank(text: Option<string>)
    ensures ExtractionStatus(text) == "extracted" <==>
      text.Some? && exists i :: 0 <= i < |text.value| && !IsSpace(text.value[i])
  {
    HasContentIffNonBlank(text);
  }

  /** `UPDATE snow SET text = ?, extraction_status = ? WHERE ticket = ?` */
  function WithText(snow: seq<Ticket>, id: string, text: Option<string>, status: Option<string>): (res: seq<Ticket>)
    ensures |res| == |snow|
    ensures forall i :: 0 <= i < |snow| ==>
      res[i] == if snow[i].id == id then snow[i].(text := text, extractionStatus := status) else snow[i]
    ensures IdsUnique(snow) ==> IdsUnique(res)
  {
    var res := seq(|snow|, i requires 0 <= i < |snow| =>
      if snow[i].id == id then snow[i].(text := text, extractionStatus := status) else snow[i]);
    assert forall i :: 0 <= i < |snow| ==> res[i].id == snow[i].id;
    res
  }

  /** `update_ticket_text(ticket_number, text)`: stores the text and its status, nothing else. */
  method UpdateTicketText(db: Database, ticketNumber: string, text: Option<string>)
    requires db.Valid()
    modifies db
    ensures db.Valid() && db.sap == old(db.sap)
    ensures db.snow == WithText(old(db.snow), ticketNumber, text, Some(ExtractionStatus(text)))
  {
    var status := if text.Some? && text.value != [] && Strip(text.value) != [] then "extracted" else "nothing_to_extract";
    db.snow := WithText(db.snow, ticketNumber, text, Some(status));
  }

  /** `update_ticket_account(ticket_number, account_number, account_name)`: sets both account columns, nothing else. */
  method UpdateTicketAccount(db: Database, ticketNumber: string, accountNumber: string, accountName: string)
    requires db.Valid()
    modifies db
    ensures db.Valid() && db.sap == old(db.sap)
    ensures db.snow == WithAccount(old(db.snow), ticketNumber, Some(accountNumber), Some(accountName))
  {
    var res := WithAccount(db.snow, ticketNumber, Some(accountNumber), Some(accountName));
    assert forall i :: 0 <= i < |res| ==> res[i].id == db.snow[i].id;
    db.snow := res;
  }

  /**
   * What the browser yields for one ticket: the navigation to the ticket's
   * search page raised (outside the per-ticket `try`, so the session ends),
   * an exception inside the `try` before anything was stored, no link to
   * follow in the 'Created' column, or the body of the opened email (an
   * absent body reads as "").
   */
  datatype PageOutcome = NavigationFailed | PageError | LinkNotFound | EmailOpened(body: string)

  /** The outcomes under which the ticket's text and status get stored. */
  predicate Opened(outcome: PageOutcome) {
    outcome.LinkNotFound? || outcome.EmailOpened?
  }

  /** The table after one iteration of the ticket loop of `manual_debug_session`. */
  function Visit(snow: seq<Ticket>, id: string, outcome: PageOutcome, sap: seq<Record>): seq<Ticket> {
    match outcome
    case NavigationFailed => snow
    case PageError => snow
    case LinkNotFound => WithText(snow, id, Some(""), Some(ExtractionStatus(Some(""))))
    case EmailOpened(body) =>
      var stored := WithText(snow, id, Some(body), Some(ExtractionStatus(Some(body))));
      var ms := EmailAccountMatches(body, sap);
      if HasContent(Some(body)) && ms != [] then
        WithAccount(stored, id, Some(AccountNumberOf(ms[0])), Some(AccountNameOf(ms[0])))
      else stored
  }

  /** One iteration of the ticket loop of `manual_debug_session`, given the browser's outcome. */
  method VisitTicket(db: Database, ticketNumber: string, outcome: PageOutcome)
    requires db.Valid()
    modifies db
    ensures db.Valid() && db.sap == old(db.sap)
    ensures db.snow == Visit(old(db.snow), ticketNumber, outcome, db.sap)
  {
    match outcome
    case NavigationFailed =>
    case PageError =>
    case LinkNotFound =>
      UpdateTicketText(db, ticketNumber, Some(""));
    case EmailOpened(emailText) =>
      UpdateTicketText(db, ticketNumber, Some(emailText));
      if emailText != [] && Strip(emailText) != [] {
        var matches := FindAccountInText(emailText, db.sap);
        if matches != [] {
          var m := matches[0];
          var accountNumber := if m.record.customer != "" then m.record.customer else m.code;
          var accountName := if m.record.name != "" then m.record.name else "";
          UpdateTicketAccount(db, ticketNumber, accountNumber, accountName);
        }
      }
  }

  /** The email engine assigns the same account pair as `process_all_tickets` would for that text. */
  lemma EmailAssignmentAgrees(text: string, sap: seq<Record>)
    ensures var ms := EmailAccountMatches(text, sap);
      && (ms == [] <==> Assignment(text, sap).0.None?)
      && (ms != [] ==> Assignment(text, sap) == (Some(AccountNumberOf(ms[0])), Some(AccountNameOf(ms[0]))))
  {
  }

  /**
   * One visit changes only the visited ticket. A failed navigation or a
   * page error leaves it as it was; otherwise its text and status are stored, and its account pair is
   * overwritten with what `process_all_tickets` would assign to the email
   * text, only when that text has content and matches; the pair is never
   * cleared.
   */
  lemma VisitChanges(snow: seq<Ticket>, id: string, outcome: PageOutcome, sap: seq<Record>)
    ensures var res := Visit(snow, id, outcome, sap);
      && |res| == |snow|
      && forall i :: 0 <= i < |snow| ==>
        && (snow[i].id != id || !Opened(outcome) ==> res[i] == snow[i])
        && (snow[i].id == id ==>
          && res[i].(text := snow[i].text, extractionStatus := snow[i].extractionStatus,
                     accountNumber := snow[i].accountNumber, accountName := snow[i].accountName) == snow[i]
          && (outcome.LinkNotFound? ==> res[i].text == Some("") && res[i].extractionStatus == Some("nothing_to_extract"))
          && (outcome.EmailOpened? ==>
                res[i].text == Some(outcome.body) && res[i].extractionStatus == Some(ExtractionStatus(Some(outcome.body))))
          && (res[i].accountNumber, res[i].accountName) ==
               if outcome.EmailOpened? && HasContent(Some(outcome.body)) && Assignment(outcome.body, sap).0.Some?
               then Assignment(outcome.body, sap)
               else (snow[i].accountNumber, snow[i].accountName))
  {
    if outcome.EmailOpened? {
      EmailAssignmentAgrees(outcome.body, sap);
    }
  }

  /** Once a ticket's page has been opened it has a status, so the selection no longer picks it. */
  predicate StatusSet(t: Ticket) {
    t.extractionStatus.Some? && t.extractionStatus.value != ""
  }

  lemma VisitSetsStatus(snow: seq<Ticket>, id: string, outcome: PageOutcome, sap: seq<Record>)
    ensures var res := Visit(snow, id, outcome, sap);
      forall i :: 0 <= i < |snow| ==>
        && (StatusSet(snow[i]) ==> StatusSet(res[i]))
        && (snow[i].id == id && Opened(outcome) ==> StatusSet(res[i]) && !NeedsExtraction(res[i]))
  {
    VisitChanges(snow, id, outcome, sap);
  }

  /** The table after the ticket loop has visited `queue` in order. */
  function VisitAll(snow: seq<Ticket>, queue: seq<Ticket>, browse: string -> PageOutcome, sap: seq<Record>): seq<Ticket> {
    if queue == [] then snow
    else
      var last := queue[|queue| - 1];
      Visit(VisitAll(snow, queue[..|queue| - 1], browse, sap), last.id, browse(last.id), sap)
  }

  /**
   * How many queued tickets the loop visits: it stops at the first ticket
   * whose navigation fails, since that exception escapes the loop.
   */
  function Reached(queue: seq<Ticket>, browse: string -> PageOutcome): (n: nat)
    ensures n <= |queue|
    ensures forall k :: 0 <= k < n ==> !browse(queue[k].id).NavigationFailed?
    ensures n < |queue| ==> browse(queue[n].id).NavigationFailed?
  {
    if queue == [] || browse(queue[0].id).NavigationFailed? then 0
    else
      var n := 1 + Reached(queue[1..], browse);
      assert forall k :: 1 <= k < n ==> queue[k] == queue[1..][k - 1];
      n
  }

  /** The table after `manual_debug_session()`: the visits of the selected tickets before the first failed navigation. */
  function Session(snow: seq<Ticket>, browse: string -> PageOutcome, sap: seq<Record>): seq<Ticket> {
    var queue := GetUnmatchedTickets(snow);
    VisitAll(snow, queue[..Reached(queue, browse)], browse, sap)
  }

  /**
   * `manual_debug_session()` after login: visit the tickets the selection
   * returned at the start, in that order, until a navigation fails.
   */
  method ManualDebugSession(db: Database, browse: string -> PageOutcome)
    requires db.Valid()
    modifies db
    ensures db.Valid() && db.sap == old(db.sap)
    ensures db.snow == Session(old(db.snow), browse, db.sap)
  {
    var tickets := GetUnmatchedTickets(db.snow);
    var i := 0;
    while i < |tickets| && !browse(tickets[i].id).NavigationFailed?
      invariant 0 <= i <= |tickets|
      invariant forall k :: 0 <= k < i ==> !browse(tickets[k].id).NavigationFailed?
      invariant db.Valid() && db.sap == old(db.sap)
      invariant db.snow == VisitAll(old(db.snow), tickets[..i], browse, db.sap)
    {
      var ticketNumber := tickets[i].id;
      VisitTicket(db, ticketNumber, browse(ticketNumber));
      PrefixStep(tickets, i);
      i := i + 1;
    }
    assert i == Reached(tickets, browse);
  }

  /** A session keeps every row in place, never clears an account and never unsets a status. */
  lemma {:induction false} SessionKeepsRows(snow: seq<Ticket>, queue: seq<Ticket>, browse: string -> PageOutcome, sap: seq<Record>)
    ensures var res := VisitAll(snow, queue, browse, sap);
      && |res| == |snow|
      && forall i :: 0 <= i < |snow| ==>
        && res[i].id == snow[i].id
        && res[i].shortDescription == snow[i].shortDescription
        && res[i].emlDomain == snow[i].emlDomain
        && (snow[i].accountNumber.Some? ==> res[i].accountNumber.Some?)
        && (StatusSet(snow[i]) ==> StatusSet(res[i]))
  {
    if queue != [] {
      var before := VisitAll(snow, queue[..|queue| - 1], browse, sap);
      var last := queue[|queue| - 1];
      SessionKeepsRows(snow, queue[..|queue| - 1], browse, sap);
      VisitChanges(before, last.id, browse(last.id), sap);
      VisitSetsStatus(before, last.id, browse(last.id), sap);
    }
  }

  /** Every visited ticket whose page was opened ends the session with a status. */
  lemma {:induction false} SessionSetsQueuedStatuses(snow: seq<Ticket>, queue: seq<Ticket>, browse: string -> PageOutcome, sap: seq<Record>)
    ensures var res := VisitAll(snow, queue, browse, sap);
      forall i, k :: 0 <= i < |snow| && 0 <= k < |queue| && snow[i].id == queue[k].id && Opened(browse(queue[k].id))
        ==> i < |res| && StatusSet(res[i])
  {
    SessionKeepsRows(snow, queue, browse, sap);
    if queue != [] {
      var init := queue[..|queue| - 1];
      var before := VisitAll(snow, init, browse, sap);
      var last := queue[|queue| - 1];
      SessionSetsQueuedStatuses(snow, init, browse, sap);
      SessionKeepsRows(snow, init, browse, sap);
      VisitSetsStatus(before, last.id, browse(last.id), sap);
      var res := VisitAll(snow, queue, browse, sap);
      forall i, k | 0 <= i < |snow| && 0 <= k < |queue| && snow[i].id == queue[k].id && Opened(browse(queue[k].id))
        ensures StatusSet(res[i])
      {
        if k < |init| {
          assert init[k] == queue[k];
        }
      }
    }
  }

  /** A ticket whose id the visited queue does not name keeps its row unchanged. */
  lemma {:induction false} SessionFrame(snow: seq<Ticket>, queue: seq<Ticket>, browse: string -> PageOutcome, sap: seq<Record>)
    ensures var res := VisitAll(snow, queue, browse, sap);
      forall i :: 0 <= i < |snow| && (forall k :: 0 <= k < |queue| ==> queue[k].id != snow[i].id)
        ==> i < |res| && res[i] == snow[i]
  {
    SessionKeepsRows(snow, queue, browse, sap);
    if queue != [] {
      var init := queue[..|queue| - 1];
      var before := VisitAll(snow, init, browse, sap);
      var last := queue[|queue| - 1];
      SessionFrame(snow, init, browse, sap);
      SessionKeepsRows(snow, init, browse, sap);
      VisitChanges(before, last.id, browse(last.id), sap);
      forall i | 0 <= i < |snow| && (forall k :: 0 <= k < |queue| ==> queue[k].id != snow[i].id)
        ensures forall k :: 0 <= k < |init| ==> init[k].id != snow[i].id
      {
        forall k | 0 <= k < |init| ensures init[k].id != snow[i].id {
          assert init[k] == queue[k];
        }
      }
    }
  }

  /**
   * A session leaves every ticket from the first failed navigation on as it
   * was, unless an earlier visited ticket carries the same number.
   */
  lemma SessionStopsAtFailure(snow: seq<Ticket>, browse: string -> PageOutcome, sap: seq<Record>)
    ensures var queue := GetUnmatchedTickets(snow);
      var n := Reached(queue, browse);
      var res := Session(snow, browse, sap);
      forall i :: 0 <= i < |snow| && (forall k :: 0 <= k < n ==> queue[k].id != snow[i].id)
        ==> i < |res| && res[i] == snow[i]
  {
    var queue := GetUnmatchedTickets(snow);
    var n := Reached(queue, browse);
    SessionFrame(snow, queue[..n], browse, sap);
  }

  /** When no selected ticket's navigation fails, the session visits the whole selection. */
  lemma SessionVisitsWholeQueue(snow: seq<Ticket>, browse: string -> PageOutcome, sap: seq<Record>)
    requires forall t :: t in snow && NeedsExtraction(t) ==> !browse(t.id).NavigationFailed?
    ensures Session(snow, browse, sap) == VisitAll(snow, GetUnmatchedTickets(snow), browse, sap)
  {
    var queue := GetUnmatchedTickets(snow);
    QueueNeverFails(snow, queue, browse);
    ReachedEnd(queue, browse);
    assert queue[..|queue|] == queue;
  }

  /** A queue of tickets needing extraction, none of whose navigations fails, has no failing position. */
  lemma QueueNeverFails(snow: seq<Ticket>, queue: seq<Ticket>, browse: string -> PageOutcome)
    requires forall t :: t in snow && NeedsExtraction(t) ==> !browse(t.id).NavigationFailed?
    requires forall t :: t in queue ==> t in snow && NeedsExtraction(t)
    ensures forall k :: 0 <= k < |queue| ==> !browse(queue[k].id).NavigationFailed?
  {
    forall k | 0 <= k < |queue|
      ensures !browse(queue[k].id).NavigationFailed?
    {
      assert queue[k] in queue;
    }
  }

  /** With no failed navigation in the queue, the session reaches its end. */
  lemma ReachedEnd(queue: seq<Ticket>, browse: string -> PageOutcome)
    requires forall k :: 0 <= k < |queue| ==> !browse(queue[k].id).NavigationFailed?
    ensures Reached(queue, browse) == |queue|
  {
  }

  /** Visiting a queue that holds every ticket needing extraction drains the selection of every ticket whose page opens. */
  lemma QueueDrained(snow: seq<Ticket>, queue: seq<Ticket>, browse: string -> PageOutcome, sap: seq<Record>)
    requires forall t :: t in snow && NeedsExtraction(t) ==> t in queue
    ensures var res := VisitAll(snow, queue, browse, sap);
      forall i :: 0 <= i < |snow| && NeedsExtraction(snow[i]) && Opened(browse(snow[i].id))
        ==> i < |res| && !NeedsExtraction(res[i])
  {
    SessionSetsQueuedStatuses(snow, queue, browse, sap);
    SessionKeepsRows(snow, queue, browse, sap);
    var res := VisitAll(snow, queue, browse, sap);
    forall i | 0 <= i < |snow| && NeedsExtraction(snow[i]) && Opened(browse(snow[i].id))
      ensures i < |res| && !NeedsExtraction(res[i])
    {
      assert snow[i] in snow;
      var k :| 0 <= k < |queue| && queue[k] == snow[i];
    }
  }

  /**
   * When no selected ticket's navigation fails, after the session every
   * ticket that needed extraction at its start and whose page was opened
   * has left the selection.
   */
  lemma SessionDrainsQueue(snow: seq<Ticket>, browse: string -> PageOutcome, sap: seq<Record>)
    requires forall t :: t in snow && NeedsExtraction(t) ==> !browse(t.id).NavigationFailed?
    ensures var res := Session(snow, browse, sap);
      forall i :: 0 <= i < |snow| && NeedsExtraction(snow[i]) && Opened(browse(snow[i].id))
        ==> i < |res| && !NeedsExtraction(res[i])
  {
    SessionVisitsWholeQueue(snow, browse, sap);
    QueueDrained(snow, GetUnmatchedTickets(snow), browse, sap);
  }
}

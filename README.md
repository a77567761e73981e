# rnb_snow account matching, modelled in Dafny

rnb_snow reconciles service-desk tickets (the `snow` table) with an ERP
export of open items (the `sap` table). Its core is a text scanner. It
pulls three kinds of numeric candidate out of a ticket's short description:

- `ddd-ddddd` codes;
- `dd-dddddd` codes;
- bare 8-10 digit numbers.

Each candidate is classified by its length and prefix. Customer-code
candidates are looked up by customer, falling back to a hard-coded range
check when no row exists. Invoice numbers are looked up by document number
or reference. `process_all_tickets` then stores the first match as the
ticket's account.

Around that engine sit:

- the loaders: the `sap` upsert on `(customer, document_number)`, and a
  ticket merge that never overwrites what matching and email extraction
  stored;
- `update_database`, which chains clear, load and match;
- the statistics counters;
- the email-side copy of the engine in `selenium_debug_session.py`, which
  keeps one match per candidate;
- the rules that decide which tickets still need their email read, and
  what one visit does to a ticket.

The model is split into these modules:

| module | file | models |
|---|---|---|
| `Wrappers` | wrappers.dfy | `Option`, for SQL NULL and absent values |
| `Text` | text.dfy | the following Python built-ins: ASCII `\d`/`\w`; `str.strip()`; `int(str)` in base 10; and the code-point order `ORDER BY ticket` uses |
| `Tables` | tables.dfy | the two tables as a `Database` class with `seq` fields; the customer lookup and the document/reference lookup |
| `Tokens` | tokens.dfy | the three `re.findall` patterns, as left-to-right scanners |
| `Matching` | matching.dfy | `is_valid_account_range` and `find_account_matches` |
| `Loaders` | loaders.dfy | `load_sap_data`, `clear_sap_data`, `load_snow_data` |
| `Reconcile` | reconcile.dfy | `process_all_tickets`, `update_database`, `get_database_stats` |
| `EmailMatching` | email_matching.dfy | the selenium copies of `is_valid_account_range` and `find_account_in_text` |
| `DebugSession` | debug_session.dfy | `get_unmatched_tickets`, `update_ticket_text`, `update_ticket_account`, the ticket loop of `manual_debug_session` |

The state-changing operations are methods on the `Database` object.
Each one is proved to leave the tables equal to a specification function
of the old tables and its inputs. The properties are then proved about
those functions. The SQLite tables are modelled this way:

- `sap` is a sequence in insertion order. `INSERT OR REPLACE` is
  delete-then-append. The model lets a `SELECT` without `ORDER BY` return
  rows in that order; the order SQLite itself uses is left out (see
  below).
- `snow` is a sequence whose ids are unique (the primary key).
  `UPDATE ... WHERE ticket = ?` maps over the rows with that id.

## Model

| member | source | states |
|---|---|---|
| Text.Strip | selenium_debug_session.py:76 | `strip()` leaves no whitespace at either end and never lengthens the text |
| Text.StripIsTrimmedSlice | selenium_debug_session.py:76 | `strip()` returns a slice `s[a..b]` with only whitespace before a and from b on, so it removes exactly the leading and trailing whitespace |
| Text.StripEmptyIffBlank | selenium_debug_session.py:76 | stripping yields the empty string exactly when every character is whitespace |
| Text.HasContentIffNonBlank | selenium_debug_session.py:326 | `text and text.strip()` holds exactly when the text is present and has a non-whitespace character |
| Text.ParseInt | create_database.py:192 | `int(s)` of a non-empty all-digit string is its decimal value; every string `int()` accepts contains a digit |
| Text.BelowIrreflexive | selenium_debug_session.py:49 | no ticket number sorts before itself |
| Text.BelowTransitive | selenium_debug_session.py:49 | the `ORDER BY ticket` order is transitive |
| Text.BelowTotal | selenium_debug_session.py:49 | any two distinct ticket numbers are ordered one way or the other |
| Text.BelowAsymmetric | selenium_debug_session.py:49 | two ticket numbers are never each before the other |
| Tables.ByCustomer | create_database.py:228-229 | `SELECT * FROM sap WHERE customer = ?` returns exactly the rows of that customer, and never more rows than the table |
| Tables.ByDocumentOrReference | create_database.py:278-279 | the invoice lookup returns exactly the rows whose document number or reference equals the number |
| Tables.ByCustomerConcat | create_database.py:228-229 | the customer lookup keeps table order: on a concatenation it returns the first part's rows, then the second part's |
| Tables.ByCustomerCount | create_database.py:228-229 | each row of that customer comes back exactly as often as the table holds it; rows of other customers never |
| Tables.ByCustomerFirst | create_database.py:228-229 | the first row returned is the customer's first row in the table |
| Tables.ByDocumentOrReferenceConcat | create_database.py:278-279 | the invoice lookup keeps table order on a concatenation |
| Tables.ByDocumentOrReferenceCount | create_database.py:278-279 | each row holding the number as document number or reference comes back exactly as often as the table holds it; other rows never |
| Tables.ByDocumentOrReferenceFirst | create_database.py:278-279 | the first row returned is the table's first row holding the number |
| Tables.KeyedRowOnce | create_database.py:41 | under `PRIMARY KEY (customer, document_number)` a row occurs in the table at most once |
| Tables.Database.constructor | create_database.py:6-46 | a new database has both tables empty and satisfies the key invariants |
| Tokens.DashTokens | create_database.py:219-220 | each extracted dash pair has the two group lengths and only digits |
| Tokens.BareTokens | create_database.py:216 | each extracted bare number has 8 to 10 digits |
| Tokens.BareTokenStandsAlone | create_database.py:216 | each bare number occurs in the text with a word boundary (`\b`) on both sides |
| Tokens.BareTokensComplete | create_database.py:216 | every run of 8 to 10 digits with a word boundary on both sides is returned, wherever it stands in the text |
| Tokens.BareTokensExact | create_database.py:216 | a string is returned exactly when it has 8 to 10 characters and occurs in the text as a `\b`-bounded run of digits |
| Tokens.DashFromSound | create_database.py:219-220 | every returned pair is the two groups of a position where `\b(\d{a})-(\d{b})\b` matches |
| Tokens.DashMatchEndsBefore | create_database.py:219-220 | with the second group longer than the first, as in both layouts, two matches never overlap |
| Tokens.DashTokensExact | create_database.py:219-220 | for the 3+5 and 2+6 layouts, a pair is returned exactly when the pattern matches at some position with those groups |
| Tokens.BareFromLeftmost | create_database.py:216 | `findall` lists its numbers in text order: when the leftmost match from a position is the run at p, the list is that run followed by the matches after it |
| Tokens.DashFromLeftmost | create_database.py:219-220 | `findall` lists its pairs in text order: when the leftmost match from a position is at q, the list is q's pair followed by the matches after it |
| Tokens.NoDashAtNoPairs | create_database.py:219-220 | where the dash pattern matches at no position, `findall` returns nothing |
| Tokens.NoDigitsAtNoNumbers | create_database.py:216 | where no 8-10 digit run starts, `findall` returns nothing |
| Tokens.WholeTextNumber | create_database.py:216 | a text of 8 to 10 digits yields exactly itself |
| Tokens.NoHyphenNoPairs | create_database.py:219-220 | a text without `-` yields no dash pair |
| Tokens.WholeTextPair | create_database.py:219-220 | a text that is exactly `x-y` in the layout yields exactly the pair (x, y) |
| Tokens.PairTextNoNumbers | create_database.py:216 | a text that is exactly an 8-digit dash code yields no bare number |
| Tokens.PairTextOtherLayout | create_database.py:219-220 | a dash code of one layout is not picked up by the other layout |
| Matching.ValidRangeIsThreeIntervals | create_database.py:186-200 | the four ranges are the union of three intervals, because the first lies inside the third |
| Matching.ValidRangeOfDigits | create_database.py:186-200 | on an all-digit code, the check tests the code's decimal value against the three intervals |
| Matching.NonNumericNotValid | create_database.py:196-200 | a string without digits is rejected, which is the `ValueError` path |
| Matching.CustomerMatches | create_database.py:226-235 | with k ≥ 1 rows of that customer, exactly k matches on those rows; with none, one placeholder match exactly when the code is in range, else nothing |
| Matching.InvoiceMatches | create_database.py:276-281 | one invoice match per row with that document number or reference, and no range fallback |
| Matching.CustomerMatchesPerRow | create_database.py:226-232 | with rows of that customer, each row gives as many matches as the table holds it, tagged with the found kind; under the primary key exactly one match per row |
| Matching.CustomerMatchesFirst | create_database.py:226-232 | the first match of a customer code carries the customer's first row in the table |
| Matching.InvoiceMatchesPerRow | create_database.py:276-281 | each row holding the number gives as many invoice matches as the table holds it; under the primary key exactly one per row |
| Matching.InvoiceMatchesFirst | create_database.py:276-281 | the first invoice match carries the table's first row holding the number |
| Matching.MatchDashCodes | create_database.py:224-249 | a dash loop returns the matches of every pair in list order; only 8-digit codes are looked up |
| Matching.MatchNumbers | create_database.py:252-281 | the bare-number loop classifies each number by length and `00` prefix, in list order |
| Matching.FindAccountMatches | create_database.py:202-283 | the result is the 3+5 dash matches, then the 2+6 dash matches, then the bare-number matches, without deduplication |
| Matching.CustomerMatchesSound | create_database.py:226-235 | each customer match carries a row of that customer; each fallback match carries the placeholder of an in-range code no row has |
| Matching.DashMatchesSound | create_database.py:224-249 | every dash match is sound for the table |
| Matching.NumbersMatchesSound | create_database.py:252-281 | every bare-number match is sound; a `00`-prefixed number is looked up by its last 8 digits |
| Matching.AccountMatchesSound | create_database.py:202-283 | every match of the engine is sound for the table |
| Matching.AssignedAccountSound | create_database.py:297-299 | the account a match assigns is non-empty; it is either an existing customer, or an in-range absent code named 'VALID ACCOUNT (NOT IN SAP)' |
| Matching.DigitFreeTextMatchesNothing | create_database.py:216-220 | a description without digits matches nothing |
| Matching.EightDigitText | create_database.py:265-274 | a description that is one 8-digit code is looked up as that customer |
| Matching.LoneCodeText | create_database.py:271-274 | an in-range 8-digit code that no customer has yields exactly one placeholder match |
| Matching.ZeroPrefixedText | create_database.py:253-263 | `00` followed by an 8-digit code matches exactly like the code alone |
| Matching.InvoiceTextIsInvoiceCandidate | create_database.py:276-281 | a 10-digit description not starting with `00` is an invoice candidate |
| Matching.InvoiceMatchesIffRecord | create_database.py:276-281 | an invoice number matches exactly when a row has it as document number or reference |
| Matching.InvoiceText | create_database.py:276-281 | a 10-digit invoice description matches iff such a row exists, and then only by invoice matches on that number |
| Matching.NineDigitText | create_database.py:252-281 | a 9-digit number produces no match |
| Matching.SinglePair | create_database.py:224-235 | one dash pair contributes the customer matches of its 8-digit concatenation |
| Matching.DashText | create_database.py:219-249 | a description that is exactly a 3+5 or 2+6 dash code matches like a dash lookup of the combined code |
| Matching.StandaloneNumberMatched | create_database.py:252-281 | a `\b`-bounded 8-10 digit number anywhere in a description contributes all its matches, whatever surrounds it |
| Matching.StandaloneDashCodeMatched | create_database.py:224-249 | a 3+5 or 2+6 dash code anywhere in a description contributes the customer matches of its eight digits |
| Matching.CustomerCodeInTextMatched | create_database.py:265-274 | an 8-digit code anywhere in a description is matched to every row of that customer, or to its placeholder when in range and absent |
| Matching.ZeroPrefixedCodeInTextMatched | create_database.py:253-259 | a `00`-prefixed 10-digit number anywhere in a description is matched to every row whose customer is its last eight digits |
| Matching.InvoiceNumberInTextMatched | create_database.py:276-281 | a 10-digit number not starting with `00` anywhere in a description is matched to every row with it as document number or reference |
| Loaders.WithoutKey | create_database.py:75-83 | the replace part of the upsert: it keeps exactly the rows of other keys, so keys stay unique |
| Loaders.Upserted | create_database.py:75-83 | `INSERT OR REPLACE` puts the new row last, drops the old row of its key, keeps the rest, and keeps keys unique |
| Loaders.SapAfterRows | create_database.py:70-83 | loading keeps `(customer, document_number)` unique and every customer non-empty |
| Loaders.LoadSapData | create_database.py:48-93 | the row loop leaves `sap` equal to the fold of the upsert over the kept rows; `snow` is untouched |
| Loaders.ClearSapData | create_database.py:353-358 | `sap` becomes empty; `snow` is untouched |
| Loaders.LastRowWins | create_database.py:70-83 | a kept row whose key no later kept row repeats is in the loaded table |
| Loaders.LoadedRecordOrigin | create_database.py:70-83 | every loaded record was already there or comes from a kept row; rows without a customer are dropped |
| Loaders.EmailDomain | create_database.py:115-119 | the domain exists exactly when the sender address holds an `@`, and contains no `@` |
| Loaders.EmailDomainBetweenAts | create_database.py:115-119 | the domain is the text between the first `@` and the next `@` or the end |
| Loaders.AfterScRow | create_database.py:121-135 | one sc_req_item row: an existing ticket gets only a new description and domain; a new ticket is appended with NULL account, text and status |
| Loaders.AfterGenericRow | create_database.py:145-160 | one generic row: an existing ticket gets only a new description and domain; a new ticket takes the row's account columns |
| Loaders.AfterTuple | create_database.py:169-181 | one tuple: with the ticket present the table is unchanged; otherwise exactly one row is appended, holding the tuple's six columns and a NULL status |
| Loaders.SnowAfterScRows | create_database.py:106-135 | an sc_req_item load keeps ids unique and keeps every existing ticket's position, account, text and status |
| Loaders.SnowAfterGenericRows | create_database.py:136-160 | a generic load keeps ids unique and keeps every existing ticket's position, account, text and status |
| Loaders.SnowAfterTuples | create_database.py:167-181 | a tuple load keeps ids unique and only appends |
| Loaders.LoadScRows | create_database.py:106-135 | the sc_req_item loop leaves `snow` equal to the fold of the row rule |
| Loaders.LoadGenericRows | create_database.py:136-160 | the generic loop leaves `snow` equal to the fold of the row rule |
| Loaders.LoadTuples | create_database.py:167-181 | the tuple loop leaves `snow` equal to the fold of the tuple rule |
| Loaders.LoadSnowData | create_database.py:95-184 | a file is used when given, else non-empty tuples, else nothing changes; `sap` is untouched |
| Loaders.ScNewTicketsStartBlank | create_database.py:129-134 | a ticket first seen in an sc_req_item file has NULL account, name, text and status |
| Loaders.ScRowTicketPresent | create_database.py:121-135 | after an sc_req_item load every row's ticket is in the table |
| Loaders.ScLastRowSetsBasics | create_database.py:121-135 | a ticket holds the description and domain of the last row that names it |
| Reconcile.Assignment | create_database.py:294-318 | a description gets an account pair exactly when it matches; the number and name are set or cleared together, and a set number is never empty |
| Reconcile.AssignAccount | create_database.py:294-302 | the pair computed from the engine's first match is the specified assignment |
| Reconcile.ReconcileTicket | create_database.py:293-320 | one iteration updates only that ticket's account pair and reports whether it matched |
| Reconcile.ProcessAllTickets | create_database.py:285-321 | every ticket ends with the pair its own description earns; the result counts the tickets that matched |
| Reconcile.ReconcileIdempotent | create_database.py:290-318 | running the pass twice gives the same table as running it once |
| Reconcile.ReconcileKeepsOtherFields | create_database.py:304-318 | the pass changes no field other than account number and name |
| Reconcile.AssignedAccountsSound | create_database.py:294-309 | every assigned account is a non-empty customer of the table, or an in-range absent code named 'VALID ACCOUNT (NOT IN SAP)' |
| Reconcile.NotInSapAssignment | create_database.py:271-274 | a lone in-range 8-digit code no customer has is assigned itself and the name 'VALID ACCOUNT (NOT IN SAP)' |
| Reconcile.InSapAssignment | create_database.py:296-302 | a lone 8-digit code with rows in the table is assigned itself and the name of the customer's first row |
| Reconcile.InvoiceAssignment | create_database.py:296-302 | a lone invoice number is assigned the customer (or the number, for a row without one) and the name of the first row holding it |
| Reconcile.MatchedStatIsMatchedCount | create_database.py:406-407 | after the pass, the matched-tickets statistic equals the count the pass returned |
| Reconcile.StatusTally | create_database.py:410-417 | the three status counts are disjoint, so together they never exceed the ticket count |
| Reconcile.GetDatabaseStats | create_database.py:396-433 | ticket and record totals are the table sizes; matched tickets and the status counts stay within the ticket total |
| Reconcile.UpdateDatabase | create_database.py:360-394 | a given ERP export replaces `sap`; ticket files then tuples are merged; then every ticket is reconciled and the count is returned |
| Reconcile.ReloadKeepsExtraction | create_database.py:375-393 | an update keeps every stored ticket in place with its email text and extraction status |
| EmailMatching.RangeChecksAgree | selenium_debug_session.py:167-181 | the selenium range check agrees with the create_database one on every input |
| EmailMatching.FirstCustomerMatch | selenium_debug_session.py:208-217 | a customer candidate gives at most one match, the first of what create_database gives for it |
| EmailMatching.FirstInvoiceMatch | selenium_debug_session.py:258-263 | an invoice candidate gives at most one match, the first of what create_database gives for it |
| EmailMatching.EmailDashCandidate | selenium_debug_session.py:206-217 | a dash pair gives at most one match, which is create_database's first for that pair |
| EmailMatching.EmailDashMatches | selenium_debug_session.py:206-231 | no more matches than pairs; all are create_database matches; same emptiness and first match |
| EmailMatching.EmailNumberMatch | selenium_debug_session.py:234-263 | a bare number gives at most one match, which is create_database's first for that number |
| EmailMatching.EmailNumbersMatches | selenium_debug_session.py:234-263 | no more matches than numbers; all are create_database matches; same emptiness and first match |
| EmailMatching.EmailAccountMatches | selenium_debug_session.py:183-266 | at most one match per candidate; every match is one of `find_account_matches`; both are empty together and start with the same match |
| EmailMatching.EmailMatchDashCodes | selenium_debug_session.py:206-231 | a dash loop keeps `results[0]` only, in pair order |
| EmailMatching.EmailMatchNumbers | selenium_debug_session.py:234-263 | the bare-number loop keeps `results[0]` only, in number order |
| EmailMatching.FindAccountInText | selenium_debug_session.py:183-266 | the result is the email-side match list of the text |
| DebugSession.Needy | selenium_debug_session.py:44-48 | it keeps exactly the tickets with NULL or empty account number and NULL or empty status |
| DebugSession.InsertById | selenium_debug_session.py:49 | inserting into a list ordered by ticket number keeps it ordered and adds exactly that ticket |
| DebugSession.SortById | selenium_debug_session.py:49 | `ORDER BY ticket` yields an ordered permutation of its input |
| DebugSession.GetUnmatchedTickets | selenium_debug_session.py:39-54 | exactly the tickets with no account and no status, each once, ordered by ticket number |
| DebugSession.ExtractionStatus | selenium_debug_session.py:76 | 'extracted' exactly when `text and text.strip()` holds, else 'nothing_to_extract' |
| DebugSession.ExtractedIffNonBlank | selenium_debug_session.py:76 | the status is 'extracted' exactly when the text is present with a non-whitespace character |
| DebugSession.UpdateTicketText | selenium_debug_session.py:71-86 | only that ticket's text and status change, the status being the extraction status of the text |
| DebugSession.UpdateTicketAccount | selenium_debug_session.py:56-69 | only that ticket's account number and name change, together |
| DebugSession.VisitTicket | selenium_debug_session.py:302-352 | one visit leaves the table equal to the per-ticket outcome rule |
| DebugSession.EmailAssignmentAgrees | selenium_debug_session.py:330-335 | the account pair from the email engine's first match is the one `process_all_tickets` assigns for the same text |
| DebugSession.VisitChanges | selenium_debug_session.py:306-349 | a failed navigation or a page error changes nothing; a missing link stores '' and 'nothing_to_extract'; an email stores its text and status; the account changes only for a non-blank email that matches, and is never cleared; no other ticket changes |
| DebugSession.VisitSetsStatus | selenium_debug_session.py:317-346 | a visit that reaches the link lookup gives the ticket a status, so it leaves the selection; a set status stays set |
| DebugSession.Reached | selenium_debug_session.py:302-306 | the loop reaches every ticket before the first one whose navigation raises, and stops at that one |
| DebugSession.ManualDebugSession | selenium_debug_session.py:268-352 | the session visits the initially selected tickets in order, up to the first failed navigation, and leaves the table equal to those visits |
| DebugSession.SessionKeepsRows | selenium_debug_session.py:302-352 | a session keeps every row with its id, description and domain, never clears an account and never unsets a status |
| DebugSession.SessionSetsQueuedStatuses | selenium_debug_session.py:302-352 | every visited ticket whose page was opened ends with a status |
| DebugSession.SessionFrame | selenium_debug_session.py:302-352 | a ticket the visited tickets do not name keeps its row unchanged |
| DebugSession.SessionStopsAtFailure | selenium_debug_session.py:302-306 | tickets from the first failed navigation on keep their rows, because the exception ends the session |
| DebugSession.SessionVisitsWholeQueue | selenium_debug_session.py:302-352 | when no navigation fails, the session visits the whole selection |
| DebugSession.QueueDrained | selenium_debug_session.py:302-352 | visiting a queue that holds every ticket needing extraction takes each of them whose page opens out of the selection |
| DebugSession.SessionDrainsQueue | selenium_debug_session.py:302-352 | when no navigation fails, no ticket that was selected and whose page was opened is still selected afterwards |

## Notes on the code

- An in-range code with no ERP row is matched to a placeholder record named
  'VALID ACCOUNT (NOT IN SAP)' (create_database.py:234, 248, 262, 273), and
  `process_all_tickets` stores that name (`Reconcile.NotInSapAssignment`).
- `process_all_tickets` (create_database.py:294-318) and
  `update_ticket_account` always set account number and name together.
  The generic ticket import (create_database.py:145-160) inserts them as
  separate columns, so a file with four columns stores a number without a
  name (`Loaders.AfterGenericRow`).
- `driver.get` for a ticket (selenium_debug_session.py:306) sits outside
  the per-ticket `try`, so a failed navigation ends the whole session
  (`DebugSession.Reached`, `DebugSession.SessionStopsAtFailure`).

## Left out

- Tkinter GUI, installer script, CSV export: not part of the matching core.
- Browser automation (driver setup, login polling, scrolling, clicking the
  'Created' link, reading the message field) and `time.sleep`. Their result
  per ticket is the `browse` parameter of `DebugSession.ManualDebugSession`:
  a failed navigation, a page error before anything is stored, no link, or
  the email body.
- SQLite connections, commits and the `ALTER TABLE` migration; pandas CSV
  reading, chunking, column renaming and dtype coercion. Each file is a
  sequence of typed rows. A missing file, or one that does not exist, is
  `None`.
- The catch-and-print exception paths of `load_sap_data` and
  `load_snow_data`, which can leave a load partly done. They are not modelled.
- Floating point: `match_percentage`, and the REAL currency column, which
  is an `int` here.
- `print` logging, the progress callback, and the counters that are only
  printed (`total_loaded`, `new_tickets`, `updated_tickets`).
- Unicode digits, word characters and whitespace in `\d`, `\w` and `int()`.
  Only ASCII `[0-9]` and `[A-Za-z0-9_]` are modelled; `strip()` uses
  Python's fixed whitespace set.
- A NULL short description, which would raise in `re.findall`.
  Descriptions are strings.
- A NULL name in an ERP row, which `account_name` turns into `''`. Names
  are strings here, so `Matching.AccountNameOf` is the record's name.
- The order of a `SELECT` without `ORDER BY`. SQLite chooses it; with
  `PRIMARY KEY (customer, document_number)` the customer lookup may well
  come back by document number from the key's index rather than by
  insertion. The model fixes insertion order, so which row is "first"
  (`Tables.ByCustomerFirst`, `Matching.CustomerMatchesFirst`,
  `Reconcile.InSapAssignment`, and the invoice counterparts) is relative
  to that order. Counts and membership do not depend on it.
- SQLite's treatment of NULL in a primary key: a NULL document number would
  not collide with another NULL. Document numbers are strings here.
- `show_results` (console report only) and `setup_driver`.
- DebugSession.GetUnmatchedTickets: returns the selected rows whole rather
  than the three selected columns `(ticket, short_description, eml_domain)`.
  The session uses only the ticket number.
- DebugSession.VisitTicket: an exception after the text has been stored
  (for example a database error) is not modelled. A page error is taken to
  happen before anything is stored.

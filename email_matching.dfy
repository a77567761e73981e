/**
 * The copy of the engine in selenium_debug_session.py, `find_account_in_text`:
 * the same candidates in the same order, but each candidate contributes at
 * most one match, built from the first row of its lookup.
 */
module EmailMatching {
  import opened Wrappers
  import opened Text
  import opened Tables
  import opened Tokens
  import opened Matching

  /** The selenium-side `is_valid_account_range`. */
  predicate IsValidAccountRange(accountNumber: string) {
    match ParseInt(accountNumber)
    case None => false
    case Some(num) =>
      || (20600000 <= num <= 20699999)
      || (25300000 <= num <= 25399999)
      || (20300000 <= num <= 24999999)
      || (25900000 <= num <= 25999999)
  }

  /** The two copies of the range check agree on every input. */
  lemma RangeChecksAgree(s: string)
    ensures IsValidAccountRange(s) <==> Matching.IsValidAccountRange(s)
  {
  }

  /** Two match lists are empty together and, when not empty, start with the same match. */
  predicate SameLead(xs: seq<Match>, ys: seq<Match>) {
    (xs == [] <==> ys == []) && (xs != [] ==> xs[0] == ys[0])
  }

  lemma SameLeadConcat(a: seq<Match>, b: seq<Match>, c: seq<Match>, d: seq<Match>)
    requires SameLead(a, c) && SameLead(b, d)
    ensures SameLead(a + b, c + d)
  {
    if a == [] {
      assert a + b == b && c + d == d;
    } else {
      assert (a + b)[0] == a[0] && (c + d)[0] == c[0];
    }
  }

  /** A customer candidate: a match on the first row of that customer, else the placeholder when in range. */
  function FirstCustomerMatch(code: string, sap: seq<Record>, found: Kind, fallback: Kind): (ms: seq<Match>)
    ensures |ms| <= 1 && SameLead(ms, CustomerMatches(code, sap, found, fallback))
    ensures forall m :: m in ms ==> m in CustomerMatches(code, sap, found, fallback)
  {
    var results := ByCustomer(sap, code);
    if results != [] then
      assert results[0] in results;
      assert CustomerMatches(code, sap, found, fallback) == Tagged(code, found, results);
      [Match(code, found, results[0])]
    else if IsValidAccountRange(code) then [Match(code, fallback, Placeholder(code))]
    else []
  }

  /** An invoice candidate: a match on the first row with that document number or reference. */
  function FirstInvoiceMatch(number: string, sap: seq<Record>): (ms: seq<Match>)
    ensures |ms| <= 1 && SameLead(ms, InvoiceMatches(number, sap))
    ensures forall m :: m in ms ==> m in InvoiceMatches(number, sap)
  {
    var results := ByDocumentOrReference(sap, number);
    if results != [] then
      assert InvoiceMatches(number, sap)[0] == Match(number, Invoice, results[0]);
      [Match(number, Invoice, results[0])]
    else []
  }

  function EmailDashCandidate(part1: string, part2: string, sap: seq<Record>): (ms: seq<Match>)
    ensures |ms| <= 1 && SameLead(ms, DashCandidateMatches(part1, part2, sap))
    ensures forall m :: m in ms ==> m in DashCandidateMatches(part1, part2, sap)
  {
    var combined := part1 + part2;
    if |combined| == 8 then FirstCustomerMatch(combined, sap, CustomerDash, CustomerDashValid) else []
  }

  /** The email-side matches of a list of dash pairs: at most one per pair. */
  function EmailDashMatches(pairs: seq<(string, string)>, sap: seq<Record>): (ms: seq<Match>)
    ensures |ms| <= |pairs| && SameLead(ms, DashMatches(pairs, sap))
    ensures forall m :: m in ms ==> m in DashMatches(pairs, sap)
  {
    if pairs == [] then []
    else
      var last := pairs[|pairs| - 1];
      var init := EmailDashMatches(pairs[..|pairs| - 1], sap);
      var one := EmailDashCandidate(last.0, last.1, sap);
      SameLeadConcat(init, one, DashMatches(pairs[..|pairs| - 1], sap), DashCandidateMatches(last.0, last.1, sap));
      init + one
  }

  function EmailNumberMatch(number: string, sap: seq<Record>): (ms: seq<Match>)
    ensures |ms| <= 1 && SameLead(ms, NumberMatches(number, sap))
    ensures forall m :: m in ms ==> m in NumberMatches(number, sap)
  {
    if |number| == 10 && number[..2] == "00" then
      FirstCustomerMatch(number[2..], sap, Customer, CustomerValid)
    else if |number| == 8 then
      FirstCustomerMatch(number, sap, Customer, CustomerValid)
    else if |number| == 10 && number[..2] != "00" then
      FirstInvoiceMatch(number, sap)
    else []
  }

  /** The email-side matches of a list of bare numbers: at most one per number. */
  function EmailNumbersMatches(numbers: seq<string>, sap: seq<Record>): (ms: seq<Match>)
    ensures |ms| <= |numbers| && SameLead(ms, NumbersMatches(numbers, sap))
    ensures forall m :: m in ms ==> m in NumbersMatches(numbers, sap)
  {
    if numbers == [] then []
    else
      var init := EmailNumbersMatches(numbers[..|numbers| - 1], sap);
      var one := EmailNumberMatch(numbers[|numbers| - 1], sap);
      SameLeadConcat(init, one, NumbersMatches(numbers[..|numbers| - 1], sap), NumberMatches(numbers[|numbers| - 1], sap));
      init + one
  }

  /**
   * What `find_account_in_text` returns: at most one match per candidate;
   * every one of them is also a match of `find_account_matches`; and both
   * engines agree on whether the text matches and on the first match.
   */
  function EmailAccountMatches(text: string, sap: seq<Record>): (ms: seq<Match>)
    ensures |ms| <= |DashTokens(text, 3, 5)| + |DashTokens(text, 2, 6)| + |BareTokens(text)|
    ensures SameLead(ms, AccountMatches(text, sap))
    ensures forall m :: m in ms ==> m in AccountMatches(text, sap)
  {
    var a := EmailDashMatches(DashTokens(text, 3, 5), sap);
    var b := EmailDashMatches(DashTokens(text, 2, 6), sap);
    var c := EmailNumbersMatches(BareTokens(text), sap);
    var fa := DashMatches(DashTokens(text, 3, 5), sap);
    var fb := DashMatches(DashTokens(text, 2, 6), sap);
    var fc := NumbersMatches(BareTokens(text), sap);
    SameLeadConcat(a, b, fa, fb);
    SameLeadConcat(a + b, c, fa + fb, fc);
    a + b + c
  }

  /** One of the two dash loops of `find_account_in_text`. */
  method EmailMatchDashCodes(pairs: seq<(string, string)>, sap: seq<Record>) returns (matches: seq<Match>)
    ensures matches == EmailDashMatches(pairs, sap)
  {
    matches := [];
    for i := 0 to |pairs|
      invariant matches == EmailDashMatches(pairs[..i], sap)
    {
      var (part1, part2) := pairs[i];
      var combined := part1 + part2;
      var found: seq<Match> := [];
      if |combined| == 8 {
        var results := ByCustomer(sap, combined);
        if results != [] {
          found := [Match(combined, CustomerDash, results[0])];
        } else if IsValidAccountRange(combined) {
          found := [Match(combined, CustomerDashValid, Placeholder(combined))];
        }
      }
      assert found == EmailDashCandidate(part1, part2, sap);
      PrefixStep(pairs, i);
      assert EmailDashMatches(pairs[..i + 1], sap) == EmailDashMatches(pairs[..i], sap) + found;
      matches := matches + found;
    }
    assert pairs[..|pairs|] == pairs;
  }

  /** The loop of `find_account_in_text` over the bare numbers. */
  method EmailMatchNumbers(numbers: seq<string>, sap: seq<Record>) returns (matches: seq<Match>)
    ensures matches == EmailNumbersMatches(numbers, sap)
  {
    matches := [];
    for i := 0 to |numbers|
      invariant matches == EmailNumbersMatches(numbers[..i], sap)
    {
      var number := numbers[i];
      var found: seq<Match> := [];
      if |number| == 10 && number[..2] == "00" {
        var accountNum := number[2..];
        var results := ByCustomer(sap, accountNum);
        if results != [] {
          found := [Match(accountNum, Customer, results[0])];
        } else if IsValidAccountRange(accountNum) {
          found := [Match(accountNum, CustomerValid, Placeholder(accountNum))];
        }
      } else if |number| == 8 {
        var results := ByCustomer(sap, number);
        if results != [] {
          found := [Match(number, Customer, results[0])];
        } else if IsValidAccountRange(number) {
          found := [Match(number, CustomerValid, Placeholder(number))];
        }
      } else if |number| == 10 && number[..2] != "00" {
        var results := ByDocumentOrReference(sap, number);
        if results != [] {
          found := [Match(number, Invoice, results[0])];
        }
      }
      assert found == EmailNumberMatch(number, sap);
      PrefixStep(numbers, i);
      assert EmailNumbersMatches(numbers[..i + 1], sap) == EmailNumbersMatches(numbers[..i], sap) + found;
      matches := matches + found;
    }
    assert numbers[..|numbers|] == numbers;
  }

  /** `find_account_in_text(text)`, with the `sap` table as a parameter. */
  method FindAccountInText(text: string, sap: seq<Record>) returns (matches: seq<Match>)
    ensures matches == EmailAccountMatches(text, sap)
  {
    var numbers := BareTokens(text);
    var dashNumbers35 := DashTokens(text, 3, 5);
    var dashNumbers26 := DashTokens(text, 2, 6);
    var first := EmailMatchDashCodes(dashNumbers35, sap);
    var second := EmailMatchDashCodes(dashNumbers26, sap);
    var bare := EmailMatchNumbers(numbers, sap);
    matches := first + second + bare;
  }
}

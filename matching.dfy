/**
 * The account-number extraction and matching engine of create_database.py:
 * the valid-range fallback, the classification of every extracted
 * candidate, the lookups in the `sap` table, and the ordered match list.
 */
module Matching {
  import opened Wrappers
  import opened Text
  import opened Tables
  import opened Tokens

  /** `is_valid_account_range`: `int(s)` lies in one of four hard-coded ranges; a string `int()` rejects is not valid. */
  predicate IsValidAccountRange(accountNumber: string) {
    match ParseInt(accountNumber)
    case None => false
    case Some(num) =>
      || (20600000 <= num <= 20699999)
      || (25300000 <= num <= 25399999)
      || (20300000 <= num <= 24999999)
      || (25900000 <= num <= 25999999)
  }

  /** The union of the four ranges, with the first one (inside the third) dropped. */
  predicate InValidRanges(n: int) {
    (20300000 <= n <= 24999999) || (25300000 <= n <= 25399999) || (25900000 <= n <= 25999999)
  }

  lemma ValidRangeIsThreeIntervals(s: string)
    ensures IsValidAccountRange(s) <==> ParseInt(s).Some? && InValidRanges(ParseInt(s).value)
  {
  }

  /** On a candidate made of digits only, the check is a check on its decimal value. */
  lemma ValidRangeOfDigits(s: string)
    requires s != [] && AllDigits(s)
    ensures IsValidAccountRange(s) <==> InValidRanges(DigitsValue(s))
  {
  }

  /** A string without a single digit is never a valid account. */
  lemma NonNumericNotValid(s: string)
    requires forall i :: 0 <= i < |s| ==> !IsDigit(s[i])
    ensures !IsValidAccountRange(s)
  {
  }

  /** The match kinds 'customer', 'customer_valid', 'customer_dash', 'customer_dash_valid', 'invoice'. */
  datatype Kind = Customer | CustomerValid | CustomerDash | CustomerDashValid | Invoice

  /** A `(number, match_type, sap_record)` triple. */
  datatype Match = Match(code: string, kind: Kind, record: Record)

  const NotInSapName := "VALID ACCOUNT (NOT IN SAP)"

  /** The fake record that stands for an in-range code with no `sap` row. */
  function Placeholder(code: string): Record {
    Record("", "", 0, "", NotInSapName, code)
  }

  /** `[(code, kind, result) for result in results]` */
  function Tagged(code: string, kind: Kind, results: seq<Record>): (ms: seq<Match>)
    ensures |ms| == |results|
    ensures forall i :: 0 <= i < |results| ==> ms[i] == Match(code, kind, results[i])
  {
    seq(|results|, i requires 0 <= i < |results| => Match(code, kind, results[i]))
  }

  /**
   * A customer-code candidate: one match per `sap` row of that customer,
   * in table order; with no row, the placeholder if the code is in range;
   * otherwise nothing.
   */
  function CustomerMatches(code: string, sap: seq<Record>, found: Kind, fallback: Kind): (ms: seq<Match>)
    ensures (exists r :: r in sap && r.customer == code) ==>
      && |ms| == |ByCustomer(sap, code)|
      && forall m :: m in ms <==> m.code == code && m.kind == found && m.record in sap && m.record.customer == code
    ensures (forall r :: r in sap ==> r.customer != code) ==>
      |ms| <= 1 && (ms != [] <==> IsValidAccountRange(code))
      && forall m :: m in ms ==> m == Match(code, fallback, Placeholder(code))
  {
    var results := ByCustomer(sap, code);
    if results != [] then
      assert results[0] in results;
      Tagged(code, found, results)
    else if IsValidAccountRange(code) then [Match(code, fallback, Placeholder(code))]
    else []
  }

  /** An invoice candidate: one match per row whose document number or reference equals it; no fallback. */
  function InvoiceMatches(number: string, sap: seq<Record>): (ms: seq<Match>)
    ensures |ms| == |ByDocumentOrReference(sap, number)|
    ensures forall m :: m in ms <==>
      m.code == number && m.kind == Invoice && m.record in sap
      && (m.record.documentNumber == number || m.record.reference == number)
  {
    Tagged(number, Invoice, ByDocumentOrReference(sap, number))
  }

  /** Tagging keeps counts: each record's tagged match occurs as often as the record. */
  lemma {:induction false} TaggedCount(code: string, kind: Kind, results: seq<Record>, m: Match)
    ensures multiset(Tagged(code, kind, results))[m] ==
      if m.code == code && m.kind == kind then multiset(results)[m.record] else 0
    decreases |results|
  {
    if results != [] {
      var n := |results| - 1;
      assert results == results[..n] + [results[n]];
      assert Tagged(code, kind, results) == Tagged(code, kind, results[..n]) + [Match(code, kind, results[n])];
      TaggedCount(code, kind, results[..n], m);
    }
  }

  /**
   * With rows of that customer, a customer candidate gives one match per row
   * occurrence in the table, tagged with the found kind; under the primary
   * key that is exactly one match per row.
   */
  lemma CustomerMatchesPerRow(code: string, sap: seq<Record>, found: Kind, fallback: Kind, m: Match)
    requires exists r :: r in sap && r.customer == code
    ensures multiset(CustomerMatches(code, sap, found, fallback))[m] ==
      if m.code == code && m.kind == found && m.record.customer == code then multiset(sap)[m.record] else 0
    ensures KeysUnique(sap) && m.record in sap && m.record.customer == code ==>
      multiset(CustomerMatches(code, sap, found, fallback))[Match(code, found, m.record)] == 1
  {
    var r :| r in sap && r.customer == code;
    assert r in ByCustomer(sap, code);
    TaggedCount(code, found, ByCustomer(sap, code), m);
    ByCustomerCount(sap, code, m.record);
    TaggedCount(code, found, ByCustomer(sap, code), Match(code, found, m.record));
    if KeysUnique(sap) {
      KeyedRowOnce(sap, m.record);
    }
  }

  /** The first match of a customer candidate carries the customer's first row in the table. */
  lemma CustomerMatchesFirst(code: string, sap: seq<Record>, found: Kind, fallback: Kind, i: nat)
    requires i < |sap| && sap[i].customer == code
    requires forall j :: 0 <= j < i ==> sap[j].customer != code
    ensures CustomerMatches(code, sap, found, fallback) != []
    ensures CustomerMatches(code, sap, found, fallback)[0] == Match(code, found, sap[i])
  {
    ByCustomerFirst(sap, code, i);
  }

  /** An invoice candidate gives one match per occurrence of a row holding the number; under the primary key, one per row. */
  lemma InvoiceMatchesPerRow(number: string, sap: seq<Record>, m: Match)
    ensures multiset(InvoiceMatches(number, sap))[m] ==
      if m.code == number && m.kind == Invoice && (m.record.documentNumber == number || m.record.reference == number)
      then multiset(sap)[m.record] else 0
    ensures KeysUnique(sap) && m.record in sap && (m.record.documentNumber == number || m.record.reference == number) ==>
      multiset(InvoiceMatches(number, sap))[Match(number, Invoice, m.record)] == 1
  {
    TaggedCount(number, Invoice, ByDocumentOrReference(sap, number), m);
    ByDocumentOrReferenceCount(sap, number, m.record);
    TaggedCount(number, Invoice, ByDocumentOrReference(sap, number), Match(number, Invoice, m.record));
    if KeysUnique(sap) {
      KeyedRowOnce(sap, m.record);
    }
  }

  /** The first match of an invoice candidate carries the table's first row holding the number. */
  lemma InvoiceMatchesFirst(number: string, sap: seq<Record>, i: nat)
    requires i < |sap| && (sap[i].documentNumber == number || sap[i].reference == number)
    requires forall j :: 0 <= j < i ==> sap[j].documentNumber != number && sap[j].reference != number
    ensures InvoiceMatches(number, sap) != []
    ensures InvoiceMatches(number, sap)[0] == Match(number, Invoice, sap[i])
  {
    ByDocumentOrReferenceFirst(sap, number, i);
  }

  /** One `(part1, part2)` pair of a dash layout. */
  function DashCandidateMatches(part1: string, part2: string, sap: seq<Record>): seq<Match> {
    var combined := part1 + part2;
    if |combined| == 8 then CustomerMatches(combined, sap, CustomerDash, CustomerDashValid) else []
  }

  /** The matches of a list of dash pairs, in list order. */
  function DashMatches(pairs: seq<(string, string)>, sap: seq<Record>): seq<Match> {
    if pairs == [] then []
    else
      var last := pairs[|pairs| - 1];
      DashMatches(pairs[..|pairs| - 1], sap) + DashCandidateMatches(last.0, last.1, sap)
  }

  /** One bare 8-10 digit number, classified by length and prefix. */
  function NumberMatches(number: string, sap: seq<Record>): seq<Match> {
    if |number| == 10 && number[..2] == "00" then
      CustomerMatches(number[2..], sap, Customer, CustomerValid)
    else if |number| == 8 then
      CustomerMatches(number, sap, Customer, CustomerValid)
    else if |number| == 10 && number[..2] != "00" then
      InvoiceMatches(number, sap)
    else []
  }

  /** The matches of a list of bare numbers, in list order. */
  function NumbersMatches(numbers: seq<string>, sap: seq<Record>): seq<Match> {
    if numbers == [] then []
    else NumbersMatches(numbers[..|numbers| - 1], sap) + NumberMatches(numbers[|numbers| - 1], sap)
  }

  /**
   * What `find_account_matches` returns: the matches of the 3+5 dash codes,
   * then those of the 2+6 dash codes, then those of the bare numbers, each
   * in text order, without deduplication.
   */
  function AccountMatches(text: string, sap: seq<Record>): seq<Match> {
    DashMatches(DashTokens(text, 3, 5), sap)
    + DashMatches(DashTokens(text, 2, 6), sap)
    + NumbersMatches(BareTokens(text), sap)
  }

  /**
   * One of the two dash loops of `find_account_matches` (they differ only in
   * the pair list they walk): the matches of every pair, in list order.
   */
  method MatchDashCodes(pairs: seq<(string, string)>, sap: seq<Record>) returns (matches: seq<Match>)
    ensures matches == DashMatches(pairs, sap)
  {
    matches := [];
    for i := 0 to |pairs|
      invariant matches == DashMatches(pairs[..i], sap)
    {
      var (part1, part2) := pairs[i];
      var combined := part1 + part2;
      var found: seq<Match> := [];
      if |combined| == 8 {
        var results := ByCustomer(sap, combined);
        if results != [] {
          found := Tagged(combined, CustomerDash, results);
        } else if IsValidAccountRange(combined) {
          found := [Match(combined, CustomerDashValid, Placeholder(combined))];
        }
      }
      assert found == DashCandidateMatches(part1, part2, sap);
      PrefixStep(pairs, i);
      assert DashMatches(pairs[..i + 1], sap) == DashMatches(pairs[..i], sap) + found;
      matches := matches + found;
    }
    assert pairs[..|pairs|] == pairs;
  }

  /** The loop of `find_account_matches` over the bare numbers: classify each, look it up, in list order. */
  method MatchNumbers(numbers: seq<string>, sap: seq<Record>) returns (matches: seq<Match>)
    ensures matches == NumbersMatches(numbers, sap)
  {
    matches := [];
    for i := 0 to |numbers|
      invariant matches == NumbersMatches(numbers[..i], sap)
    {
      var number := numbers[i];
      var found: seq<Match> := [];
      if |number| == 10 && number[..2] == "00" {
        var accountNum := number[2..];
        var results := ByCustomer(sap, accountNum);
        if results != [] {
          found := Tagged(accountNum, Customer, results);
        } else if IsValidAccountRange(accountNum) {
          found := [Match(accountNum, CustomerValid, Placeholder(accountNum))];
        }
      } else if |number| == 8 {
        var results := ByCustomer(sap, number);
        if results != [] {
          found := Tagged(number, Customer, results);
        } else if IsValidAccountRange(number) {
          found := [Match(number, CustomerValid, Placeholder(number))];
        }
      } else if |number| == 10 && number[..2] != "00" {
        var results := ByDocumentOrReference(sap, number);
        if results != [] {
          found := Tagged(number, Invoice, results);
        }
      }
      assert found == NumberMatches(number, sap);
      PrefixStep(numbers, i);
      assert NumbersMatches(numbers[..i + 1], sap) == NumbersMatches(numbers[..i], sap) + found;
      matches := matches + found;
    }
    assert numbers[..|numbers|] == numbers;
  }

  /** `find_account_matches(short_description, conn)`, with the `sap` table as a parameter. */
  method FindAccountMatches(shortDescription: string, sap: seq<Record>) returns (matches: seq<Match>)
    ensures matches == AccountMatches(shortDescription, sap)
  {
    var numbers := BareTokens(shortDescription);
    var dashNumbers35 := DashTokens(shortDescription, 3, 5);
    var dashNumbers26 := DashTokens(shortDescription, 2, 6);
    var first := MatchDashCodes(dashNumbers35, sap);
    var second := MatchDashCodes(dashNumbers26, sap);
    var bare := MatchNumbers(numbers, sap);
    matches := first + second + bare;
  }

  lemma PrefixStep<T>(s: seq<T>, i: nat)
    requires i < |s|
    ensures s[..i + 1][..i] == s[..i] && s[..i + 1][i] == s[i]
  {
  }

  /** The `account_number` a match assigns: the record's customer, else the extracted code. */
  function AccountNumberOf(m: Match): string {
    if m.record.customer != "" then m.record.customer else m.code
  }

  /**
   * The `account_name` a match assigns: `record[4] if record[4] else ''`.
   * Only a NULL name would be replaced; names are strings here, so this is
   * the record's name.
   */
  function AccountNameOf(m: Match): string {
    m.record.name
  }

  /**
   * What a match guarantees: a customer match carries a `sap` row of that
   * 8-digit customer; a fallback match carries the placeholder of an
   * in-range 8-digit code no row has; an invoice match carries a row whose
   * document number or reference is that 10-digit number.
   */
  ghost predicate Sound(m: Match, sap: seq<Record>) {
    match m.kind
    case Customer | CustomerDash =>
      |m.code| == 8 && AllDigits(m.code) && m.record in sap && m.record.customer == m.code
    case CustomerValid | CustomerDashValid =>
      && |m.code| == 8 && AllDigits(m.code) && m.record == Placeholder(m.code)
      && IsValidAccountRange(m.code) && (forall r :: r in sap ==> r.customer != m.code)
    case Invoice =>
      && |m.code| == 10 && AllDigits(m.code) && m.code[..2] != "00" && m.record in sap
      && (m.record.documentNumber == m.code || m.record.reference == m.code)
  }

  lemma CustomerMatchesSound(code: string, sap: seq<Record>, found: Kind, fallback: Kind)
    requires |code| == 8 && AllDigits(code)
    requires (found == Customer && fallback == CustomerValid) || (found == CustomerDash && fallback == CustomerDashValid)
    ensures forall m :: m in CustomerMatches(code, sap, found, fallback) ==> Sound(m, sap)
  {
    var ms := CustomerMatches(code, sap, found, fallback);
    if exists r :: r in sap && r.customer == code {
      forall m | m in ms ensures Sound(m, sap) {
        assert m.kind == found && m.code == code;
      }
    } else {
      forall m | m in ms ensures Sound(m, sap) {
        assert m == Match(code, fallback, Placeholder(code));
      }
    }
  }

  lemma {:induction false} DashMatchesSound(pairs: seq<(string, string)>, sap: seq<Record>)
    requires forall p :: p in pairs ==> AllDigits(p.0) && AllDigits(p.1)
    ensures forall m :: m in DashMatches(pairs, sap) ==> Sound(m, sap)
  {
    if pairs != [] {
      var last := pairs[|pairs| - 1];
      DashMatchesSound(pairs[..|pairs| - 1], sap);
      var combined := last.0 + last.1;
      assert AllDigits(combined) by {
        forall i | 0 <= i < |combined| ensures IsDigit(combined[i]) {
          if i >= |last.0| { assert combined[i] == last.1[i - |last.0|]; }
        }
      }
      if |combined| == 8 {
        CustomerMatchesSound(combined, sap, CustomerDash, CustomerDashValid);
      }
    }
  }

  lemma {:induction false} NumbersMatchesSound(numbers: seq<string>, sap: seq<Record>)
    requires forall t :: t in numbers ==> AllDigits(t)
    ensures forall m :: m in NumbersMatches(numbers, sap) ==> Sound(m, sap)
  {
    if numbers != [] {
      var number := numbers[|numbers| - 1];
      assert number in numbers;
      NumbersMatchesSound(numbers[..|numbers| - 1], sap);
      if |number| == 10 && number[..2] == "00" {
        assert AllDigits(number[2..]) by {
          forall i | 0 <= i < 8 ensures IsDigit(number[2..][i]) { assert number[2..][i] == number[i + 2]; }
        }
        CustomerMatchesSound(number[2..], sap, Customer, CustomerValid);
      } else if |number| == 8 {
        CustomerMatchesSound(number, sap, Customer, CustomerValid);
      }
    }
  }

  /** Every match the engine returns is sound with respect to the `sap` table. */
  lemma AccountMatchesSound(text: string, sap: seq<Record>)
    ensures forall m :: m in AccountMatches(text, sap) ==> Sound(m, sap)
  {
    DashMatchesSound(DashTokens(text, 3, 5), sap);
    DashMatchesSound(DashTokens(text, 2, 6), sap);
    NumbersMatchesSound(BareTokens(text), sap);
  }

  /**
   * The account a match assigns is a customer of the `sap` table, or an
   * in-range code the table does not have, named by the placeholder; and
   * it is never empty.
   */
  lemma AssignedAccountSound(text: string, sap: seq<Record>, m: Match)
    requires CustomersNonEmpty(sap) && m in AccountMatches(text, sap)
    ensures AccountNumberOf(m) != ""
    ensures || (exists r :: r in sap && r.customer == AccountNumberOf(m))
            || (IsValidAccountRange(AccountNumberOf(m)) && AccountNameOf(m) == NotInSapName
                && forall r :: r in sap ==> r.customer != AccountNumberOf(m))
  {
    AccountMatchesSound(text, sap);
    assert Sound(m, sap);
  }

  /** A text without digits yields no match. */
  lemma DigitFreeTextMatchesNothing(text: string, sap: seq<Record>)
    requires forall i :: 0 <= i < |text| ==> !IsDigit(text[i])
    ensures AccountMatches(text, sap) == []
  {
    forall a: nat, b: nat, p | 0 <= p < |text| && a == 3 && b == 5 ensures !DashAt(text, p, a, b) {
      if p + a + 1 + b <= |text| { assert text[p..p + a][0] == text[p]; }
    }
    forall a: nat, b: nat, p | 0 <= p < |text| && a == 2 && b == 6 ensures !DashAt(text, p, a, b) {
      if p + a + 1 + b <= |text| { assert text[p..p + a][0] == text[p]; }
    }
    forall p, k | 0 <= p < |text| && 8 <= k <= 10 ensures !DigitsAt(text, p, k) {
      if p + k <= |text| { assert text[p..p + k][0] == text[p]; }
    }
    NoDashAtNoPairs(text, 0, 3, 5);
    NoDashAtNoPairs(text, 0, 2, 6);
    NoDigitsAtNoNumbers(text, 0);
  }

  /** A text that is exactly an 8-digit code is a customer candidate for that code. */
  lemma EightDigitText(c: string, sap: seq<Record>)
    requires |c| == 8 && AllDigits(c)
    ensures AccountMatches(c, sap) == CustomerMatches(c, sap, Customer, CustomerValid)
  {
    NoHyphenNoPairs(c, 3, 5);
    NoHyphenNoPairs(c, 2, 6);
    WholeTextNumber(c);
    assert NumbersMatches([c], sap) == NumbersMatches([], sap) + NumberMatches(c, sap);
  }

  /** A text that is exactly a valid-range 8-digit code no customer has yields the placeholder alone. */
  lemma LoneCodeText(c: string, sap: seq<Record>)
    requires |c| == 8 && AllDigits(c) && IsValidAccountRange(c)
    requires forall r :: r in sap ==> r.customer != c
    ensures AccountMatches(c, sap) == [Match(c, CustomerValid, Placeholder(c))]
  {
    EightDigitText(c, sap);
    var ms := CustomerMatches(c, sap, Customer, CustomerValid);
    assert ms[0] in ms;
  }

  /** `00` followed by an 8-digit code behaves exactly as the code alone. */
  lemma ZeroPrefixedText(c: string, sap: seq<Record>)
    requires |c| == 8 && AllDigits(c)
    ensures AccountMatches("00" + c, sap) == AccountMatches(c, sap)
  {
    var n := "00" + c;
    assert AllDigits(n) by {
      forall i | 0 <= i < |n| ensures IsDigit(n[i]) {
        if i >= 2 { assert n[i] == c[i - 2]; }
      }
    }
    NoHyphenNoPairs(n, 3, 5);
    NoHyphenNoPairs(n, 2, 6);
    WholeTextNumber(n);
    assert NumbersMatches([n], sap) == NumbersMatches([], sap) + NumberMatches(n, sap);
    assert n[..2] == "00" && n[2..] == c;
    EightDigitText(c, sap);
  }

  /** A 10-digit text not starting with `00` is one invoice candidate. */
  lemma InvoiceTextIsInvoiceCandidate(n: string, sap: seq<Record>)
    requires |n| == 10 && AllDigits(n) && n[..2] != "00"
    ensures AccountMatches(n, sap) == InvoiceMatches(n, sap)
  {
    NoHyphenNoPairs(n, 3, 5);
    NoHyphenNoPairs(n, 2, 6);
    WholeTextNumber(n);
    assert NumbersMatches([n], sap) == NumbersMatches([], sap) + NumberMatches(n, sap);
  }

  /** An invoice candidate matches iff some row has it as document number or reference. */
  lemma InvoiceMatchesIffRecord(n: string, sap: seq<Record>)
    ensures InvoiceMatches(n, sap) != [] <==> exists r :: r in sap && (r.documentNumber == n || r.reference == n)
  {
    var ms := InvoiceMatches(n, sap);
    if ms != [] {
      assert ms[0] in ms;
    }
    if exists r :: r in sap && (r.documentNumber == n || r.reference == n) {
      var r :| r in sap && (r.documentNumber == n || r.reference == n);
      assert Match(n, Invoice, r) in ms;
    }
  }

  /** A 10-digit text not starting with `00` matches iff a row has it as document number or reference; no fallback. */
  lemma InvoiceText(n: string, sap: seq<Record>)
    requires |n| == 10 && AllDigits(n) && n[..2] != "00"
    ensures AccountMatches(n, sap) != [] <==> exists r :: r in sap && (r.documentNumber == n || r.reference == n)
    ensures forall m :: m in AccountMatches(n, sap) ==> m.kind == Invoice && m.code == n
  {
    InvoiceTextIsInvoiceCandidate(n, sap);
    InvoiceMatchesIffRecord(n, sap);
  }

  /** A 9-digit number is extracted but never matched. */
  lemma NineDigitText(n: string, sap: seq<Record>)
    requires |n| == 9 && AllDigits(n)
    ensures AccountMatches(n, sap) == []
  {
    NoHyphenNoPairs(n, 3, 5);
    NoHyphenNoPairs(n, 2, 6);
    WholeTextNumber(n);
    assert NumbersMatches([n], sap) == NumbersMatches([], sap) + NumberMatches(n, sap);
  }

  lemma SinglePair(x: string, y: string, sap: seq<Record>)
    requires |x| + |y| == 8
    ensures DashMatches([(x, y)], sap) == CustomerMatches(x + y, sap, CustomerDash, CustomerDashValid)
  {
    assert [(x, y)][..0] == [];
  }

  /** `DDD-DDDDD` and `DD-DDDDDD` are the customer candidate of their digits, tagged as dash matches. */
  lemma DashText(x: string, y: string, sap: seq<Record>)
    requires AllDigits(x) && AllDigits(y)
    requires (|x| == 3 && |y| == 5) || (|x| == 2 && |y| == 6)
    ensures AccountMatches(x + "-" + y, sap) == CustomerMatches(x + y, sap, CustomerDash, CustomerDashValid)
  {
    var s := x + "-" + y;
    PairTextNoNumbers(x, y);
    assert NumbersMatches(BareTokens(s), sap) == [];
    SinglePair(x, y, sap);
    if |x| == 3 {
      WholeTextPair(x, y, 3, 5);
      PairTextOtherLayout(x, y, 2);
      assert DashMatches(DashTokens(s, 2, 6), sap) == [];
    } else {
      WholeTextPair(x, y, 2, 6);
      PairTextOtherLayout(x, y, 3);
      assert DashMatches(DashTokens(s, 3, 5), sap) == [];
    }
  }

  /** The matches of one listed bare number are among the matches of the whole list. */
  lemma {:induction false} NumbersMatchesIncludes(numbers: seq<string>, n: string, sap: seq<Record>)
    requires n in numbers
    ensures forall m :: m in NumberMatches(n, sap) ==> m in NumbersMatches(numbers, sap)
    decreases |numbers|
  {
    var init := numbers[..|numbers| - 1];
    if n != numbers[|numbers| - 1] {
      assert numbers == init + [numbers[|numbers| - 1]];
      NumbersMatchesIncludes(init, n, sap);
    }
  }

  /** The matches of one listed dash pair are among the matches of the whole list. */
  lemma {:induction false} DashMatchesIncludes(pairs: seq<(string, string)>, pair: (string, string), sap: seq<Record>)
    requires pair in pairs
    ensures forall m :: m in DashCandidateMatches(pair.0, pair.1, sap) ==> m in DashMatches(pairs, sap)
    decreases |pairs|
  {
    var init := pairs[..|pairs| - 1];
    if pair != pairs[|pairs| - 1] {
      assert pairs == init + [pairs[|pairs| - 1]];
      DashMatchesIncludes(init, pair, sap);
    }
  }

  /**
   * A bare 8-10 digit number anywhere in a description, set off by word
   * boundaries, contributes all its matches, whatever text surrounds it.
   */
  lemma StandaloneNumberMatched(text: string, p: nat, k: nat, sap: seq<Record>)
    requires 8 <= k <= 10 && DigitsAt(text, p, k)
    ensures forall m :: m in NumberMatches(text[p..p + k], sap) ==> m in AccountMatches(text, sap)
  {
    BareTokensComplete(text, p, k);
    NumbersMatchesIncludes(BareTokens(text), text[p..p + k], sap);
  }

  /**
   * A `DDD-DDDDD` or `DD-DDDDDD` code anywhere in a description contributes
   * the customer matches of its eight digits, whatever text surrounds it.
   */
  lemma StandaloneDashCodeMatched(text: string, q: nat, a: nat, b: nat, sap: seq<Record>)
    requires (a == 3 && b == 5) || (a == 2 && b == 6)
    requires DashAt(text, q, a, b)
    ensures forall m ::
      m in CustomerMatches(text[q..q + a] + text[q + a + 1..q + a + 1 + b], sap, CustomerDash, CustomerDashValid)
      ==> m in AccountMatches(text, sap)
  {
    var pair := (text[q..q + a], text[q + a + 1..q + a + 1 + b]);
    DashFromComplete(text, 0, q, a, b);
    DashMatchesIncludes(DashTokens(text, a, b), pair, sap);
  }

  /**
   * An 8-digit code set off by word boundaries anywhere in a description is
   * matched to every `sap` row of that customer; with no such row, an
   * in-range code is matched to its placeholder.
   */
  lemma CustomerCodeInTextMatched(text: string, p: nat, sap: seq<Record>)
    requires DigitsAt(text, p, 8)
    ensures var c := text[p..p + 8];
      && (forall r :: r in sap && r.customer == c ==> Match(c, Customer, r) in AccountMatches(text, sap))
      && ((forall r :: r in sap ==> r.customer != c) && IsValidAccountRange(c) ==>
            Match(c, CustomerValid, Placeholder(c)) in AccountMatches(text, sap))
  {
    var c := text[p..p + 8];
    StandaloneNumberMatched(text, p, 8, sap);
    var ms := CustomerMatches(c, sap, Customer, CustomerValid);
    assert NumberMatches(c, sap) == ms;
    if (forall r :: r in sap ==> r.customer != c) && IsValidAccountRange(c) {
      assert ms[0] in ms;
    }
  }

  /**
   * A 10-digit number not starting with `00`, set off by word boundaries
   * anywhere in a description, is matched to every row that has it as
   * document number or reference.
   */
  lemma InvoiceNumberInTextMatched(text: string, p: nat, sap: seq<Record>, r: Record)
    requires DigitsAt(text, p, 10) && text[p..p + 2] != "00"
    requires r in sap && (r.documentNumber == text[p..p + 10] || r.reference == text[p..p + 10])
    ensures Match(text[p..p + 10], Invoice, r) in AccountMatches(text, sap)
  {
    var n := text[p..p + 10];
    assert n[..2] == text[p..p + 2];
    StandaloneNumberMatched(text, p, 10, sap);
    assert NumberMatches(n, sap) == InvoiceMatches(n, sap);
  }

  /**
   * A 10-digit number starting with `00`, set off by word boundaries
   * anywhere in a description, is matched to every row whose customer is its
   * last eight digits.
   */
  lemma ZeroPrefixedCodeInTextMatched(text: string, p: nat, sap: seq<Record>, r: Record)
    requires DigitsAt(text, p, 10) && text[p..p + 2] == "00"
    requires r in sap && r.customer == text[p + 2..p + 10]
    ensures Match(text[p + 2..p + 10], Customer, r) in AccountMatches(text, sap)
  {
    var n := text[p..p + 10];
    assert n[..2] == text[p..p + 2] && n[2..] == text[p + 2..p + 10];
    StandaloneNumberMatched(text, p, 10, sap);
    assert NumberMatches(n, sap) == CustomerMatches(n[2..], sap, Customer, CustomerValid);
  }
}

/** The Customer entity (models/Customer.cpp, models/Customer.h): full name,
    the e-mail, phone and licence-number checks, validation, and whether the
    driving licence is still valid on a given day. A Customer is a value; its
    setters are datatype updates. The regular expressions of the source are
    written out as character-class predicates. */
module Customers {
  import opened Text
  import opened Dates
  import Records

  datatype Customer = Customer(
    customerId: int,
    firstName: string,
    lastName: string,
    email: string,
    phone: string,
    address: string,
    licenseNumber: string,
    licenseExpiry: string)

  /** Customer(): id 0 and every text empty; also the "not found" value. */
  function DefaultCustomer(): (c: Customer)
    ensures c.customerId == 0 && c.firstName == "" && c.licenseExpiry == ""
    ensures !IsValid(c)
  {
    Customer(0, "", "", "", "", "", "", "")
  }

  /** The field constructor: every field given, no id yet. */
  function NewCustomer(firstName: string, lastName: string, email: string, phone: string,
                       address: string, licenseNumber: string, licenseExpiry: string): (c: Customer)
    ensures c.customerId == 0 && c.firstName == firstName && c.lastName == lastName
    ensures c.email == email && c.phone == phone && c.address == address
    ensures c.licenseNumber == licenseNumber && c.licenseExpiry == licenseExpiry
  {
    Customer(0, firstName, lastName, email, phone, address, licenseNumber, licenseExpiry)
  }

  /** getFullName: first name, one space, last name. */
  function FullName(c: Customer): (r: string)
    ensures |r| == |c.firstName| + 1 + |c.lastName|
    ensures r[..|c.firstName|] == c.firstName && r[|c.firstName|] == ' '
    ensures r[|c.firstName| + 1..] == c.lastName
  {
    c.firstName + " " + c.lastName
  }

  // ---------------------------------------------------------------------------
  // E-mail: [a-zA-Z0-9._%+-]+@[a-zA-Z0-9.-]+\.[a-zA-Z]{2,} matched against the whole text

  predicate LocalChar(ch: char) { IsAlnum(ch) || ch == '.' || ch == '_' || ch == '%' || ch == '+' || ch == '-' }
  predicate DomainChar(ch: char) { IsAlnum(ch) || ch == '.' || ch == '-' }

  /** The pattern matches with its '@' at position at and its last '\.' at position dot. */
  predicate EmailSplitAt(s: string, at: int, dot: int)
  {
    && 0 < at && at + 1 < dot && dot + 2 < |s|
    && s[at] == '@' && s[dot] == '.'
    && (forall k | 0 <= k < at :: LocalChar(s[k]))
    && (forall k | at < k < dot :: DomainChar(s[k]))
    && (forall k | dot < k < |s| :: IsAlpha(s[k]))
  }

  /** std::regex_match(email, emailRegex): some choice of the two split points works. */
  ghost predicate MatchesEmailPattern(s: string)
  {
    exists at, dot :: EmailSplitAt(s, at, dot)
  }

  function CharIs(ch: char, wanted: char): bool { ch == wanted }

  /** The last position of ch in s, or -1. */
  function LastIndexOf(s: string, ch: char): (r: int)
    ensures -1 <= r < |s|
    ensures r >= 0 ==> s[r] == ch
    ensures forall k | r < k < |s| :: s[k] != ch
  {
    if s == [] then -1
    else if s[|s| - 1] == ch then |s| - 1
    else LastIndexOf(s[..|s| - 1], ch)
  }

  /** isValidEmail, decided without search: the '@' can only be the first one
      (no class before it admits '@') and the dot before the top-level domain can
      only be the last one (the domain is letters only). */
  predicate IsValidEmail(email: string)
  {
    var at := Records.FirstIndex(email, CharIs, '@');
    var dot := LastIndexOf(email, '.');
    EmailSplitAt(email, at, dot)
  }

  /** The deterministic check accepts exactly the texts the pattern matches. */
  lemma IsValidEmailMatchesPattern(email: string)
    ensures IsValidEmail(email) <==> MatchesEmailPattern(email)
  {
    var at := Records.FirstIndex(email, CharIs, '@');
    var dot := LastIndexOf(email, '.');
    if MatchesEmailPattern(email) {
      var a, d :| EmailSplitAt(email, a, d);
      assert !LocalChar('@') && !IsAlpha('.');
      assert CharIs(email[a], '@');
      assert at == a;
      assert dot == d;
    }
    if IsValidEmail(email) {
      assert EmailSplitAt(email, at, dot);
    }
  }

  // ---------------------------------------------------------------------------
  // Phone and licence number

  /** The digit characters of s, in order. */
  function Digits(s: string): (r: string)
    ensures AllDigits(r) && |r| <= |s|
  {
    if s == [] then []
    else Digits(s[..|s| - 1]) + (if IsDigit(s[|s| - 1]) then [s[|s| - 1]] else [])
  }

  /** isValidPhone: exactly ten digits once every other character is dropped. */
  predicate ValidPhone(phone: string)
  {
    |Digits(phone)| == 10
  }

  /** The loop of isValidPhone: collect the digits, then count them. */
  method IsValidPhone(phone: string) returns (ok: bool)
    ensures ok == ValidPhone(phone)
  {
    var digits := "";
    for i := 0 to |phone|
      invariant digits == Digits(phone[..i])
    {
      assert phone[..i + 1][..i] == phone[..i];
      if IsDigit(phone[i]) {
        digits := digits + [phone[i]];
      }
    }
    assert phone[..|phone|] == phone;
    ok := |digits| == 10;
  }

  lemma {:induction false} DigitsAppend(a: string, b: string)
    ensures Digits(a + b) == Digits(a) + Digits(b)
    decreases |b|
  {
    if b == [] {
      assert a + b == a;
    } else {
      var n := |b| - 1;
      assert (a + b)[..|a + b| - 1] == a + b[..n];
      DigitsAppend(a, b[..n]);
    }
  }

  lemma {:induction false} DigitsOfDigits(s: string)
    requires AllDigits(s)
    ensures Digits(s) == s
    decreases |s|
  {
    if s != [] {
      DigitsOfDigits(s[..|s| - 1]);
    }
  }

  /** Separators do not matter, only the number of digits does. */
  lemma PhoneWithDashes()
    ensures ValidPhone("555-123-4567")
  {
    DigitsOfDigits("555");
    DigitsOfDigits("123");
    DigitsOfDigits("4567");
    DigitsAppend("555", "-123");
    DigitsAppend("-", "123");
    DigitsAppend("555-123", "-4567");
    DigitsAppend("-", "4567");
    assert "555" + "-123" == "555-123";
    assert "-" + "123" == "-123";
    assert "555-123" + "-4567" == "555-123-4567";
    assert "-" + "4567" == "-4567";
  }

  /** Nine digits are one too few. */
  lemma PhoneTooShort()
    ensures !ValidPhone("555-123-456")
  {
    DigitsOfDigits("555");
    DigitsOfDigits("123");
    DigitsOfDigits("456");
    DigitsAppend("555", "-123");
    DigitsAppend("-", "123");
    DigitsAppend("555-123", "-456");
    DigitsAppend("-", "456");
    assert "555" + "-123" == "555-123";
    assert "-" + "123" == "-123";
    assert "555-123" + "-456" == "555-123-456";
    assert "-" + "456" == "-456";
  }

  /** isValidLicenseNumber: at least five characters, all letters or digits. */
  predicate ValidLicenseNumber(s: string)
  {
    |s| >= 5 && forall k | 0 <= k < |s| :: IsAlnum(s[k])
  }

  /** The loop of isValidLicenseNumber, which stops at the first bad character. */
  method IsValidLicenseNumber(licenseNumber: string) returns (ok: bool)
    ensures ok == ValidLicenseNumber(licenseNumber)
  {
    if |licenseNumber| < 5 {
      return false;
    }
    for i := 0 to |licenseNumber|
      invariant forall k | 0 <= k < i :: IsAlnum(licenseNumber[k])
    {
      if !IsAlnum(licenseNumber[i]) {
        return false;
      }
    }
    return true;
  }

  lemma LicenseNumberExamples()
    ensures !ValidLicenseNumber("AB12") && ValidLicenseNumber("AB123")
    ensures !ValidLicenseNumber("AB-123")
  {
    assert !IsAlnum("AB-123"[2]);
  }

  // ---------------------------------------------------------------------------
  // Validation

  /** isValid: names and address present, e-mail, phone and licence number well
      formed, and some licence expiry given (its format is not checked). */
  predicate IsValid(c: Customer)
  {
    && c.firstName != "" && c.lastName != "" && IsValidEmail(c.email)
    && ValidPhone(c.phone) && c.address != "" && ValidLicenseNumber(c.licenseNumber)
    && c.licenseExpiry != ""
  }

  /** The rules of getValidationErrors in field order. */
  function CustomerChecks(c: Customer): seq<Check>
  {
    [Check(c.firstName == "", "First name is required. "),
     Check(c.lastName == "", "Last name is required. "),
     Check(!IsValidEmail(c.email), "Valid email is required. "),
     Check(!ValidPhone(c.phone), "Valid phone number is required. "),
     Check(c.address == "", "Address is required. "),
     Check(!ValidLicenseNumber(c.licenseNumber), "Valid license number is required. "),
     Check(c.licenseExpiry == "", "License expiry date is required. ")]
  }

  /** No rule of the table fails exactly when the customer is valid. */
  lemma CustomerChecksPassWhenValid(c: Customer)
    ensures (forall k | 0 <= k < |CustomerChecks(c)| :: !CustomerChecks(c)[k].fails) <==> IsValid(c)
  {
    var cs := CustomerChecks(c);
    if !IsValid(c) {
      assert cs[0].fails || cs[1].fails || cs[2].fails || cs[3].fails || cs[4].fails || cs[5].fails || cs[6].fails;
    }
  }

  /** getValidationErrors: the message of every failed rule, in field order. The
      messages are empty exactly for a valid customer, every failed rule is
      reported, and a missing first name is reported first. */
  function ValidationErrors(c: Customer): (r: string)
    ensures r == "" <==> IsValid(c)
    ensures forall k | 0 <= k < |CustomerChecks(c)| && CustomerChecks(c)[k].fails :: Contains(r, CustomerChecks(c)[k].text)
    ensures c.firstName == "" ==> "First name is required. " <= r
  {
    var cs := CustomerChecks(c);
    ReportedEmpty(cs);
    CustomerChecksPassWhenValid(c);
    ReportedContainsAll(cs);
    ReportedFirst(cs);
    Reported(cs)
  }

  /** isLicenseValid, with the current local date passed in as `today`: an
      expiry of the form YYYY-MM-DD that is not before today. */
  predicate IsLicenseValid(c: Customer, today: Ymd)
  {
    if c.licenseExpiry == "" then false
    else if !DateShape(c.licenseExpiry) then false
    else
      var e := ScanDate(c.licenseExpiry);
      if e.year < today.year then false
      else if e.year == today.year && e.month < today.month then false
      else if e.year == today.year && e.month == today.month && e.day < today.day then false
      else true
  }

  /** The licence is valid exactly when its expiry is well formed and today is not later. */
  lemma LicenseValidUntilExpiry(c: Customer, today: Ymd)
    ensures IsLicenseValid(c, today) <==>
              DateShape(c.licenseExpiry) && !Later(today, ScanDate(c.licenseExpiry))
  {
  }

  /** An ordinary address passes the e-mail check. */
  lemma EmailExample()
    ensures IsValidEmail("ada@mail.org")
  {
    var email := "ada@mail.org";
    assert EmailSplitAt(email, 3, 8) by {
      assert forall k | 0 <= k < 3 :: LocalChar(email[k]);
      assert forall k | 3 < k < 8 :: DomainChar(email[k]);
      assert forall k | 8 < k < |email| :: IsAlpha(email[k]);
    }
    IsValidEmailMatchesPattern(email);
  }

  /** Validation does not look at the expiry date's format or at the calendar, so a
      valid customer can hold a licence that is not valid. */
  lemma ValidCustomerWithInvalidLicense()
    ensures var c := Customer(1, "Ada", "Byron", "ada@mail.org", "555-123-4567", "1 Main St", "AB123", "soon");
            IsValid(c) && !IsLicenseValid(c, Ymd(2024, 1, 1))
  {
    EmailExample();
    PhoneWithDashes();
    assert ValidLicenseNumber("AB123");
  }
}

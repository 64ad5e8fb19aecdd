/** Character classes and the C++ standard-library string routines the record
    codecs rely on: field splitting with std::getline, std::stoi, integer
    formatting with operator<<, ::tolower and std::string::find. */
module Text {
  import Records

  datatype Option<T> = None | Some(value: T)

  // Character classes of the C locale (std::isdigit, std::isalpha, std::isalnum, std::isspace).

  predicate IsDigit(c: char) { '0' <= c <= '9' }
  predicate IsUpper(c: char) { 'A' <= c <= 'Z' }
  predicate IsLower(c: char) { 'a' <= c <= 'z' }
  predicate IsAlpha(c: char) { IsUpper(c) || IsLower(c) }
  predicate IsAlnum(c: char) { IsAlpha(c) || IsDigit(c) }

  /** Space, horizontal tab, line feed, vertical tab, form feed, carriage return. */
  predicate IsSpace(c: char) { c == ' ' || '\t' <= c <= '\r' }

  /** One rule of a validation routine: whether it fails, and the text it then adds. */
  datatype Check = Check(fails: bool, text: string)

  predicate CheckFails(ch: Check, u: ()) { ch.fails }
  function CheckText(ch: Check, u: ()): string { ch.text }

  /** What one rule adds to the report. */
  function Shown(ch: Check): string { if ch.fails then ch.text else "" }

  /** The strings of ms, one after another. */
  function Concat(ms: seq<string>): string
  {
    if ms == [] then "" else Concat(ms[..|ms| - 1]) + ms[|ms| - 1]
  }

  /** What a validation routine reports for a table of rules: the texts of the rules
      that fail, in table order. */
  function Reported(checks: seq<Check>): string
  {
    Concat(Records.Map(Records.Filter(checks, CheckFails, ()), CheckText, ()))
  }

  /** One rule more at the end of the table adds its text when it fails. */
  lemma ReportedSnoc(checks: seq<Check>, ch: Check)
    ensures Reported(checks + [ch]) == Reported(checks) + Shown(ch)
  {
    var all := checks + [ch];
    assert all[..|all| - 1] == checks;
    var f := Records.Filter(checks, CheckFails, ());
    if ch.fails {
      var g := f + [ch];
      assert Records.Filter(all, CheckFails, ()) == g;
      assert g[..|g| - 1] == f;
      var m := Records.Map(g, CheckText, ());
      assert m == Records.Map(f, CheckText, ()) + [ch.text];
      assert m[..|m| - 1] == Records.Map(f, CheckText, ());
    }
  }

  /** The table read one rule at a time. */
  lemma ReportedPrefix(checks: seq<Check>, i: int)
    requires 0 <= i < |checks|
    ensures Reported(checks[..i + 1]) == Reported(checks[..i]) + Shown(checks[i])
  {
    assert checks[..i + 1] == checks[..i] + [checks[i]];
    ReportedSnoc(checks[..i], checks[i]);
  }

  /** When every rule has a text, nothing is reported exactly when no rule fails. */
  lemma {:induction false} ReportedEmpty(checks: seq<Check>)
    requires forall k | 0 <= k < |checks| :: checks[k].text != ""
    ensures Reported(checks) == "" <==> forall k | 0 <= k < |checks| :: !checks[k].fails
    decreases |checks|
  {
    if checks != [] {
      var n := |checks| - 1;
      ReportedEmpty(checks[..n]);
      ReportedPrefix(checks, n);
      assert checks[..n + 1] == checks;
    }
  }

  /** Every failing rule's text appears in the report. */
  lemma {:induction false} ReportedContains(checks: seq<Check>, k: int)
    requires 0 <= k < |checks| && checks[k].fails
    ensures Contains(Reported(checks), checks[k].text)
    decreases |checks|
  {
    var n := |checks| - 1;
    ReportedPrefix(checks, n);
    assert checks[..n + 1] == checks;
    var front := Reported(checks[..n]);
    if k == n {
      assert checks[k].text <= (front + checks[k].text)[|front|..];
    } else {
      ReportedContains(checks[..n], k);
      var i :| 0 <= i <= |front| && checks[k].text <= front[i..];
      var tail := Shown(checks[n]);
      assert (front + tail)[i..] == front[i..] + tail;
    }
  }

  lemma ReportedContainsAll(checks: seq<Check>)
    ensures forall k | 0 <= k < |checks| && checks[k].fails :: Contains(Reported(checks), checks[k].text)
  {
    forall k | 0 <= k < |checks| && checks[k].fails ensures Contains(Reported(checks), checks[k].text) {
      ReportedContains(checks, k);
    }
  }

  /** The first failing rule of the first two is reported first. */
  lemma ReportedFirst(checks: seq<Check>)
    requires |checks| >= 2
    ensures checks[0].fails ==> checks[0].text <= Reported(checks)
    ensures !checks[0].fails && checks[1].fails ==> checks[1].text <= Reported(checks)
  {
    assert checks == [checks[0]] + checks[1..];
    assert checks[1..] == [checks[1]] + checks[2..];
    ReportedCons(checks[0], checks[1..]);
    ReportedCons(checks[1], checks[2..]);
  }

  /** One rule more at the front of the table puts its text first. */
  lemma {:induction false} ReportedCons(ch: Check, checks: seq<Check>)
    ensures Reported([ch] + checks) == Shown(ch) + Reported(checks)
    decreases |checks|
  {
    if checks == [] {
      ReportedSnoc([], ch);
      assert [ch] + checks == [] + [ch];
    } else {
      var n := |checks| - 1;
      var last := checks[n];
      var front := checks[..n];
      assert [ch] + checks == ([ch] + front) + [last];
      assert checks == front + [last];
      calc {
        Reported([ch] + checks);
        Reported(([ch] + front) + [last]);
        { ReportedSnoc([ch] + front, last); }
        Reported([ch] + front) + Shown(last);
        { ReportedCons(ch, front); }
        (Shown(ch) + Reported(front)) + Shown(last);
        Shown(ch) + (Reported(front) + Shown(last));
        { ReportedSnoc(front, last); }
        Shown(ch) + Reported(front + [last]);
        Shown(ch) + Reported(checks);
      }
    }
  }

  predicate AllDigits(s: string) { forall i | 0 <= i < |s| :: IsDigit(s[i]) }

  /** ::tolower: upper-case ASCII letters map to lower case, everything else is kept. */
  function LowerChar(c: char): (r: char)
    ensures IsUpper(c) ==> IsLower(r) && r as int == c as int + 32
    ensures !IsUpper(c) ==> r == c
  {
    if IsUpper(c) then (c as int + 32) as char else c
  }

  /** std::transform(s.begin(), s.end(), s.begin(), ::tolower). */
  function ToLower(s: string): (r: string)
    ensures |r| == |s|
    ensures forall i | 0 <= i < |s| :: r[i] == LowerChar(s[i])
  {
    seq(|s|, i requires 0 <= i < |s| => LowerChar(s[i]))
  }

  lemma ToLowerIdempotent(s: string)
    ensures ToLower(ToLower(s)) == ToLower(s)
  {
  }

  /** s.find(needle) != std::string::npos; the empty needle is found at position 0. */
  predicate Contains(s: string, needle: string)
  {
    exists i | 0 <= i <= |s| :: needle <= s[i..]
  }

  lemma ContainsEmpty(s: string)
    ensures Contains(s, "")
  {
    assert "" <= s[0..];
  }

  // ---------------------------------------------------------------------------
  // Splitting with std::getline(stream, token, d)

  /** The tokens that repeated std::getline(stream, token, d) calls produce on the
      rest s of a stream, when `pending` characters of the current token have been
      read already. A delimiter ends a token (which may be empty); at the end of the
      stream a token is produced only if at least one character was read for it. */
  function SplitFrom(pending: string, s: string, d: char): seq<string>
    decreases |s|
  {
    if s == [] then (if pending == [] then [] else [pending])
    else if s[0] == d then [pending] + SplitFrom([], s[1..], d)
    else SplitFrom(pending + [s[0]], s[1..], d)
  }

  /** The tokens std::getline(stream, token, d) yields, in order, from the text s. */
  function Split(s: string, d: char): seq<string>
  {
    SplitFrom([], s, d)
  }

  /** The getline loop: `while (std::getline(ss, field, d)) fields.push_back(field);`,
      one character at a time. */
  method SplitOn(s: string, d: char) returns (tokens: seq<string>)
    ensures tokens == Split(s, d)
  {
    tokens := [];
    var field := "";
    var i := 0;
    while i < |s|
      invariant 0 <= i <= |s|
      invariant tokens + SplitFrom(field, s[i..], d) == Split(s, d)
    {
      assert s[i..][0] == s[i] && s[i..][1..] == s[i + 1..];
      if s[i] == d {
        tokens := tokens + [field];
        field := "";
      } else {
        field := field + [s[i]];
      }
      i := i + 1;
    }
    if field != "" {
      tokens := tokens + [field];
    }
  }

  /** A delimiter-free run followed by the delimiter completes exactly one token. */
  lemma {:induction false} SplitFromToken(pending: string, token: string, rest: string, d: char)
    requires d !in token
    ensures SplitFrom(pending, token + [d] + rest, d) == [pending + token] + Split(rest, d)
    decreases |token|
  {
    var s := token + [d] + rest;
    if token == [] {
      assert s[0] == d && s[1..] == rest;
      assert pending + token == pending;
    } else {
      assert s[0] == token[0] && token[0] != d;
      assert s[1..] == token[1..] + [d] + rest;
      SplitFromToken(pending + [token[0]], token[1..], rest, d);
      assert pending + [token[0]] + token[1..] == pending + token;
    }
  }

  /** A delimiter-free tail is one token, or none if nothing is pending or left. */
  lemma {:induction false} SplitFromLast(pending: string, token: string, d: char)
    requires d !in token
    ensures SplitFrom(pending, token, d) == if pending + token == [] then [] else [pending + token]
    decreases |token|
  {
    if token != [] {
      assert token[0] != d;
      SplitFromLast(pending + [token[0]], token[1..], d);
      assert pending + [token[0]] + token[1..] == pending + token;
    } else {
      assert pending + token == pending;
    }
  }

  /** An empty text has no fields, an empty field between two commas is kept,
      and a final comma adds no field. */
  lemma SplitExamples()
    ensures Split("", ',') == []
    ensures Split("a,,b,", ',') == ["a", "", "b"]
  {
    assert "a,,b," == "a" + [','] + ",b,";
    SplitFromToken([], "a", ",b,", ',');
    assert ",b," == "" + [','] + "b,";
    SplitFromToken([], "", "b,", ',');
    assert "b," == "b" + [','] + "";
    SplitFromToken([], "b", "", ',');
    assert [] + "a" == "a" && [] + "b" == "b";
    assert Split("b,", ',') == ["b"];
    assert Split(",b,", ',') == ["", "b"];
  }

  // ---------------------------------------------------------------------------
  // Joining

  /** fs[0] d fs[1] d ... d fs[n-1]: what a `ss << f0 << "," << f1 ...` chain writes. */
  function Join(fs: seq<string>, d: char): string
  {
    if |fs| == 0 then ""
    else if |fs| == 1 then fs[0]
    else fs[0] + [d] + Join(fs[1..], d)
  }

  /** A field that fits in one comma-separated line: no comma and no line break. */
  predicate Clean(s: string) { ',' !in s && '\n' !in s }

  predicate FreeOf(fs: seq<string>, d: char)
  {
    forall i | 0 <= i < |fs| :: d !in fs[i]
  }

  /** Splitting a joined line gives the fields back, except that an empty last
      field is lost: getline does not produce a trailing empty token. */
  lemma {:induction false} SplitJoin(fs: seq<string>, d: char)
    requires |fs| > 0 && FreeOf(fs, d)
    ensures Split(Join(fs, d), d) == if fs[|fs| - 1] == "" then fs[..|fs| - 1] else fs
    decreases |fs|
  {
    if |fs| == 1 {
      SplitFromLast([], fs[0], d);
      assert [] + fs[0] == fs[0];
    } else {
      assert d !in fs[0];
      SplitFromToken([], fs[0], Join(fs[1..], d), d);
      assert [] + fs[0] == fs[0];
      SplitJoin(fs[1..], d);
      assert fs == [fs[0]] + fs[1..];
      assert fs[1..][|fs[1..]| - 1] == fs[|fs| - 1];
      if fs[|fs| - 1] == "" {
        assert [fs[0]] + fs[1..][..|fs[1..]| - 1] == fs[..|fs| - 1];
      }
    }
  }

  /** A character that no field holds and that is not the delimiter is not in the line. */
  lemma {:induction false} JoinFreeOf(fs: seq<string>, d: char, c: char)
    requires FreeOf(fs, c) && c != d
    ensures c !in Join(fs, d)
    decreases |fs|
  {
    if |fs| > 1 {
      JoinFreeOf(fs[1..], d, c);
    }
  }

  /** Joining one field more appends the delimiter and that field. */
  lemma {:induction false} JoinSnoc(fs: seq<string>, x: string, d: char)
    requires |fs| >= 1
    ensures Join(fs + [x], d) == Join(fs, d) + [d] + x
    decreases |fs|
  {
    if |fs| > 1 {
      JoinSnoc(fs[1..], x, d);
      assert (fs + [x])[1..] == fs[1..] + [x];
    }
  }

  /** A last field holding the delimiter is, once joined, two fields. */
  lemma JoinSplitsLast(fs: seq<string>, a: string, b: string, d: char)
    requires |fs| >= 1
    ensures Join(fs + [a + [d] + b], d) == Join(fs + [a, b], d)
  {
    JoinSnoc(fs, a + [d] + b, d);
    JoinSnoc(fs, a, d);
    JoinSnoc(fs + [a], b, d);
    assert fs + [a] + [b] == fs + [a, b];
  }

  lemma JoinContainsDelimiter(fs: seq<string>, d: char)
    requires |fs| >= 2
    ensures d in Join(fs, d) && Join(fs, d) != ""
  {
    assert Join(fs, d)[|fs[0]|] == d;
  }

  /** l0 d l1 d ... l(n-1) d: each line followed by the terminator, as a file of
      lines is written with `file << line << "\n"`. */
  function Terminated(ls: seq<string>, d: char): string
  {
    if ls == [] then "" else ls[0] + [d] + Terminated(ls[1..], d)
  }

  lemma {:induction false} TerminatedSnoc(ls: seq<string>, l: string, d: char)
    ensures Terminated(ls + [l], d) == Terminated(ls, d) + l + [d]
    decreases |ls|
  {
    if ls == [] {
      assert ls + [l] == [l];
      assert [l][1..] == [];
    } else {
      assert (ls + [l])[0] == ls[0] && (ls + [l])[1..] == ls[1..] + [l];
      TerminatedSnoc(ls[1..], l, d);
    }
  }

  /** Reading back a file of terminator-free lines gives exactly those lines. */
  lemma {:induction false} SplitTerminated(ls: seq<string>, d: char)
    requires FreeOf(ls, d)
    ensures Split(Terminated(ls, d), d) == ls
    decreases |ls|
  {
    if ls != [] {
      assert d !in ls[0];
      SplitFromToken([], ls[0], Terminated(ls[1..], d), d);
      assert [] + ls[0] == ls[0];
      SplitTerminated(ls[1..], d);
      assert ls == [ls[0]] + ls[1..];
    }
  }

  // ---------------------------------------------------------------------------
  // Integers: std::stoi and operator<< for int (without the 32-bit range)

  function DigitValue(c: char): int { c as int - '0' as int }

  function DigitChar(n: int): (c: char)
    requires 0 <= n < 10
    ensures IsDigit(c) && DigitValue(c) == n
  {
    ('0' as int + n) as char
  }

  /** The value of a string of decimal digits. */
  function DigitsValue(ds: string): int
  {
    if ds == [] then 0 else DigitsValue(ds[..|ds| - 1]) * 10 + DigitValue(ds[|ds| - 1])
  }

  /** Drops the leading white space that strtol skips. */
  function SkipSpaces(s: string): (r: string)
    ensures |r| <= |s|
  {
    if s != [] && IsSpace(s[0]) then SkipSpaces(s[1..]) else s
  }

  /** The longest prefix of s made of digits. */
  function DigitRun(s: string): (r: string)
    ensures |r| <= |s| && r <= s && AllDigits(r)
  {
    if s != [] && IsDigit(s[0]) then [s[0]] + DigitRun(s[1..]) else []
  }

  /** std::stoi(s): optional leading white space, an optional sign, then as many
      digits as follow; what comes after is ignored. With no digit at all it throws
      std::invalid_argument, here None. */
  function ParseInt(s: string): Option<int>
  {
    var t := SkipSpaces(s);
    var negative := t != [] && t[0] == '-';
    var u := if t != [] && (t[0] == '-' || t[0] == '+') then t[1..] else t;
    var ds := DigitRun(u);
    if ds == [] then None
    else Some(if negative then -DigitsValue(ds) else DigitsValue(ds))
  }

  /** Leading blanks and a sign are accepted, trailing text is ignored, and a text
      without a leading digit is refused. */
  lemma ParseIntExamples()
    ensures ParseInt(" -7x") == Some(-7)
    ensures ParseInt("+12") == Some(12)
    ensures ParseInt("abc") == None && ParseInt("") == None && ParseInt("-") == None
  {
    assert SkipSpaces(" -7x") == "-7x";
    assert "-7x"[1..] == "7x" && DigitRun("7x") == "7";
    assert DigitsValue("7") == 7;
    assert "+12"[1..] == "12" && DigitRun("12") == "12";
    assert "12"[..1] == "1" && DigitsValue("12") == 12;
    assert SkipSpaces("-") == "-" && DigitRun([]) == [];
  }

  /** The decimal digits of a natural number, most significant first. */
  function NaturalString(n: nat): (r: string)
    ensures r != [] && AllDigits(r)
  {
    (if n < 10 then [] else NaturalString(n / 10)) + [DigitChar(n % 10)]
  }

  /** `ss << n` for an int: decimal digits, with a minus sign when negative. */
  function IntToString(n: int): (r: string)
    ensures r != [] && Clean(r)
  {
    if n < 0 then "-" + NaturalString(-n) else NaturalString(n)
  }

  lemma {:induction false} DigitsValueOfNatural(n: nat)
    ensures DigitsValue(NaturalString(n)) == n
    decreases n
  {
    var r := NaturalString(n);
    var init := if n < 10 then [] else NaturalString(n / 10);
    assert r[..|r| - 1] == init;
    if n >= 10 {
      DigitsValueOfNatural(n / 10);
    }
  }

  lemma {:induction false} DigitRunOfDigits(s: string)
    requires AllDigits(s)
    ensures DigitRun(s) == s
    decreases |s|
  {
    if s != [] {
      assert IsDigit(s[0]);
      DigitRunOfDigits(s[1..]);
      assert s == [s[0]] + s[1..];
    }
  }

  /** std::stoi reads back exactly what operator<< wrote. */
  lemma ParseIntToString(n: int)
    ensures ParseInt(IntToString(n)) == Some(n)
  {
    var m: nat := if n < 0 then -n else n;
    var digits := NaturalString(m);
    DigitsValueOfNatural(m);
    DigitRunOfDigits(digits);
    assert IsDigit(digits[0]);
    if n < 0 {
      var s := "-" + digits;
      assert s[0] == '-' && s[1..] == digits;
      assert SkipSpaces(s) == s;
    } else {
      assert SkipSpaces(digits) == digits;
    }
  }

  /** Two digit strings of the same length with the same value are equal. */
  lemma {:induction false} DigitsValueInjective(a: string, b: string)
    requires |a| == |b| && AllDigits(a) && AllDigits(b)
    requires DigitsValue(a) == DigitsValue(b)
    ensures a == b
    decreases |a|
  {
    if a != [] {
      var n := |a| - 1;
      assert IsDigit(a[n]) && IsDigit(b[n]);
      DigitsValueNonNegative(a[..n]);
      DigitsValueNonNegative(b[..n]);
      assert DigitValue(a[n]) == DigitValue(b[n]);
      DigitsValueInjective(a[..n], b[..n]);
      assert a == a[..n] + [a[n]] && b == b[..n] + [b[n]];
    }
  }

  lemma {:induction false} DigitsValueNonNegative(ds: string)
    requires AllDigits(ds)
    ensures DigitsValue(ds) >= 0
    decreases |ds|
  {
    if ds != [] {
      DigitsValueNonNegative(ds[..|ds| - 1]);
    }
  }

  // ---------------------------------------------------------------------------
  // Floating-point fields

  /** The text form of a `double`: `ss << x` (six significant digits) and
      std::stod (None when it throws). Both are left abstract: a store is given
      one such pair and no exact round trip is claimed for it. */
  datatype DoubleCodec = DoubleCodec(format: real -> string, parse: string -> Option<real>)
  {
    /** x can be written into a comma-separated line and read back as some value. */
    predicate Storable(x: real)
    {
      Clean(format(x)) && parse(format(x)).Some?
    }

    /** What a stored x reads back as (only meaningful when Storable(x)). */
    function Reread(x: real): real
    {
      match parse(format(x))
      case Some(y) => y
      case None => x
    }

    /** Rereading a printed value gives a value that can itself be stored: an
        assumption about the printed form of a double, which the model leaves
        abstract. */
    ghost predicate RereadStable()
    {
      forall x: real {:trigger Reread(x)} :: Storable(x) ==> Storable(Reread(x))
    }
  }
}

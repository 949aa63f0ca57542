/** The configured retention: which texts parse, and to how many seconds. */
module Retention {
  import opened Common

  // ---------------------------------------------------------------- the configured duration

  datatype ParseError = NoUnit | NoNumber | Zero | UnknownUnit

  predicate IsSpace(c: char) {
    c == ' ' || c == '\t' || c == '\n' || c == '\r' || c == 0x0B as char || c == 0x0C as char
  }

  function TrimStart(s: string): string {
    if s != [] && IsSpace(s[0]) then TrimStart(s[1..]) else s
  }

  function TrimEnd(s: string): string {
    if s != [] && IsSpace(s[|s| - 1]) then TrimEnd(s[..|s| - 1]) else s
  }

  function LowerChar(c: char): char {
    if 'A' <= c <= 'Z' then (c as int + 32) as char else c
  }

  function Lower(s: string): (r: string)
    ensures |r| == |s|
  {
    seq(|s|, i requires 0 <= i < |s| => LowerChar(s[i]))
  }

  function RemoveSpaces(s: string): string {
    if s == [] then [] else (if s[0] == ' ' then [] else [s[0]]) + RemoveSpaces(s[1..])
  }

  /** Trim, lower-case, and drop the remaining blanks (not other white space), on ASCII text. */
  function Normalize(raw: string): string {
    RemoveSpaces(Lower(TrimEnd(TrimStart(raw))))
  }

  predicate IsDigit(c: char) {
    '0' <= c <= '9'
  }

  /** The length of the leading run of digits. */
  function DigitRun(s: string): (n: nat)
    ensures n <= |s|
    ensures forall i :: 0 <= i < n ==> IsDigit(s[i])
    ensures n < |s| ==> !IsDigit(s[n])
  {
    if s == [] || !IsDigit(s[0]) then 0 else 1 + DigitRun(s[1..])
  }

  /** The value of a run of digits; the empty run counts as zero. */
  function DigitsValue(s: string): nat
    requires forall i :: 0 <= i < |s| ==> IsDigit(s[i])
  {
    if s == [] then 0
    else
      assert IsDigit(s[|s| - 1]);
      DigitsValue(s[..|s| - 1]) * 10 + (s[|s| - 1] as int - '0' as int)
  }

  /** `str::parse::<u64>` on digits. */
  function ParseU64(s: string): Option<nat>
    requires forall i :: 0 <= i < |s| ==> IsDigit(s[i])
  {
    if s == [] || U64_SIZE <= DigitsValue(s) then None else Some(DigitsValue(s))
  }

  function TrimPlural(s: string): string {
    if s != [] && s[|s| - 1] == 's' then TrimPlural(s[..|s| - 1]) else s
  }

  /** Hours in one unit. */
  function UnitHours(unit: string): Option<nat> {
    if unit == "h" || unit == "hour" then Some(1)
    else if unit == "d" || unit == "day" then Some(24)
    else if unit == "w" || unit == "week" then Some(24 * 7)
    else if unit == "m" || unit == "mo" || unit == "month" then Some(24 * 30)
    else None
  }

  /** A `u64` product in a release build, where overflow wraps. */
  function Wrap(v: nat): nat {
    v % U64_SIZE
  }

  /** The hours computed for `n` units: the products with 24 and then 7 or 30 wrap one after the other. */
  function Hours(n: nat, unitHours: nat): nat {
    if unitHours == 1 then n
    else if unitHours == 24 then Wrap(n * 24)
    else Wrap(Wrap(n * 24) * (unitHours / 24))
  }

  /** `parse_retention`, in seconds. */
  function ParseRetention(raw: string): Result<nat, ParseError> {
    var s := Normalize(raw);
    var split := DigitRun(s);
    if split == |s| then Err(NoUnit)
    else
      match ParseU64(s[..split])
      case None => Err(NoNumber)
      case Some(n) =>
        if n == 0 then Err(Zero)
        else
          match UnitHours(TrimPlural(s[split..]))
          case None => Err(UnknownUnit)
          case Some(hours) => Ok(Wrap(Hours(n, hours) * 3600))
  }

  // ---------------------------------------------------------------- spelling a duration

  /** Decimal digits of `n`, without leading zeros. */
  function Decimal(n: nat): (s: string)
    requires 0 < n
    ensures s != [] && forall i :: 0 <= i < |s| ==> IsDigit(s[i])
  {
    (if n < 10 then [] else Decimal(n / 10)) + [('0' as int + n % 10) as char]
  }

  lemma {:induction false} DecimalValue(n: nat)
    requires 0 < n
    ensures DigitsValue(Decimal(n)) == n
  {
    var s := Decimal(n);
    if 10 <= n {
      DecimalValue(n / 10);
      assert s[..|s| - 1] == Decimal(n / 10);
    } else {
      assert s[..|s| - 1] == [];
    }
  }

  function Plural(count: nat): string {
    if count == 0 then [] else Plural(count - 1) + ['s']
  }

  /** `raw` is `core` with blanks inserted and any letter upper-cased. */
  predicate Dresses(raw: string, core: string) {
    if raw == [] then core == []
    else
      (raw[0] == ' ' && Dresses(raw[1..], core))
      || (core != [] && raw[0] != ' ' && SameLetter(raw[0], core[0]) && Dresses(raw[1..], core[1..]))
  }

  /** `small` is `c`, or the small letter of the capital `c`. */
  predicate SameLetter(c: char, small: char) {
    if 'A' <= c <= 'Z' then small as int - 'a' as int == c as int - 'A' as int else small == c
  }

  lemma {:induction false} DressedNormal(raw: string, core: string)
    requires Dresses(raw, core)
    ensures RemoveSpaces(Lower(raw)) == core
  {
    if raw == [] {
    } else {
      assert Lower(raw)[1..] == Lower(raw[1..]);
      if raw[0] == ' ' && Dresses(raw[1..], core) {
        DressedNormal(raw[1..], core);
      } else {
        DressedNormal(raw[1..], core[1..]);
        assert LowerChar(raw[0]) != ' ';
        assert core == [core[0]] + core[1..];
      }
    }
  }

  /** Only white space. */
  predicate Blank(s: string) {
    forall i :: 0 <= i < |s| ==> s[i] in {' ', '\t', '\n', '\r', 0x0B as char, 0x0C as char}
  }

  lemma {:induction false} TrimStartBlank(lead: string, rest: string)
    requires Blank(lead)
    ensures TrimStart(lead + rest) == TrimStart(rest)
  {
    if lead != [] {
      assert (lead + rest)[1..] == lead[1..] + rest;
      TrimStartBlank(lead[1..], rest);
    } else {
      assert lead + rest == rest;
    }
  }

  lemma {:induction false} TrimEndBlank(rest: string, trail: string)
    requires Blank(trail)
    ensures TrimEnd(rest + trail) == TrimEnd(rest)
  {
    if trail != [] {
      assert (rest + trail)[..|rest + trail| - 1] == rest + trail[..|trail| - 1];
      TrimEndBlank(rest, trail[..|trail| - 1]);
    } else {
      assert rest + trail == rest;
    }
  }

  /** Some character is not white space. */
  predicate HasInk(s: string) {
    exists i :: 0 <= i < |s| && !IsSpace(s[i])
  }

  lemma {:induction false} TrimStartAppend(body: string, trail: string)
    requires HasInk(body)
    ensures TrimStart(body + trail) == TrimStart(body) + trail
  {
    if !IsSpace(body[0]) {
    } else {
      assert (body + trail)[1..] == body[1..] + trail;
      var i :| 0 <= i < |body| && !IsSpace(body[i]);
      assert body[1..][i - 1] == body[i];
      TrimStartAppend(body[1..], trail);
    }
  }

  predicate NoSpaces(s: string) {
    forall i :: 0 <= i < |s| ==> !IsSpace(s[i])
  }

  lemma {:induction false} DressedHasInk(raw: string, core: string)
    requires Dresses(raw, core) && NoSpaces(core) && core != []
    ensures HasInk(raw)
  {
    if raw[0] == ' ' {
      DressedHasInk(raw[1..], core);
      var i :| 0 <= i < |raw| - 1 && !IsSpace(raw[1..][i]);
      assert !IsSpace(raw[i + 1]);
    } else {
      assert !IsSpace(raw[0]) by { assert !IsSpace(core[0]); }
    }
  }

  lemma {:induction false} TrimStartDressed(raw: string, core: string)
    requires Dresses(raw, core) && NoSpaces(core)
    ensures Dresses(TrimStart(raw), core)
  {
    if raw == [] {
    } else {
      if raw[0] == ' ' {
        TrimStartDressed(raw[1..], core);
      } else {
        assert !IsSpace(core[0]);
      }
    }
  }

  lemma {:induction false} DropLastDressed(raw: string, core: string)
    requires raw != [] && IsSpace(raw[|raw| - 1]) && Dresses(raw, core) && NoSpaces(core)
    ensures Dresses(raw[..|raw| - 1], core)
  {
    var short := raw[..|raw| - 1];
    if |raw| == 1 {
      assert core == [];
    } else {
      assert short[1..] == raw[1..][..|raw| - 2];
      if raw[0] == ' ' {
        DropLastDressed(raw[1..], core);
      } else {
        DropLastDressed(raw[1..], core[1..]);
      }
    }
  }

  lemma {:induction false} TrimEndDressed(raw: string, core: string)
    requires Dresses(raw, core) && NoSpaces(core)
    ensures Dresses(TrimEnd(raw), core)
    decreases |raw|
  {
    if raw == [] || !IsSpace(raw[|raw| - 1]) {
    } else {
      DropLastDressed(raw, core);
      TrimEndDressed(raw[..|raw| - 1], core);
    }
  }

  /** White space around, blanks inside and capitals do not change the normal form. */
  lemma NormalForm(lead: string, body: string, trail: string, core: string)
    requires Blank(lead) && Blank(trail) && Dresses(body, core) && NoSpaces(core) && core != []
    ensures Normalize(lead + body + trail) == core
  {
    assert lead + body + trail == lead + (body + trail);
    TrimStartBlank(lead, body + trail);
    DressedHasInk(body, core);
    TrimStartAppend(body, trail);
    TrimEndBlank(TrimStart(body), trail);
    TrimStartDressed(body, core);
    TrimEndDressed(TrimStart(body), core);
    DressedNormal(TrimEnd(TrimStart(body)), core);
  }

  // ---------------------------------------------------------------- what parses, and to what

  predicate AllDigits(s: string) {
    forall i :: 0 <= i < |s| ==> '0' <= s[i] <= '9'
  }

  lemma {:induction false} DigitRunOf(digits: string, rest: string)
    requires AllDigits(digits) && (rest == [] || !IsDigit(rest[0]))
    ensures DigitRun(digits + rest) == |digits|
  {
    if digits == [] {
      assert digits + rest == rest;
    } else {
      assert (digits + rest)[1..] == digits[1..] + rest;
      DigitRunOf(digits[1..], rest);
    }
  }

  lemma {:induction false} TrimPluralOf(unit: string, count: nat)
    requires unit == [] || unit[|unit| - 1] != 's'
    ensures TrimPlural(unit + Plural(count)) == unit
  {
    if count == 0 {
      assert unit + Plural(0) == unit;
    } else {
      var s := unit + Plural(count);
      assert s[..|s| - 1] == unit + Plural(count - 1);
      TrimPluralOf(unit, count - 1);
    }
  }

  lemma {:induction false} TrimPluralSplit(s: string) returns (count: nat)
    ensures s == TrimPlural(s) + Plural(count)
  {
    if s != [] && s[|s| - 1] == 's' {
      var c := TrimPluralSplit(s[..|s| - 1]);
      count := c + 1;
      assert s == s[..|s| - 1] + ['s'];
    } else {
      count := 0;
    }
  }

  predicate UnitName(unit: string) {
    unit in {"h", "hour", "d", "day", "w", "week", "m", "mo", "month"}
  }

  /** The seconds of one hour, day, week, or month of thirty days. */
  function SecondsPer(unit: string): nat
    requires UnitName(unit)
  {
    if unit in {"h", "hour"} then 3_600
    else if unit in {"d", "day"} then 86_400
    else if unit in {"w", "week"} then 604_800
    else 2_592_000
  }

  /** The units the parser knows are these, at these lengths. */
  lemma UnitTable(unit: string)
    ensures UnitHours(unit).Some? <==> UnitName(unit)
    ensures UnitName(unit) ==> UnitHours(unit).value * 3600 == SecondsPer(unit)
  {
  }

  /** `s` is a positive 64-bit number, a known unit, and any number of plural letters. */
  predicate Reads(s: string, digits: string, unit: string, count: nat) {
    && s == digits + unit + Plural(count)
    && AllDigits(digits) && 0 < DigitsValue(digits) < U64_SIZE
    && UnitName(unit)
  }

  /** The same of a text as written: white space around, blanks and capitals inside. */
  ghost predicate Spelled(raw: string, digits: string, unit: string, count: nat) {
    exists lead, body, trail :: raw == lead + body + trail && Dressed(lead, body, trail, digits, unit, count)
  }

  predicate Dressed(lead: string, body: string, trail: string, digits: string, unit: string, count: nat) {
    && Blank(lead) && Blank(trail) && Dresses(body, digits + unit + Plural(count))
    && AllDigits(digits) && 0 < DigitsValue(digits) < U64_SIZE
    && UnitName(unit)
  }

  lemma {:induction false} TrimStartSplit(s: string) returns (lead: string)
    ensures Blank(lead) && s == lead + TrimStart(s)
  {
    if s == [] || !IsSpace(s[0]) {
      lead := [];
    } else {
      var rest := TrimStartSplit(s[1..]);
      lead := [s[0]] + rest;
      assert s == [s[0]] + s[1..];
    }
  }

  lemma {:induction false} TrimEndSplit(s: string) returns (trail: string)
    ensures Blank(trail) && s == TrimEnd(s) + trail
  {
    if s == [] || !IsSpace(s[|s| - 1]) {
      trail := [];
    } else {
      var rest := TrimEndSplit(s[..|s| - 1]);
      trail := rest + [s[|s| - 1]];
      assert s == s[..|s| - 1] + [s[|s| - 1]];
    }
  }

  /** Every text is a dressing of what remains of it. */
  lemma {:induction false} NormalDresses(body: string)
    ensures Dresses(body, RemoveSpaces(Lower(body)))
  {
    if body == [] {
    } else {
      assert Lower(body)[1..] == Lower(body[1..]);
      NormalDresses(body[1..]);
      var rest := RemoveSpaces(Lower(body[1..]));
      if body[0] == ' ' {
        assert RemoveSpaces(Lower(body)) == rest;
      } else {
        assert RemoveSpaces(Lower(body)) == [LowerChar(body[0])] + rest;
      }
    }
  }

  /** Normalising reads a text as it is spelled. */
  lemma SpelledIsRead(raw: string, digits: string, unit: string, count: nat)
    ensures Spelled(raw, digits, unit, count) <==> Reads(Normalize(raw), digits, unit, count)
  {
    if Spelled(raw, digits, unit, count) {
      var lead, body, trail :| raw == lead + body + trail && Dressed(lead, body, trail, digits, unit, count);
      CoreLetters(digits, unit, count);
      NormalForm(lead, body, trail, digits + unit + Plural(count));
    }
    if Reads(Normalize(raw), digits, unit, count) {
      var lead := TrimStartSplit(raw);
      var trail := TrimEndSplit(TrimStart(raw));
      var body := TrimEnd(TrimStart(raw));
      NormalDresses(body);
      assert raw == lead + body + trail;
      assert Dressed(lead, body, trail, digits, unit, count);
    }
  }

  lemma CoreLetters(digits: string, unit: string, count: nat)
    requires AllDigits(digits) && UnitName(unit)
    ensures NoSpaces(digits + unit + Plural(count)) && digits + unit + Plural(count) != []
  {
    PluralLetters(count);
    UnitLetters(unit);
  }

  lemma ReadsSplits(s: string, digits: string, unit: string, count: nat)
    requires Reads(s, digits, unit, count)
    ensures |digits| == DigitRun(s) < |s| && s[..|digits|] == digits && TrimPlural(s[|digits|..]) == unit
  {
    var rest := unit + Plural(count);
    assert s == digits + rest;
    assert rest != [] && !IsDigit(rest[0]) && unit[|unit| - 1] != 's' by { UnitLetters(unit); }
    DigitRunOf(digits, rest);
    assert s[|digits|..] == rest;
    TrimPluralOf(unit, count);
  }

  lemma ReadsHours(raw: string, digits: string, unit: string, count: nat)
    requires Reads(Normalize(raw), digits, unit, count)
    ensures UnitHours(unit).Some?
    ensures ParseRetention(raw) == Ok(Wrap(Hours(DigitsValue(digits), UnitHours(unit).value) * 3600))
  {
    ReadsSplits(Normalize(raw), digits, unit, count);
    UnitTable(unit);
    assert digits != [];
  }

  /** The seconds of `n` units. */
  function Seconds(n: nat, unit: string): nat
    requires UnitName(unit)
  {
    n * SecondsPer(unit)
  }

  /** What is read is the true number of seconds, modulo the word size. */
  lemma SpelledParses(raw: string, digits: string, unit: string, count: nat)
    requires Spelled(raw, digits, unit, count)
    ensures ParseRetention(raw) == Ok(Seconds(DigitsValue(digits), unit) % U64_SIZE)
  {
    SpelledIsRead(raw, digits, unit, count);
    ReadsHours(raw, digits, unit, count);
    SecondsWrapOnce(DigitsValue(digits), unit);
  }

  lemma MultipleIsFar(d: int, m: int)
    requires d != 0 && 0 < m
    ensures d * m <= 0 - m || m <= d * m
  {
    if 0 < d { TimesAtLeast(d, m); } else { TimesAtLeast(-d, m); }
  }

  lemma TimesAtLeast(d: int, m: int)
    requires 1 <= d && 0 <= m
    ensures m <= d * m
  {
    assert 0 <= (d - 1) * m == d * m - m;
  }

  /** Quotient and remainder are unique. */
  lemma RemainderIs(x: nat, q: int, r: nat, m: nat)
    requires r < m && x == q * m + r
    ensures x % m == r
  {
    var d := q - x / m;
    assert d * m == x % m - r;
    if d != 0 { MultipleIsFar(d, m); }
  }

  /** Wrapping between two multiplications and after them is wrapping once at the end. */
  lemma WrapTimes(a: nat, b: nat)
    ensures Wrap(Wrap(a) * b) == Wrap(a * b)
  {
    var x := Wrap(a) * b;
    assert a * b == (a / U64_SIZE * U64_SIZE + Wrap(a)) * b == a / U64_SIZE * b * U64_SIZE + x;
    RemainderIs(a * b, a / U64_SIZE * b + x / U64_SIZE, x % U64_SIZE, U64_SIZE);
  }

  lemma SecondsWrapOnce(n: nat, unit: string)
    requires UnitHours(unit).Some? && UnitName(unit)
    ensures Wrap(Hours(n, UnitHours(unit).value) * 3600) == Seconds(n, unit) % U64_SIZE
  {
    var h := UnitHours(unit).value;
    UnitTable(unit);
    if h == 24 {
      WrapTimes(n * 24, 3600);
    } else if h != 1 {
      WrapTimes(n * 24, h / 24);
      WrapTimes(n * h, 3600);
      assert n * 24 * (h / 24) == n * h;
    }
    assert n * h * 3600 == n * (h * 3600);
  }

  lemma UnitLetters(unit: string)
    requires UnitName(unit)
    ensures unit != [] && !IsDigit(unit[0]) && unit[|unit| - 1] != 's'
    ensures NoSpaces(unit) && forall i :: 0 <= i < |unit| ==> LowerChar(unit[i]) == unit[i]
  {
  }

  /**
   Exactly what is accepted: a positive 64-bit number followed by a known unit, possibly plural, in
   any capitals, with blanks inside and white space around. Everything else fails, zero, missing
   numbers and missing or unknown units included.
   */
  lemma ParsesIff(raw: string)
    ensures ParseRetention(raw).Ok? <==> exists digits, unit, count :: Spelled(raw, digits, unit, count)
  {
    if digits, unit, count :| Spelled(raw, digits, unit, count) {
      SpelledParses(raw, digits, unit, count);
    }
    if ParseRetention(raw).Ok? {
      var s := Normalize(raw);
      var split := DigitRun(s);
      var count := TrimPluralSplit(s[split..]);
      UnitTable(TrimPlural(s[split..]));
      assert s == s[..split] + s[split..];
      assert Reads(s, s[..split], TrimPlural(s[split..]), count);
      SpelledIsRead(raw, s[..split], TrimPlural(s[split..]), count);
    }
  }

  /** The wrapped products give the true duration exactly when it fits in 64 bits. */
  lemma SecondsExactIff(raw: string, digits: string, unit: string, count: nat)
    requires Spelled(raw, digits, unit, count)
    ensures var seconds := Seconds(DigitsValue(digits), unit);
            ParseRetention(raw) == Ok(seconds) <==> seconds < U64_SIZE
  {
    SpelledParses(raw, digits, unit, count);
    OwnRemainder(Seconds(DigitsValue(digits), unit));
  }

  lemma OwnRemainder(v: nat)
    ensures v % U64_SIZE == v <==> v < U64_SIZE
  {
  }

  /**
   Parsing inverts spelling: any positive number, unit, plural, capitals, inner blanks and outer
   white space. The seconds are right exactly when they fit in 64 bits.
   */
  lemma ParseInvertsSpelling(n: nat, unit: string, count: nat, lead: string, body: string, trail: string)
    requires 0 < n < U64_SIZE && UnitName(unit)
    requires Blank(lead) && Blank(trail) && Dresses(body, Decimal(n) + unit + Plural(count))
    ensures ParseRetention(lead + body + trail) == Ok(Seconds(n, unit)) <==> Seconds(n, unit) < U64_SIZE
  {
    DecimalValue(n);
    assert Dressed(lead, body, trail, Decimal(n), unit, count);
    SecondsExactIff(lead + body + trail, Decimal(n), unit, count);
  }

  /** Unit by unit: hours, days, weeks, months. */
  lemma ParsedUnits(n: nat, unit: string, count: nat, lead: string, body: string, trail: string)
    requires 0 < n && n * 2_592_000 < U64_SIZE
    requires Blank(lead) && Blank(trail) && Dresses(body, Decimal(n) + unit + Plural(count))
    ensures unit in {"h", "hour"} ==> ParseRetention(lead + body + trail) == Ok(n * 3_600)
    ensures unit in {"d", "day"} ==> ParseRetention(lead + body + trail) == Ok(n * 86_400)
    ensures unit in {"w", "week"} ==> ParseRetention(lead + body + trail) == Ok(n * 604_800)
    ensures unit in {"m", "mo", "month"} ==> ParseRetention(lead + body + trail) == Ok(n * 2_592_000)
  {
    if UnitName(unit) { ParseInvertsSpelling(n, unit, count, lead, body, trail); }
  }

  lemma {:induction false} PluralLetters(count: nat)
    ensures |Plural(count)| == count && forall i :: 0 <= i < count ==> Plural(count)[i] == 's'
  {
    if count == 0 {
    } else {
      PluralLetters(count - 1);
    }
  }

  // ---------------------------------------------------------------- a retention of zero

  /** The least number of units whose seconds are a multiple of the word size. */
  function ZeroStep(unit: string): nat
    requires UnitName(unit)
  {
    if unit in {"h", "hour"} then 0x1000_0000_0000_0000
    else if unit in {"m", "mo", "month"} then 0x100_0000_0000_0000
    else 0x200_0000_0000_0000
  }

  /** An odd factor, given with its inverse modulo `m`, does not matter for divisibility by `m`. */
  lemma OddFactor(n: nat, odd: nat, inverse: nat, k: nat, m: nat)
    requires 0 < m && odd * inverse == 1 + k * m
    ensures n * odd % m == 0 <==> n % m == 0
  {
    if n % m == 0 { MultipleTimes(n, n / m, odd, m); }
    if n * odd % m == 0 { CancelOdd(n, odd, inverse, k, m, n * odd / m); }
  }

  lemma MultipleTimes(n: nat, q: nat, c: nat, m: nat)
    requires 0 < m && n == q * m
    ensures n * c % m == 0
  {
    assert n * c == q * m * c == q * c * m;
    RemainderIs(n * c, q * c, 0, m);
  }

  lemma CancelOdd(n: nat, odd: nat, inverse: nat, k: nat, m: nat, q: nat)
    requires 0 < m && odd * inverse == 1 + k * m && n * odd == q * m
    ensures n % m == 0
  {
    calc {
      n + n * k * m;
      n * (1 + k * m);
      n * (odd * inverse);
      n * odd * inverse;
      q * m * inverse;
      q * inverse * m;
    }
    assert n == (q * inverse - n * k) * m;
    RemainderIs(n, q * inverse - n * k, 0, m);
  }

  lemma ScaledMod(x: nat, c: nat, m: nat)
    requires 0 < c && 0 < m
    ensures x * c % (m * c) == 0 <==> x % m == 0
  {
    if x * c % (m * c) == 0 { CancelScale(x, c, m, x * c / (m * c)); }
    if x % m == 0 {
      var q := x / m;
      assert x * c == q * m * c == q * (m * c);
      RemainderIs(x * c, q, 0, m * c);
    }
  }

  lemma CancelScale(x: nat, c: nat, m: nat, q: nat)
    requires 0 < c && 0 < m && x * c == q * (m * c)
    ensures x % m == 0
  {
    assert q * (m * c) == q * m * c;
    assert (x - q * m) * c == 0;
    assert x == q * m;
    RemainderIs(x, q, 0, m);
  }

  lemma SecondsVanishIff(n: nat, unit: string)
    requires UnitName(unit)
    ensures Seconds(n, unit) % U64_SIZE == 0 <==> n % ZeroStep(unit) == 0
  {
    var m := ZeroStep(unit);
    match SecondsPer(unit)
    case 3_600 =>
      OddFactor(n, 225, 1147797409030816545, 224, m);
      ScaledMod(n * 225, 16, m);
    case 86_400 =>
      OddFactor(n, 675, 94368760191893771, 442, m);
      ScaledMod(n * 675, 128, m);
    case 604_800 =>
      OddFactor(n, 4725, 95832787499331037, 3142, m);
      ScaledMod(n * 4725, 128, m);
    case 2_592_000 =>
      OddFactor(n, 10125, 25506609089573701, 3584, m);
      ScaledMod(n * 10125, 256, m);
  }

  /**
   Exactly which texts are taken for no time at all although they name a positive number: those
   whose number is a multiple of the unit's step. No text parses to zero in any other way.
   */
  lemma ZeroAcceptedIff(raw: string)
    ensures ParseRetention(raw) == Ok(0)
       <==> exists digits, unit, count :: Spelled(raw, digits, unit, count) && DigitsValue(digits) % ZeroStep(unit) == 0
  {
    if digits, unit, count :| Spelled(raw, digits, unit, count) && DigitsValue(digits) % ZeroStep(unit) == 0 {
      ZeroReadIff(raw, digits, unit, count);
    }
    if ParseRetention(raw) == Ok(0) {
      ParsesIff(raw);
      var digits, unit, count :| Spelled(raw, digits, unit, count);
      ZeroReadIff(raw, digits, unit, count);
    }
  }

  /** The same for a text already split into number and unit. */
  lemma ZeroReadIff(raw: string, digits: string, unit: string, count: nat)
    requires Spelled(raw, digits, unit, count)
    ensures ParseRetention(raw) == Ok(0) <==> DigitsValue(digits) % ZeroStep(unit) == 0
  {
    SpelledParses(raw, digits, unit, count);
    SecondsVanishIff(DigitsValue(digits), unit);
  }

  lemma {:induction false} DressesSelf(s: string)
    requires forall i :: 0 <= i < |s| ==> s[i] != ' ' && LowerChar(s[i]) == s[i]
    ensures Dresses(s, s)
  {
    if s == [] {
    } else {
      DressesSelf(s[1..]);
    }
  }

  /** There are such texts: 2^60 hours pass the zero check and yield a retention of zero. */
  lemma SomeHoursWrapToZero()
    ensures exists n: nat :: 0 < n < U64_SIZE && ParseRetention(Decimal(n) + "h") == Ok(0)
  {
    var n: nat := 0x1000_0000_0000_0000;
    ZeroSpelled(n);
  }

  lemma ZeroSpelled(n: nat)
    requires 0 < n < U64_SIZE && n % ZeroStep("h") == 0
    ensures ParseRetention(Decimal(n) + "h") == Ok(0)
  {
    var core := Decimal(n) + "h" + Plural(0);
    assert core == Decimal(n) + "h" && [] + core + [] == core;
    DressesSelf(core);
    DecimalValue(n);
    assert Dressed([], core, [], Decimal(n), "h", 0);
    ZeroReadIff(core, Decimal(n), "h", 0);
  }
}

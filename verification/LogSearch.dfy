/**
 Log search: LIKE matching as PostgreSQL defines it (manual section 9.7.1), the escaping of the
 searched text, and the trace-correlation filter with its hexadecimal identifier.
 */
module LogSearch {
  import opened Common
  import opened Telemetry
  import opened JsonAttributes

  // ---------------------------------------------------------------- LIKE

  /** `text LIKE pattern` with the default escape character. */
  predicate Like(pattern: string, text: string)
    decreases |pattern| + |text|
  {
    if pattern == [] then text == []
    else if pattern[0] == '%' then Like(pattern[1..], text) || (text != [] && Like(pattern, text[1..]))
    else if pattern[0] == '_' then text != [] && Like(pattern[1..], text[1..])
    else if pattern[0] == '\\' then |pattern| >= 2 && text != [] && text[0] == pattern[1] && Like(pattern[2..], text[1..])
    else text != [] && text[0] == pattern[0] && Like(pattern[1..], text[1..])
  }

  /** No escape character is left without a character to escape; PostgreSQL rejects other patterns. */
  predicate WellFormed(pattern: string) {
    pattern == [] || (if pattern[0] == '\\' then |pattern| >= 2 && WellFormed(pattern[2..]) else WellFormed(pattern[1..]))
  }

  /** `needle` is a contiguous part of `text`. */
  ghost predicate Occurs(needle: string, text: string) {
    exists i :: 0 <= i <= |text| && needle <= text[i..]
  }

  // ---------------------------------------------------------------- escaping

  /** `str::replace` of one character. */
  function ReplaceAll(s: string, c: char, with: string): string {
    if s == [] then [] else (if s[0] == c then with else [s[0]]) + ReplaceAll(s[1..], c, with)
  }

  /** `escape_like`: three passes over the whole text, the escape character first. */
  function EscapeLike(needle: string): string {
    ReplaceAll(ReplaceAll(ReplaceAll(needle, '\\', "\\\\"), '%', "\\%"), '_', "\\_")
  }

  predicate Special(c: char) {
    c == '\\' || c == '%' || c == '_'
  }

  /** The intended escaping: a backslash before each special character. */
  function EscapeEach(s: string): string {
    if s == [] then [] else (if Special(s[0]) then ['\\', s[0]] else [s[0]]) + EscapeEach(s[1..])
  }

  lemma {:induction false} ReplaceAllAppend(a: string, b: string, c: char, with: string)
    ensures ReplaceAll(a + b, c, with) == ReplaceAll(a, c, with) + ReplaceAll(b, c, with)
  {
    if a == [] {
      assert a + b == b;
    } else {
      var x, rest := a[0], a[1..];
      ReplaceAllAppend(rest, b, c, with);
      assert a == [x] + rest && a + b == [x] + (rest + b);
      ReplaceAllCons(x, rest + b, c, with);
      ReplaceAllCons(x, rest, c, with);
    }
  }

  lemma ReplaceAllCons(x: char, s: string, c: char, with: string)
    ensures ReplaceAll([x] + s, c, with) == (if x == c then with else [x]) + ReplaceAll(s, c, with)
  {
    assert ([x] + s)[1..] == s;
  }

  lemma EscapeLikeAppend(a: string, b: string)
    ensures EscapeLike(a + b) == EscapeLike(a) + EscapeLike(b)
  {
    var one := (s: string) => ReplaceAll(s, '\\', "\\\\");
    var two := (s: string) => ReplaceAll(s, '%', "\\%");
    ReplaceAllAppend(a, b, '\\', "\\\\");
    ReplaceAllAppend(one(a), one(b), '%', "\\%");
    ReplaceAllAppend(two(one(a)), two(one(b)), '_', "\\_");
  }

  lemma EscapeLikeOne(c: char)
    ensures EscapeLike([c]) == if Special(c) then ['\\', c] else [c]
  {
    ReplaceOne(c, '\\', "\\\\");
    if c == '\\' {
      ReplaceTwo('\\', '\\', '%', "\\%");
      ReplaceTwo('\\', '\\', '_', "\\_");
    } else {
      ReplaceOne(c, '%', "\\%");
      ReplaceOne(c, '_', "\\_");
      ReplaceTwo('\\', '%', '_', "\\_");
    }
  }

  lemma ReplaceOne(x: char, c: char, with: string)
    ensures ReplaceAll([x], c, with) == if x == c then with else [x]
  {
    assert [x][1..] == [];
    assert ReplaceAll([], c, with) == [];
  }

  lemma ReplaceTwo(x: char, y: char, c: char, with: string)
    requires x != c && y != c
    ensures ReplaceAll([x, y], c, with) == [x, y]
  {
    assert [x, y][1..] == [y];
    ReplaceOne(y, c, with);
  }

  /** Three passes in this order are one escaping per character: no pass touches what an earlier one added. */
  lemma {:induction false} EscapePassesAgree(needle: string)
    ensures EscapeLike(needle) == EscapeEach(needle)
  {
    if needle == [] {
    } else {
      assert needle == [needle[0]] + needle[1..];
      EscapeLikeAppend([needle[0]], needle[1..]);
      EscapeLikeOne(needle[0]);
      EscapePassesAgree(needle[1..]);
    }
  }

  // ---------------------------------------------------------------- what the pattern matches

  /** An escaped text matches exactly itself, wherever it stands in a pattern. */
  lemma {:induction false} LikeEscaped(needle: string, rest: string, text: string)
    ensures Like(EscapeEach(needle) + rest, text) <==> needle <= text && Like(rest, text[|needle|..])
  {
    if needle == [] {
      assert EscapeEach(needle) + rest == rest;
    } else {
      var head := if Special(needle[0]) then ['\\', needle[0]] else [needle[0]];
      var pattern := EscapeEach(needle) + rest;
      assert pattern == head + (EscapeEach(needle[1..]) + rest);
      assert pattern[|head|..] == EscapeEach(needle[1..]) + rest;
      assert pattern[0] == head[0] && (Special(needle[0]) ==> pattern[1] == needle[0]);
      if text != [] {
        LikeEscaped(needle[1..], rest, text[1..]);
        assert needle <= text <==> needle[0] == text[0] && needle[1..] <= text[1..] by {
          PrefixHead(needle, text);
        }
        if needle <= text { assert text[1..][|needle| - 1..] == text[|needle|..]; }
      }
    }
  }

  lemma PrefixHead(a: string, b: string)
    requires a != [] && b != []
    ensures a <= b <==> a[0] == b[0] && a[1..] <= b[1..]
  {
    if a[0] == b[0] && a[1..] <= b[1..] {
      assert b == [b[0]] + b[1..] && a == [a[0]] + a[1..];
    }
  }

  /** A leading `%` matches any beginning. */
  lemma {:induction false} LikeAnywhere(pattern: string, text: string)
    ensures Like("%" + pattern, text) <==> exists i :: 0 <= i <= |text| && Like(pattern, text[i..])
  {
    var p := "%" + pattern;
    assert p[0] == '%' && p[1..] == pattern;
    if text == [] {
      assert text[0..] == text;
    } else {
      var rest := text[1..];
      LikeAnywhere(pattern, rest);
      if Like(pattern, text) { assert text[0..] == text; }
      if i :| 0 <= i <= |rest| && Like(pattern, rest[i..]) {
        assert text[i + 1..] == rest[i..];
      }
      if i :| 0 <= i <= |text| && Like(pattern, text[i..]) {
        if i == 0 { assert text[0..] == text; } else { assert rest[i - 1..] == text[i..]; }
      }
    }
  }

  lemma {:induction false} PercentMatchesAll(text: string)
    ensures Like("%", text)
  {
    if text == [] {
    } else {
      PercentMatchesAll(text[1..]);
    }
  }

  lemma {:induction false} EscapedWellFormed(needle: string)
    ensures WellFormed(EscapeEach(needle) + "%")
  {
    if needle == [] {
      assert EscapeEach(needle) + "%" == "%";
    } else {
      var head := if Special(needle[0]) then ['\\', needle[0]] else [needle[0]];
      var pattern := EscapeEach(needle) + "%";
      EscapedWellFormed(needle[1..]);
      assert pattern == head + (EscapeEach(needle[1..]) + "%");
      assert pattern[|head|..] == EscapeEach(needle[1..]) + "%";
    }
  }

  function SearchPattern(needle: string): string {
    "%" + EscapeLike(needle) + "%"
  }

  /** The search pattern is well formed and means "contains", whatever the searched text holds. */
  lemma LikeMeansContains(needle: string, text: string)
    ensures WellFormed(SearchPattern(needle))
    ensures Like(SearchPattern(needle), text) <==> Occurs(needle, text)
  {
    EscapePassesAgree(needle);
    var tail := EscapeEach(needle) + "%";
    assert SearchPattern(needle) == "%" + tail;
    EscapedWellFormed(needle);
    assert ("%" + tail)[1..] == tail;
    LikeAnywhere(tail, text);
    forall i | 0 <= i <= |text| ensures Like(tail, text[i..]) <==> needle <= text[i..] {
      LikeEscaped(needle, "%", text[i..]);
      if needle <= text[i..] { PercentMatchesAll(text[i..][|needle|..]); }
    }
  }

  /** Why the text is escaped: left as it is, an underscore would match any character. */
  lemma UnescapedMatchesMore(text: string)
    requires text != []
    ensures Like("%" + "_" + "%", text)
  {
    assert "%" + "_" + "%" == "%" + "_%" && "_%"[1..] == "%";
    PercentMatchesAll(text[1..]);
    assert Like("_%", text[0..]);
    LikeAnywhere("_%", text);
  }

  // ---------------------------------------------------------------- ILIKE and the log columns

  function Folded(fold: char -> char, s: string): (r: string)
    ensures |r| == |s|
  {
    seq(|s|, i requires 0 <= i < |s| => fold(s[i]))
  }

  /** Case folding leaves the three special characters alone and maps nothing else onto them. */
  ghost predicate KeepsSpecials(fold: char -> char) {
    forall c :: (Special(c) ==> fold(c) == c) && (Special(fold(c)) ==> Special(c))
  }

  /** `text ILIKE pattern`: both sides are folded, then matched. */
  predicate ILike(fold: char -> char, pattern: string, text: string) {
    Like(Folded(fold, pattern), Folded(fold, text))
  }

  lemma {:induction false} FoldEscape(fold: char -> char, needle: string)
    requires KeepsSpecials(fold)
    ensures Folded(fold, EscapeEach(needle)) == EscapeEach(Folded(fold, needle))
  {
    if needle == [] {
    } else {
      FoldEscape(fold, needle[1..]);
      assert Folded(fold, needle)[1..] == Folded(fold, needle[1..]);
      var head := if Special(needle[0]) then ['\\', needle[0]] else [needle[0]];
      assert Folded(fold, EscapeEach(needle)) == Folded(fold, head) + Folded(fold, EscapeEach(needle[1..]));
    }
  }

  lemma ILikeMeansContains(fold: char -> char, needle: string, text: string)
    requires KeepsSpecials(fold)
    ensures ILike(fold, SearchPattern(needle), text) <==> Occurs(Folded(fold, needle), Folded(fold, text))
  {
    EscapePassesAgree(needle);
    EscapePassesAgree(Folded(fold, needle));
    FoldEscape(fold, needle);
    assert Special('%');
    assert Folded(fold, SearchPattern(needle)) == SearchPattern(Folded(fold, needle));
    LikeMeansContains(Folded(fold, needle), Folded(fold, text));
  }

  /** The columns of a log row that `find_logs` searches; `attributes` is the text of the JSONB value. */
  datatype LogRow = LogRow(traceId: seq<Byte>, severityText: string, body: string, attributes: string)

  /** The condition added for a non-empty search text. */
  predicate SearchCondition(fold: char -> char, search: string, row: LogRow) {
    var pattern := SearchPattern(search);
    search != "" ==>
      ILike(fold, pattern, row.body) || ILike(fold, pattern, row.severityText) || ILike(fold, pattern, row.attributes)
  }

  /** A log row passes the search exactly when the text occurs in its body, severity or attributes. */
  lemma SearchFindsSubstring(fold: char -> char, search: string, row: LogRow)
    requires KeepsSpecials(fold)
    ensures SearchCondition(fold, search, row) <==>
      var n := Folded(fold, search);
      Occurs(n, Folded(fold, row.body)) || Occurs(n, Folded(fold, row.severityText)) || Occurs(n, Folded(fold, row.attributes))
  {
    ILikeMeansContains(fold, search, row.body);
    ILikeMeansContains(fold, search, row.severityText);
    ILikeMeansContains(fold, search, row.attributes);
    if search == "" {
      assert Folded(fold, search) <= Folded(fold, row.body)[0..];
    }
  }

  // ---------------------------------------------------------------- trace correlation

  function HexDigit(c: char): Option<int> {
    if '0' <= c <= '9' then Some(c as int - '0' as int)
    else if 'a' <= c <= 'f' then Some(c as int - 'a' as int + 10)
    else if 'A' <= c <= 'F' then Some(c as int - 'A' as int + 10)
    else None
  }

  /** `u8::from_str_radix` of two ASCII characters: a leading plus sign is accepted. */
  function HexByte(a: char, b: char): Option<Byte> {
    var low := HexDigit(b);
    if a == '+' then (if low.Some? then Some(low.value) else None)
    else
      var high := HexDigit(a);
      if high.Some? && low.Some? then Some(high.value * 16 + low.value) else None
  }

  /** `hex_decode` on ASCII text. */
  function HexDecode(s: string): Option<seq<Byte>>
    decreases |s|
  {
    if |s| % 2 != 0 then None
    else if s == [] then Some([])
    else
      match HexByte(s[0], s[1])
      case None => None
      case Some(byte) =>
        match HexDecode(s[2..])
        case None => None
        case Some(bytes) => Some([byte] + bytes)
  }

  /** Decoding inverts the rendering used for byte-valued attributes. */
  lemma {:induction false} HexDecodeInvertsHex(bytes: seq<Byte>)
    ensures HexDecode(Hex(bytes)) == Some(bytes)
  {
    if bytes == [] {
    } else {
      HexDecodeInvertsHex(bytes[1..]);
      HexByteOfByte(bytes[0]);
      HexDecodeStep(DIGITS[bytes[0] / 16], DIGITS[bytes[0] % 16], bytes[0], Hex(bytes[1..]), bytes[1..]);
      assert [bytes[0]] + bytes[1..] == bytes;
    }
  }

  lemma HexDecodeStep(a: char, b: char, byte: Byte, rest: string, bytes: seq<Byte>)
    requires HexByte(a, b) == Some(byte) && HexDecode(rest) == Some(bytes)
    ensures HexDecode([a, b] + rest) == Some([byte] + bytes)
  {
    assert ([a, b] + rest)[2..] == rest;
  }

  lemma HexByteOfByte(b: Byte)
    ensures HexByte(DIGITS[b / 16], DIGITS[b % 16]) == Some(b)
  {
    DigitValue(b / 16);
    DigitValue(b % 16);
  }

  lemma DigitValue(d: int)
    requires 0 <= d < 16
    ensures HexDigit(DIGITS[d]) == Some(d) && DIGITS[d] != '+'
  {
  }

  /** `c` is the digit of value `d`, in either case. */
  predicate DigitIs(c: char, d: int) {
    0 <= d < 16 && (c == "0123456789abcdef"[d] || c == "0123456789ABCDEF"[d])
  }

  /** Two characters stand for a byte: two digits, or a plus sign and one. */
  predicate PairIs(a: char, b: char, byte: Byte) {
    DigitIs(b, byte % 16) && (DigitIs(a, byte / 16) || (a == '+' && byte < 16))
  }

  lemma DigitIff(c: char, d: int)
    ensures DigitIs(c, d) <==> HexDigit(c) == Some(d)
  {
  }

  lemma HexDigitRange(c: char)
    ensures HexDigit(c).Some? ==> 0 <= HexDigit(c).value < 16 && c != '+'
  {
  }

  lemma HexByteParts(a: char, b: char, byte: Byte)
    ensures HexByte(a, b) == Some(byte) <==>
      HexDigit(b) == Some(byte % 16) && (HexDigit(a) == Some(byte / 16) || (a == '+' && byte < 16))
  {
    HexDigitRange(a);
    HexDigitRange(b);
    if HexDigit(a).Some? && HexDigit(b).Some? {
      TwoDigits(HexDigit(a).value, HexDigit(b).value, byte);
    }
  }

  lemma TwoDigits(high: int, low: int, byte: int)
    requires 0 <= high < 16 && 0 <= low < 16
    ensures high * 16 + low == byte <==> high == byte / 16 && low == byte % 16
  {
  }

  lemma HexByteIs(a: char, b: char, byte: Byte)
    ensures HexByte(a, b) == Some(byte) <==> PairIs(a, b, byte)
  {
    HexByteParts(a, b, byte);
    DigitIff(b, byte % 16);
    DigitIff(a, byte / 16);
  }

  /** Pair by pair. */
  predicate PairsAre(s: string, bytes: seq<Byte>) {
    |s| == 2 * |bytes| && forall i :: 0 <= i < |bytes| ==> PairIs(s[2 * i], s[2 * i + 1], bytes[i])
  }

  /** Exactly what a text decodes to: each pair of its characters, small or capital, to the byte it stands for. */
  lemma {:induction false} HexDecodeIff(s: string, bytes: seq<Byte>)
    ensures HexDecode(s) == Some(bytes) <==> PairsAre(s, bytes)
  {
    if |s| % 2 != 0 || s == [] {
    } else if bytes == [] {
      HexDecodeAccepts(s);
    } else {
      HexDecodeIff(s[2..], bytes[1..]);
      HexByteIs(s[0], s[1], bytes[0]);
      HexDecodeHead(s, bytes);
      HexPairsTail(s, bytes);
    }
  }

  lemma HexDecodeHead(s: string, bytes: seq<Byte>)
    requires 2 <= |s| && |s| % 2 == 0 && bytes != []
    ensures HexDecode(s) == Some(bytes) <==> HexByte(s[0], s[1]) == Some(bytes[0]) && HexDecode(s[2..]) == Some(bytes[1..])
  {
    assert bytes == [bytes[0]] + bytes[1..];
    if HexDecode(s) == Some(bytes) {
      assert bytes[1..] == HexDecode(s[2..]).value;
    }
  }

  lemma HexPairsTail(s: string, bytes: seq<Byte>)
    requires 2 <= |s| && bytes != []
    ensures PairsAre(s, bytes) <==> PairIs(s[0], s[1], bytes[0]) && PairsAre(s[2..], bytes[1..])
  {
    if PairIs(s[0], s[1], bytes[0]) && PairsAre(s[2..], bytes[1..]) {
      forall i | 0 <= i < |bytes| ensures PairIs(s[2 * i], s[2 * i + 1], bytes[i]) {
        if 0 < i { assert PairIs(s[2..][2 * (i - 1)], s[2..][2 * (i - 1) + 1], bytes[1..][i - 1]); }
      }
    }
    if PairsAre(s, bytes) {
      forall i | 0 <= i < |bytes| - 1 ensures PairIs(s[2..][2 * i], s[2..][2 * i + 1], bytes[1..][i]) {
        assert PairIs(s[2 * (i + 1)], s[2 * (i + 1) + 1], bytes[i + 1]);
      }
    }
  }

  /** Every pair of characters is two hexadecimal digits, or a plus sign and one. */
  predicate HexPairs(s: string) {
    |s| % 2 == 0 && forall i :: 0 <= i < |s| ==>
      HexDigit(s[i]).Some? || (i % 2 == 0 && s[i] == '+')
  }

  /** Exactly which texts are taken for a hexadecimal identifier. */
  lemma {:induction false} HexDecodeAccepts(s: string)
    ensures HexDecode(s).Some? <==> HexPairs(s)
    ensures HexDecode(s).Some? ==> 2 * |HexDecode(s).value| == |s|
  {
    if |s| % 2 != 0 || s == [] {
    } else {
      var rest := s[2..];
      HexDecodeAccepts(rest);
      if HexPairs(rest) && HexByte(s[0], s[1]).Some? {
        forall i | 0 <= i < |s| ensures HexDigit(s[i]).Some? || (i % 2 == 0 && s[i] == '+') {
          if 2 <= i { assert rest[i - 2] == s[i]; }
        }
      }
      if HexPairs(s) {
        assert HexDigit(s[1]).Some? && (HexDigit(s[0]).Some? || s[0] == '+');
        forall i | 0 <= i < |rest| ensures HexDigit(rest[i]).Some? || (i % 2 == 0 && rest[i] == '+') {
          assert rest[i] == s[i + 2];
        }
      }
    }
  }

  /** The two conditions added for a trace identifier. */
  predicate TraceCondition(id: seq<Byte>, row: LogRow) {
    row.traceId == id && |row.traceId| == 16
  }

  /** The length condition is redundant with the equality exactly for identifiers of sixteen bytes. */
  lemma LengthConditionRedundantIff(id: seq<Byte>)
    ensures (forall row: LogRow :: TraceCondition(id, row) <==> row.traceId == id) <==> |id| == 16
  {
    var row := LogRow(id, "", "", "");
    assert TraceCondition(id, row) <==> |id| == 16;
  }
}

/**
  The spellings a completion inserts for a path, and the decoders that undo them.

  `UnescapePatternLiteral` and `ContainsUnescapedPattern` stand next to the renderers in the source.
  `ReadDouble` covers both readers of a double-quoted body: the decoder of completion prefixes and the
  lexer, which also gives braces a meaning. How a whole inserted text is read in its place is the
  subject of `Words`.
*/
module Renderers {
  import opened Wrappers

  /** `char::is_control` */
  predicate IsControl(c: char) {
    c as int < 0x20 || 0x7F <= c as int < 0xA0
  }

  /** `char::is_whitespace`: the Unicode White_Space property */
  predicate IsWhitespace(c: char) {
    var n := c as int;
    || 9 <= n <= 13 || n == 0x20 || n == 0x85 || n == 0xA0 || n == 0x1680
    || 0x2000 <= n <= 0x200A || n == 0x2028 || n == 0x2029 || n == 0x202F || n == 0x205F || n == 0x3000
  }

  const SPECIAL: string := "|&;<>(){}[]'\"\\#"

  predicate NeedsEscape(c: char) {
    IsWhitespace(c) || IsControl(c) || c in SPECIAL
  }

  // ---------- Bare words ----------

  function BarePath(value: string): string {
    if value == [] then []
    else (if NeedsEscape(value[0]) then ['\\', value[0]] else [value[0]]) + BarePath(value[1..])
  }

  /** A trailing lone backslash stands for nothing. */
  function Unescaped(pattern: string): string {
    if pattern == [] then []
    else if pattern[0] != '\\' then [pattern[0]] + Unescaped(pattern[1..])
    else if |pattern| == 1 then []
    else [pattern[1]] + Unescaped(pattern[2..])
  }

  function HasUnescapedPattern(value: string): bool {
    if value == [] then false
    else if value[0] == '\\' then |value| > 1 && HasUnescapedPattern(value[2..])
    else IsPatternChar(value[0]) || HasUnescapedPattern(value[1..])
  }

  lemma BarePathFrom(value: string, i: nat, rendered: string)
    requires i < |value|
    ensures rendered + BarePath(value[i..]) ==
      (if NeedsEscape(value[i]) then rendered + ['\\'] else rendered) + [value[i]] + BarePath(value[i + 1..])
  {
    assert value[i..][1..] == value[i + 1..];
  }

  method RenderBarePath(value: string) returns (rendered: string)
    ensures rendered == BarePath(value)
  {
    rendered := [];
    var i := 0;
    while i < |value|
      invariant 0 <= i <= |value|
      invariant rendered + BarePath(value[i..]) == BarePath(value)
    {
      BarePathFrom(value, i, rendered);
      if NeedsEscape(value[i]) {
        rendered := rendered + ['\\'];
      }
      rendered := rendered + [value[i]];
      i := i + 1;
    }
  }

  lemma UnescapedStep(literal: string, c: char, rest: string)
    ensures literal + ([c] + rest) == literal + [c] + rest
  {
  }

  method UnescapePatternLiteral(pattern: string) returns (literal: string)
    ensures literal == Unescaped(pattern)
  {
    literal := [];
    var i := 0;
    while i < |pattern|
      invariant 0 <= i <= |pattern|
      invariant literal + Unescaped(pattern[i..]) == Unescaped(pattern)
    {
      ghost var rest := pattern[i..];
      var character := pattern[i];
      i := i + 1;
      assert rest[1..] == pattern[i..];
      if character != '\\' {
        UnescapedStep(literal, character, Unescaped(pattern[i..]));
        literal := literal + [character];
      } else if i < |pattern| {
        assert rest[2..] == pattern[i + 1..];
        UnescapedStep(literal, pattern[i], Unescaped(pattern[i + 1..]));
        literal := literal + [pattern[i]];
        i := i + 1;
      }
    }
  }

  method ContainsUnescapedPattern(value: string) returns (found: bool)
    ensures found == HasUnescapedPattern(value)
  {
    var escaped := false;
    var i := 0;
    while i < |value|
      invariant 0 <= i <= |value|
      invariant HasUnescapedPattern(value) ==
        if escaped then i < |value| && HasUnescapedPattern(value[i + 1..]) else HasUnescapedPattern(value[i..])
    {
      assert value[i..][1..] == value[i + 1..];
      assert i + 1 < |value| ==> value[i..][2..] == value[i + 2..];
      if escaped {
        escaped := false;
      } else if value[i] == '\\' {
        escaped := true;
      } else if IsPatternChar(value[i]) {
        return true;
      }
      i := i + 1;
    }
    found := false;
  }

  /** Unescaping undoes the bare rendering of every string. */
  lemma {:induction false} UnescapedInvertsBarePath(value: string)
    ensures Unescaped(BarePath(value)) == value
  {
    if value != [] {
      var tail := BarePath(value[1..]);
      UnescapedInvertsBarePath(value[1..]);
      if NeedsEscape(value[0]) {
        assert BarePath(value)[2..] == tail;
      } else {
        assert BarePath(value)[1..] == tail;
      }
    }
  }

  /** The decoder of a bare completion prefix: absent while a backslash still waits for its character. */
  function DecodeBare(raw: string): Option<string> {
    if raw == [] then Some([])
    else if raw[0] != '\\' then Prefix(raw[0], DecodeBare(raw[1..]))
    else if |raw| == 1 then None
    else Prefix(raw[1], DecodeBare(raw[2..]))
  }

  /** Completing an inserted bare word again starts from the path itself, not from its spelling. */
  lemma {:induction false} DecodeBareInvertsBarePath(value: string)
    ensures DecodeBare(BarePath(value)) == Some(value)
  {
    if value != [] {
      var tail := BarePath(value[1..]);
      DecodeBareInvertsBarePath(value[1..]);
      assert [value[0]] + value[1..] == value;
      if NeedsEscape(value[0]) {
        assert BarePath(value)[2..] == tail;
      } else {
        assert BarePath(value)[1..] == tail;
      }
    }
  }

  // ---------- Patterns ----------

  predicate IsPatternChar(c: char) { c == '*' || c == '?' || c == '[' }

  /** How many backslashes stand directly before position `k`. */
  function BackslashesBefore(value: string, k: nat): nat
    requires k <= |value|
  {
    if k == 0 || value[k - 1] != '\\' then 0 else 1 + BackslashesBefore(value, k - 1)
  }

  /** A pattern character that is not escaped: an even number of backslashes stands before it. */
  predicate UnescapedAt(value: string, k: nat) {
    k < |value| && IsPatternChar(value[k]) && BackslashesBefore(value, k) % 2 == 0
  }

  lemma {:induction false} BackslashesAfterPlain(value: string, k: nat)
    requires 0 < k <= |value| && value[0] != '\\'
    ensures BackslashesBefore(value, k) == BackslashesBefore(value[1..], k - 1)
  {
    if k > 1 {
      BackslashesAfterPlain(value, k - 1);
    }
  }

  lemma {:induction false} BackslashesAfterEscape(value: string, k: nat)
    requires 2 <= k <= |value| && value[0] == '\\'
    ensures BackslashesBefore(value, k) % 2 == BackslashesBefore(value[2..], k - 2) % 2
  {
    if k == 2 {
      assert BackslashesBefore(value, 1) == 1 + BackslashesBefore(value, 0);
    } else {
      BackslashesAfterEscape(value, k - 1);
    }
  }

  /** The scan finds a pattern exactly when some pattern character is unescaped by the parity of its backslashes. */
  lemma {:induction false} HasUnescapedPatternExactlyWhen(value: string)
    ensures HasUnescapedPattern(value) <==> exists k: nat :: UnescapedAt(value, k)
    decreases |value|
  {
    if value != [] {
      var skipped := if value[0] == '\\' then 2 else 1;
      if |value| >= skipped {
        var rest := value[skipped..];
        HasUnescapedPatternExactlyWhen(rest);
        forall k: nat | skipped <= k < |value|
          ensures UnescapedAt(value, k) <==> UnescapedAt(rest, k - skipped)
        {
          if skipped == 1 { BackslashesAfterPlain(value, k); } else { BackslashesAfterEscape(value, k); }
        }
        if k: nat :| UnescapedAt(rest, k) {
          assert UnescapedAt(value, k + skipped);
        }
      }
      FirstIsUnescapedExactlyWhen(value);
    }
  }

  lemma FirstIsUnescapedExactlyWhen(value: string)
    requires value != []
    ensures UnescapedAt(value, 0) <==> IsPatternChar(value[0])
    ensures value[0] == '\\' ==> !UnescapedAt(value, 1)
  {
    if value[0] == '\\' && |value| > 1 {
      assert BackslashesBefore(value, 1) == 1 + BackslashesBefore(value, 0);
    }
  }

  // ---------- Double quotes ----------

  const HEX: string := "0123456789ABCDEF"

  /** Upper-case hexadecimal without padding, as `{:X}` prints it. */
  function Hex(n: nat): (digits: string)
    ensures digits != [] && forall d <- digits :: d in HEX
  {
    if n < 16 then [HEX[n]] else Hex(n / 16) + [HEX[n % 16]]
  }

  lemma HexIsInert(n: nat)
    ensures Inert("{" + Hex(n) + "}")
  {
    assert '"' !in HEX && '\\' !in HEX;
  }

  function DoubleChar(c: char): string {
    if c == '\\' then "\\\\"
    else if c == '"' then "\\\""
    else if c == '\n' then "\\n"
    else if c == '\r' then "\\r"
    else if c == '\t' then "\\t"
    else if IsControl(c) then "\\u{" + Hex(c as int) + "}"
    else [c]
  }

  function DoublePath(value: string): string {
    if value == [] then [] else DoubleChar(value[0]) + DoublePath(value[1..])
  }

  lemma DoublePathFrom(value: string, i: nat, rendered: string)
    requires i < |value|
    ensures rendered + DoublePath(value[i..]) == rendered + DoubleChar(value[i]) + DoublePath(value[i + 1..])
  {
    assert value[i..][1..] == value[i + 1..];
  }

  method RenderDoublePath(value: string) returns (rendered: string)
    ensures rendered == DoublePath(value)
  {
    rendered := [];
    var i := 0;
    while i < |value|
      invariant 0 <= i <= |value|
      invariant rendered + DoublePath(value[i..]) == DoublePath(value)
    {
      DoublePathFrom(value, i, rendered);
      rendered := rendered + DoubleChar(value[i]);
      i := i + 1;
    }
  }

  function HexDigit(c: char): Option<nat> {
    if '0' <= c <= '9' then Some(c as int - '0' as int)
    else if 'A' <= c <= 'F' then Some(c as int - 'A' as int + 10)
    else if 'a' <= c <= 'f' then Some(c as int - 'a' as int + 10)
    else None
  }

  /** A run of hexadecimal digits up to a closing brace: its value, started from `value`, and its length. */
  function ReadHex(text: string, value: nat): (r: Option<(nat, nat)>)
    ensures r.Some? ==> r.value.1 < |text|
  {
    if text == [] then None
    else if text[0] == '}' then Some((value, 0))
    else
      var digit := HexDigit(text[0]);
      if digit.None? then None
      else
        var later := ReadHex(text[1..], value * 16 + digit.value);
        if later.None? then None else Some((later.value.0, later.value.1 + 1))
  }

  /** Who reads: the lexer of the language, or the decoder of a completion prefix. */
  datatype Reader = Lexer | PrefixDecoder

  function SimpleEscape(reader: Reader, c: char): Option<char> {
    match c
    case '\\' => Some('\\')
    case '"' => Some('"')
    case 'n' => Some('\n')
    case 'r' => Some('\r')
    case 't' => Some('\t')
    case '0' => if reader == Lexer then Some('\0') else None
    case _ => None
  }

  predicate IsScalar(n: nat) { n < 0xD800 || 0xE000 <= n < 0x11_0000 }

  /** The lexer wants one to six digits; the decoder any number, with an optional plus sign. */
  function ReadScalar(reader: Reader, text: string): (r: Option<(char, nat)>)
    ensures r.Some? ==> r.value.1 <= |text|
  {
    var signed := reader == PrefixDecoder && text != [] && text[0] == '+';
    var number := ReadHex(if signed then text[1..] else text, 0);
    if number.None? then None
    else
      var (n, digits) := number.value;
      if digits == 0 || (reader == Lexer && digits > 6) || !IsScalar(n) then None
      else Some((n as char, digits + 1 + if signed then 1 else 0))
  }

  predicate LoneReturn(text: string) {
    text != [] && text[0] == '\r' && (|text| == 1 || text[1] != '\n')
  }

  predicate IsLineEnd(text: string) {
    text != [] && (text[0] == '\n' || (text[0] == '\r' && |text| > 1 && text[1] == '\n'))
  }

  /** One escape, without its backslash: the character it stands for and its length. */
  function ReadEscape(reader: Reader, text: string): (r: Option<(char, nat)>)
    ensures r.Some? ==> 1 <= r.value.1 <= |text|
  {
    if text == [] then None
    else if reader == Lexer && IsLineEnd(text) then Some((text[0], 1))
    else if SimpleEscape(reader, text[0]).Some? then Some((SimpleEscape(reader, text[0]).value, 1))
    else if text[0] == 'u' && |text| > 1 && text[1] == '{' then
      var scalar := ReadScalar(reader, text[2..]);
      if scalar.None? then None else Some((scalar.value.0, 2 + scalar.value.1))
    else None
  }

  /** The value of a double-quoted body, absent when it is not one literal string. An escaped line end is a line end. */
  function ReadDouble(reader: Reader, text: string): Option<string>
    decreases |text|
  {
    if text == [] then Some([])
    else if text[0] == '\\' then
      var escape := ReadEscape(reader, text[1..]);
      if escape.None? then None else Prefix(escape.value.0, ReadDouble(reader, text[1..][escape.value.1..]))
    else if reader == Lexer && (text[0] == '"' || text[0] == '\0' || LoneReturn(text)) then None
    else if reader == Lexer && (text[0] == '{' || text[0] == '}') then
      // a doubled brace is one brace, a single one starts or ends an interpolation
      if |text| == 1 || text[1] != text[0] then None else Prefix(text[0], ReadDouble(reader, text[2..]))
    else Prefix(text[0], ReadDouble(reader, text[1..]))
  }

  function Prefix(c: char, rest: Option<string>): Option<string> {
    if rest.None? then None else Some([c] + rest.value)
  }

  lemma HexDigitInvertsHex(n: nat)
    requires n < 16
    ensures HexDigit(HEX[n]) == Some(n) && HEX[n] != '}' && HEX[n] != '+'
  {
  }

  lemma ReadHexStep(digit: nat, later: string, value: nat)
    requires digit < 16 && ReadHex(later, value * 16 + digit).Some?
    ensures var r := ReadHex(later, value * 16 + digit).value;
      ReadHex([HEX[digit]] + later, value) == Some((r.0, r.1 + 1))
  {
    HexDigitInvertsHex(digit);
    assert ([HEX[digit]] + later)[1..] == later;
  }

  lemma HexOfControl(n: nat)
    requires n < 256
    ensures Hex(n) == if n < 16 then [HEX[n]] else [HEX[n / 16], HEX[n % 16]]
  {
    assert n >= 16 ==> Hex(n / 16) == [HEX[n / 16]];
  }

  lemma ReadHexEnd(n: nat, rest: string)
    ensures ReadHex("}" + rest, n) == Some((n, 0))
  {
  }

  lemma ReadHexTwo(a: nat, b: nat, end: string)
    requires a < 16 && b < 16 && ReadHex(end, a * 16 + b) == Some((a * 16 + b, 0))
    ensures ReadHex([HEX[a], HEX[b]] + end, 0) == Some((a * 16 + b, 2))
  {
    ReadHexStep(b, end, a);
    ReadHexStep(a, [HEX[b]] + end, 0);
    assert [HEX[a], HEX[b]] + end == [HEX[a]] + ([HEX[b]] + end);
  }

  lemma ReadHexInvertsControl(n: nat, rest: string)
    requires n < 256
    ensures ReadHex(Hex(n) + ("}" + rest), 0) == Some((n, |Hex(n)|)) && |Hex(n)| <= 2 && Hex(n)[0] != '+'
  {
    HexOfControl(n);
    ReadHexEnd(n, rest);
    if n < 16 {
      ReadHexStep(n, "}" + rest, 0);
      HexDigitInvertsHex(n);
    } else {
      ReadHexTwo(n / 16, n % 16, "}" + rest);
      HexDigitInvertsHex(n / 16);
    }
  }

  predicate IsBrace(c: char) { c == '{' || c == '}' }

  /** One rendered character is read back as itself; braces only by the prefix decoder. */
  lemma ReadDoubleChar(reader: Reader, c: char, rest: string)
    requires reader == PrefixDecoder || !IsBrace(c)
    ensures ReadDouble(reader, DoubleChar(c) + rest) == Prefix(c, ReadDouble(reader, rest))
  {
    var text := DoubleChar(c) + rest;
    if |DoubleChar(c)| == 1 {
      assert text[1..] == rest;
    } else if |DoubleChar(c)| == 2 {
      assert text[1..][1..] == rest;
    } else {
      ReadDoubleControl(reader, c, rest);
    }
  }

  lemma ReadScalarControl(reader: Reader, n: nat, rest: string)
    requires n < 256
    ensures ReadScalar(reader, Hex(n) + ("}" + rest)) == Some((n as char, |Hex(n)| + 1))
  {
    ReadHexInvertsControl(n, rest);
  }

  lemma ReadUnicodeEscape(reader: Reader, body: string, c: char, width: nat)
    requires ReadScalar(reader, body) == Some((c, width))
    ensures ReadDouble(reader, "\\u{" + body) == Prefix(c, ReadDouble(reader, body[width..]))
  {
    var text, escape := "\\u{" + body, "u{" + body;
    assert escape[2..] == body;
    assert ReadEscape(reader, escape) == Some((c, 2 + width));
    assert text[1..] == escape;
    assert escape[2 + width..] == body[width..];
  }

  lemma Regroup(a: string, b: string, c: string, d: string)
    ensures a + b + c + d == a + (b + (c + d))
  {
  }

  lemma ReadDoubleControl(reader: Reader, c: char, rest: string)
    requires DoubleChar(c) == "\\u{" + Hex(c as int) + "}" && c as int < 256
    ensures ReadDouble(reader, DoubleChar(c) + rest) == Prefix(c, ReadDouble(reader, rest))
  {
    var digits := Hex(c as int);
    var body := digits + ("}" + rest);
    ReadScalarControl(reader, c as int, rest);
    ReadUnicodeEscape(reader, body, c, |digits| + 1);
    assert body[|digits| + 1..] == rest;
    Regroup("\\u{", digits, "}", rest);
  }

  /** The decoder of completion prefixes undoes the double-quoted rendering of every path. */
  lemma {:induction false} DecoderInvertsDoublePath(value: string)
    ensures ReadDouble(PrefixDecoder, DoublePath(value)) == Some(value)
  {
    if value != [] {
      ReadDoubleChar(PrefixDecoder, value[0], DoublePath(value[1..]));
      DecoderInvertsDoublePath(value[1..]);
      assert [value[0]] + value[1..] == value;
    }
  }

  predicate HasBrace(value: string) { exists c <- value :: IsBrace(c) }

  lemma DoubleCharStart(c: char, rest: string)
    ensures (DoubleChar(c) + rest)[0] == c <==> !(c == '"' || IsControl(c))
    ensures IsBrace((DoubleChar(c) + rest)[0]) ==> DoubleChar(c) == [c] == [(DoubleChar(c) + rest)[0]]
  {
  }

  lemma LexerReadsBraceText(c: char, rest: string)
    requires IsBrace(c)
    ensures ReadDouble(Lexer, [c] + rest) ==
      if rest == [] || rest[0] != c then None else Prefix(c, ReadDouble(Lexer, rest[1..]))
  {
    var text := [c] + rest;
    assert rest != [] ==> text[1] == rest[0] && text[2..] == rest[1..];
  }

  lemma LexerReadsBraceThen(c: char, d: char, later: string)
    requires IsBrace(c)
    ensures var read := ReadDouble(Lexer, [c] + (DoubleChar(d) + later));
      read.Some? ==> read == Prefix(c, ReadDouble(Lexer, later))
  {
    var rest := DoubleChar(d) + later;
    LexerReadsBraceText(c, rest);
    DoubleCharStart(d, later);
    if IsBrace(rest[0]) {
      assert rest[1..] == later;
    }
  }

  /** A leading brace is read only as half of a doubled one. */
  lemma LexerReadsBrace(value: string)
    requires value != [] && IsBrace(value[0])
    ensures var read := ReadDouble(Lexer, DoublePath(value));
      read.Some? ==> |value| > 1 && read == Prefix(value[0], ReadDouble(Lexer, DoublePath(value[2..])))
  {
    assert DoublePath(value) == [value[0]] + DoublePath(value[1..]);
    if value[1..] == [] {
      LexerReadsBraceText(value[0], []);
    } else {
      assert value[1..][1..] == value[2..];
      LexerReadsBraceThen(value[0], value[1], DoublePath(value[2..]));
    }
  }

  /** Every brace of the path costs the lexer a character. */
  lemma {:induction false} LexerReadsAtMost(value: string)
    ensures !HasBrace(value) ==> ReadDouble(Lexer, DoublePath(value)) == Some(value)
    ensures var read := ReadDouble(Lexer, DoublePath(value));
      read.Some? ==> |read.value| <= |value| && (HasBrace(value) ==> |read.value| < |value|)
    decreases |value|
  {
    if value != [] {
      var rest := DoublePath(value[1..]);
      assert value == [value[0]] + value[1..];
      if IsBrace(value[0]) {
        LexerReadsBrace(value);
        if |value| > 1 {
          LexerReadsAtMost(value[2..]);
        }
      } else {
        ReadDoubleChar(Lexer, value[0], rest);
        LexerReadsAtMost(value[1..]);
      }
    }
  }

  /**
    As source text the rendering denotes the path exactly when the path holds no brace: braces are not
    doubled, so the lexer takes them for interpolations.
   */
  lemma LexerInvertsDoublePathExactlyWhen(value: string)
    ensures ReadDouble(Lexer, DoublePath(value)) == Some(value) <==> !HasBrace(value)
  {
    LexerReadsAtMost(value);
  }

  /** The smallest path that a double-quoted completion misspells. */
  lemma BracePathIsMisread()
    ensures DoublePath("{") == "{" && ReadDouble(Lexer, DoublePath("{")) == None
  {
    assert DoubleChar('{') + DoublePath([]) == "{";
  }

  /** Distinct paths are never offered under the same double-quoted spelling. */
  lemma DoublePathInjective(a: string, b: string)
    requires DoublePath(a) == DoublePath(b)
    ensures a == b
  {
    DecoderInvertsDoublePath(a);
    DecoderInvertsDoublePath(b);
  }

  /** No control character survives, so the rendering is one printable line. */
  lemma {:induction false} DoublePathHasNoControls(value: string)
    ensures forall c <- DoublePath(value) :: !IsControl(c)
  {
    if value != [] {
      DoublePathHasNoControls(value[1..]);
    }
  }

  // ---------- Where a double-quoted body ends ----------

  /** The first quote that no backslash escapes. */
  function ClosingQuote(text: string): (r: Option<nat>)
    ensures r.Some? ==> r.value < |text| && text[r.value] == '"'
    decreases |text|
  {
    if text == [] then None
    else if text[0] == '"' then Some(0)
    else
      var skipped := if text[0] == '\\' then 2 else 1;
      if |text| < skipped then None
      else
        var later := ClosingQuote(text[skipped..]);
        if later.None? then None else Some(later.value + skipped)
  }

  function Shifted(found: Option<nat>, width: nat): Option<nat> {
    if found.None? then None else Some(found.value + width)
  }

  predicate Inert(text: string) { '"' !in text && '\\' !in text }

  lemma {:induction false} ClosingQuoteAfterInert(plain: string, rest: string)
    requires Inert(plain)
    ensures ClosingQuote(plain + rest) == Shifted(ClosingQuote(rest), |plain|)
  {
    if plain == [] {
      assert plain + rest == rest;
    } else {
      assert (plain + rest)[1..] == plain[1..] + rest;
      ClosingQuoteAfterInert(plain[1..], rest);
    }
  }

  lemma ClosingQuoteAfterEscape(escaped: char, plain: string, rest: string)
    requires Inert(plain)
    ensures ClosingQuote(['\\', escaped] + plain + rest) == Shifted(ClosingQuote(rest), 2 + |plain|)
  {
    ClosingQuoteAfterInert(plain, rest);
    assert (['\\', escaped] + plain + rest)[2..] == plain + rest;
  }

  predicate IsPiece(text: string) {
    Inert(text) || (|text| >= 2 && text[0] == '\\' && Inert(text[2..]))
  }

  /** A rendered character is inert, or an escape followed by inert text. */
  lemma DoubleCharIsPiece(c: char)
    ensures IsPiece(DoubleChar(c))
  {
    HexIsInert(c as int);
    assert ("\\u{" + Hex(c as int) + "}")[2..] == "{" + Hex(c as int) + "}";
  }

  lemma ClosingQuoteAfterPiece(piece: string, rest: string)
    requires IsPiece(piece)
    ensures ClosingQuote(piece + rest) == Shifted(ClosingQuote(rest), |piece|)
  {
    if Inert(piece) {
      ClosingQuoteAfterInert(piece, rest);
    } else {
      ClosingQuoteAfterEscape(piece[1], piece[2..], rest);
      assert piece == ['\\', piece[1]] + piece[2..];
    }
  }

  lemma ClosingQuoteAfterTwo(piece: string, tail: string, rest: string)
    requires IsPiece(piece) && ClosingQuote(tail + rest) == Shifted(ClosingQuote(rest), |tail|)
    ensures ClosingQuote(piece + tail + rest) == Shifted(ClosingQuote(rest), |piece + tail|)
  {
    ClosingQuoteAfterPiece(piece, tail + rest);
    assert piece + tail + rest == piece + (tail + rest);
  }

  lemma {:induction false} ClosingQuoteAfterBody(value: string, rest: string)
    ensures ClosingQuote(DoublePath(value) + rest) == Shifted(ClosingQuote(rest), |DoublePath(value)|)
  {
    if value == [] {
      assert DoublePath(value) + rest == rest;
    } else {
      ClosingQuoteAfterBody(value[1..], rest);
      DoubleCharIsPiece(value[0]);
      ClosingQuoteAfterTwo(DoubleChar(value[0]), DoublePath(value[1..]), rest);
    }
  }

  /** The body never holds an unescaped quote: whatever follows it, the next quote after it is the closing one. */
  lemma DoublePathEndsAtItsQuote(value: string, rest: string)
    ensures ClosingQuote(DoublePath(value)) == None
    ensures ClosingQuote(DoublePath(value) + ("\"" + rest)) == Some(|DoublePath(value)|)
  {
    ClosingQuoteAfterBody(value, []);
    assert DoublePath(value) + [] == DoublePath(value);
    ClosingQuoteAfterBody(value, "\"" + rest);
  }

  // ---------- Single quotes and the choice of form ----------

  /** `value.replace('\'', "'\\''")` */
  function SinglePath(value: string): string {
    if value == [] then []
    else (if value[0] == '\'' then "'\\''" else [value[0]]) + SinglePath(value[1..])
  }

  datatype Style = Bare | SingleQuoted | DoubleQuoted | DoubleQuotedFragment

  predicate HasControl(value: string) { exists k :: 0 <= k < |value| && IsControl(value[k]) }

  /** The cases that switch to the double-quoted form, whatever the context. */
  predicate SwitchesToDouble(value: string, style: Style, expressionLiteral: bool) {
    && style != DoubleQuoted && style != DoubleQuotedFragment
    && (HasControl(value) || (style == Bare && '$' in value) || (expressionLiteral && style == SingleQuoted && '\'' in value))
  }

  function RenderPath(value: string, style: Style, expressionLiteral: bool): string {
    if SwitchesToDouble(value, style, expressionLiteral) then "\"" + DoublePath(value) + "\""
    else
      match style
      case Bare => BarePath(value)
      case SingleQuoted => "'" + SinglePath(value) + "'"
      case DoubleQuoted => "\"" + DoublePath(value) + "\""
      case DoubleQuotedFragment => DoublePath(value) + "\""
  }

  predicate IsDoubleForm(value: string, style: Style, expressionLiteral: bool) {
    SwitchesToDouble(value, style, expressionLiteral) || style.DoubleQuoted? || style.DoubleQuotedFragment?
  }
}

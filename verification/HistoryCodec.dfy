/**
  The bytes of the shared history file: one escaped entry per line.

  `EncodeEntry` and `DecodeEntry` are the character loops of the source, proved against the
  functions `Encoded` and `Decoded`. `Parse` is the whole reader (split into lines, check UTF-8,
  unescape) and `Render` the whole writer.
*/
module HistoryCodec {
  import opened Wrappers
  import Utf8

  datatype DecodeError = InvalidEscape(escaped: char) | UnterminatedEscape | InvalidUtf8

  // ---------- One entry ----------

  function Escape(c: char): string {
    match c
    case '\\' => "\\\\"
    case '\n' => "\\n"
    case '\r' => "\\r"
    case '\0' => "\\0"
    case _ => [c]
  }

  function Encoded(entry: string): string {
    if entry == [] then [] else Escape(entry[0]) + Encoded(entry[1..])
  }

  function Unescape(c: char): Result<char, DecodeError> {
    match c
    case '\\' => Success('\\')
    case 'n' => Success('\n')
    case 'r' => Success('\r')
    case '0' => Success('\0')
    case _ => Failure(InvalidEscape(c))
  }

  function Decoded(line: string): Result<string, DecodeError> {
    if line == [] then Success([])
    else if line[0] != '\\' then Prepend(line[0], Decoded(line[1..]))
    else if |line| == 1 then Failure(UnterminatedEscape)
    else
      var first := Unescape(line[1]);
      if first.Failure? then Failure(first.error) else Prepend(first.value, Decoded(line[2..]))
  }

  function Prepend(c: char, rest: Result<string, DecodeError>): Result<string, DecodeError> {
    if rest.Failure? then rest else Success([c] + rest.value)
  }

  method EncodeEntry(entry: string) returns (encoded: string)
    ensures encoded == Encoded(entry)
  {
    encoded := [];
    var i := 0;
    while i < |entry|
      invariant 0 <= i <= |entry|
      invariant encoded + Encoded(entry[i..]) == Encoded(entry)
    {
      ghost var rest := Encoded(entry[i + 1..]);
      assert entry[i..][1..] == entry[i + 1..];
      assert encoded + (Escape(entry[i]) + rest) == encoded + Escape(entry[i]) + rest;
      encoded := encoded + Escape(entry[i]);
      i := i + 1;
    }
  }

  /** `decoded` followed by what the rest of the line decodes to. */
  function Resume(decoded: string, rest: Result<string, DecodeError>): Result<string, DecodeError> {
    if rest.Failure? then rest else Success(decoded + rest.value)
  }

  lemma ResumePrepend(decoded: string, c: char, rest: Result<string, DecodeError>)
    ensures Resume(decoded, Prepend(c, rest)) == Resume(decoded + [c], rest)
  {
    if rest.Success? {
      assert decoded + ([c] + rest.value) == decoded + [c] + rest.value;
    }
  }

  method DecodeEntry(line: string) returns (r: Result<string, DecodeError>)
    ensures r == Decoded(line)
  {
    var decoded: string := [];
    var i := 0;
    assert line[0..] == line;
    assert Decoded(line).Success? ==> [] + Decoded(line).value == Decoded(line).value;
    while i < |line|
      invariant 0 <= i <= |line|
      invariant Resume(decoded, Decoded(line[i..])) == Decoded(line)
    {
      var character := line[i];
      i := i + 1;
      assert line[i - 1..][1..] == line[i..];
      if character != '\\' {
        ResumePrepend(decoded, character, Decoded(line[i..]));
        decoded := decoded + [character];
      } else if i == |line| {
        return Failure(UnterminatedEscape);
      } else {
        assert line[i - 1..][2..] == line[i + 1..];
        var unescaped := Unescape(line[i]);
        if unescaped.Failure? {
          return Failure(unescaped.error);
        }
        ResumePrepend(decoded, unescaped.value, Decoded(line[i + 1..]));
        decoded := decoded + [unescaped.value];
        i := i + 1;
      }
    }
    assert decoded + [] == decoded;
    r := Success(decoded);
  }

  /** Unescaping inverts escaping on every string. */
  lemma {:induction false} DecodedInvertsEncoded(entry: string)
    ensures Decoded(Encoded(entry)) == Success(entry)
  {
    if entry != [] {
      DecodedInvertsEncoded(entry[1..]);
      var escape, rest := Escape(entry[0]), Encoded(entry[1..]);
      assert Encoded(entry)[|escape|..] == rest;
      assert [entry[0]] + entry[1..] == entry;
    }
  }

  /** Escaped entries hold no line structure and no NUL. */
  lemma {:induction false} EncodedIsOneLine(entry: string)
    ensures '\n' !in Encoded(entry) && '\r' !in Encoded(entry) && '\0' !in Encoded(entry)
  {
    if entry != [] {
      EncodedIsOneLine(entry[1..]);
    }
  }

  // ---------- Lines ----------

  function FindNewline(b: seq<Byte>): (i: nat)
    ensures i <= |b|
    ensures i < |b| ==> b[i] == NEWLINE
    ensures NEWLINE !in b[..i]
  {
    if b == [] || b[0] == NEWLINE then 0
    else
      var i := FindNewline(b[1..]);
      assert b[..i + 1] == [b[0]] + b[1..][..i];
      i + 1
  }

  /** A carriage return is dropped only together with the newline that follows it. */
  function StripReturn(line: seq<Byte>): seq<Byte> {
    if line != [] && line[|line| - 1] == RETURN then line[..|line| - 1] else line
  }

  function FirstLine(b: seq<Byte>): seq<Byte> {
    var i := FindNewline(b);
    if i == |b| then b else StripReturn(b[..i])
  }

  function AfterFirstLine(b: seq<Byte>): (rest: seq<Byte>)
    ensures b != [] ==> |rest| < |b|
  {
    var i := FindNewline(b);
    if i == |b| then [] else b[i + 1..]
  }

  function DecodeLine(line: seq<Byte>): Result<string, DecodeError> {
    var text := Utf8.Decode(line);
    if text.None? then Failure(InvalidUtf8) else Decoded(text.value)
  }

  /** The entries of a whole file, or the first error in it. */
  function Parse(b: seq<Byte>): Result<seq<string>, DecodeError>
    decreases |b|
  {
    if b == [] then Success([])
    else
      var first := DecodeLine(FirstLine(b));
      if first.Failure? then Failure(first.error)
      else
        var rest := Parse(AfterFirstLine(b));
        if rest.Failure? then rest else Success([first.value] + rest.value)
  }

  function RenderEntry(entry: string): (line: seq<Byte>)
    ensures |line| > 0
  {
    Utf8.Encode(Encoded(entry)) + [NEWLINE]
  }

  function Render(entries: seq<string>): seq<Byte> {
    if entries == [] then [] else RenderEntry(entries[0]) + Render(entries[1..])
  }

  /** `entries` followed by what the rest of the file holds. */
  function Continue(entries: seq<string>, rest: Result<seq<string>, DecodeError>)
    : Result<seq<string>, DecodeError>
  {
    if rest.Failure? then rest else Success(entries + rest.value)
  }

  /** The reading half of `sync`: a loop over lines that stops at the first bad one. */
  method ReadEntries(b: seq<Byte>) returns (r: Result<seq<string>, DecodeError>)
    ensures r == Parse(b)
  {
    var entries: seq<string> := [];
    var rest := b;
    assert Parse(b).Success? ==> [] + Parse(b).value == Parse(b).value;
    while rest != []
      invariant Parse(b) == Continue(entries, Parse(rest))
      decreases |rest|
    {
      var text := Utf8.Decode(FirstLine(rest));
      if text.None? {
        return Failure(InvalidUtf8);
      }
      var entry := DecodeEntry(text.value);
      if entry.Failure? {
        return Failure(entry.error);
      }
      ghost var later := Parse(AfterFirstLine(rest));
      assert later.Success? ==> entries + ([entry.value] + later.value) == entries + [entry.value] + later.value;
      entries := entries + [entry.value];
      rest := AfterFirstLine(rest);
    }
    assert entries + [] == entries;
    r := Success(entries);
  }

  lemma FirstLineOfRendered(entry: string, rest: seq<Byte>)
    ensures FirstLine(RenderEntry(entry) + rest) == Utf8.Encode(Encoded(entry))
    ensures AfterFirstLine(RenderEntry(entry) + rest) == rest
  {
    var line := Utf8.Encode(Encoded(entry));
    var b := RenderEntry(entry) + rest;
    EncodedIsOneLine(entry);
    Utf8.AsciiBytesAreCharacters(Encoded(entry), '\n');
    Utf8.AsciiBytesAreCharacters(Encoded(entry), '\r');
    var i := FindNewline(b);
    assert b[|line|] == NEWLINE && b[..|line|] == line;
    assert i == |line|;
    assert b[i + 1..] == rest;
  }

  /** Reading back what was written yields the same entries, whatever characters they hold. */
  lemma {:induction false} ParseInvertsRender(entries: seq<string>)
    ensures Parse(Render(entries)) == Success(entries)
  {
    if entries != [] {
      var entry, rest := entries[0], Render(entries[1..]);
      FirstLineOfRendered(entry, rest);
      Utf8.DecodeInvertsEncode(Encoded(entry));
      DecodedInvertsEncoded(entry);
      ParseInvertsRender(entries[1..]);
      assert [entry] + entries[1..] == entries;
    }
  }

  /** Two histories with the same bytes are the same history. */
  lemma RenderInjective(a: seq<string>, b: seq<string>)
    requires Render(a) == Render(b)
    ensures a == b
  {
    ParseInvertsRender(a);
    ParseInvertsRender(b);
  }

  lemma {:induction false} RenderConcat(a: seq<string>, b: seq<string>)
    ensures Render(a + b) == Render(a) + Render(b)
  {
    if a == [] {
      assert a + b == b;
    } else {
      assert (a + b)[1..] == a[1..] + b;
      RenderConcat(a[1..], b);
    }
  }
}

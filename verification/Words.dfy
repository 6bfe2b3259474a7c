/**
  How an inserted completion is read in its place.

  A completion lands in a word of a command, in a literal of an expression, or in an import entry. The
  readers follow the lexer's tokens and the parser's choice among them; each reads a text that must be
  exactly one word, one literal or one import path, followed by a blank or the end. Behind the blank of a
  head that is a lone name, no operator is taken to follow.

  Whether there is a word at all depends on the place: the parser looks at the first token of a stage, and
  behind a name at the next one, to choose between a command, an expression and an assignment; and an
  operator in front of the text may swallow its first character. The result says, for every path, style and
  place, when the inserted text denotes the path.
*/
module Words {
  import opened Wrappers
  import opened Renderers

  /** Where a stage stands: first in a statement, first in parentheses, or behind another stage. */
  datatype Opening = Statement | Grouped | Later

  datatype Redirect = Input | Output | Append

  datatype Position =
    /**
      the first word of a stage; `valued` where a lone name is a value: in a value chain at the end of a stage,
      and in a condition in front of its block
     */
    | Head(opening: Opening, valued: bool)
    /** behind a blank behind a name that is the whole first word */
    | NameArgument(opening: Opening)
    /** any later argument, an argument behind another first word, or the word behind a caret */
    | Argument
    /** behind an interpolation, within a word of a command */
    | WordTail
    /** behind a redirection, directly or behind a blank; the redirection may stand directly behind a name */
    | RedirectTarget(redirect: Redirect, glued: bool, behindName: bool)
    /** a string of an expression, as the argument of `glob` or elsewhere */
    | Literal(glob: bool)
    | ImportPath

  predicate IsGlob(position: Position) { position.Literal? && position.glob }

  /** Behind a lone first name, the signs of input and output compare; only the one of appending redirects. */
  predicate Compares(position: Position) {
    position.RedirectTarget? && position.behindName && !position.redirect.Append?
  }

  // ---------- Tokens of a bare word ----------

  /** `==`, `!=`, the compound assignments, the two arrows and the range. */
  predicate LongOperator(a: char, b: char) {
    (b == '=' && a in "=!+-*/%") || (b == '>' && a in "-=") || (a == '.' && b == '.')
  }

  predicate ShortOperator(c: char) { c in "=+-*/%!.,:^" }

  /** The width of the operator at the front that may stand in a word, 0 if there is none. Longest match first. */
  function WordOperator(text: string): (width: nat)
    ensures width <= |text| && width <= 3
  {
    if |text| >= 3 && text[0] == text[1] == '.' && text[2] == '=' then 3
    else if |text| >= 2 && LongOperator(text[0], text[1]) then 2
    else if text != [] && ShortOperator(text[0]) then 1
    else 0
  }

  predicate StartsSpread(text: string) { |text| >= 3 && text[0] == text[1] == text[2] == '.' }

  /** Characters that end a word or make it invalid. */
  predicate EndsWord(c: char) { c in " \t\n\r\0$|&;<>()[]" }

  /** Characters a backslash does not quote: a line end is a continuation, the others are invalid. */
  predicate Unquotable(c: char) { c in "\n\r\0$" }

  function Joined(part: string, rest: Option<string>): Option<string> {
    if rest.None? then None else Some(part + rest.value)
  }

  lemma JoinedParts(a: string, b: string, rest: Option<string>)
    ensures Joined(a + b, rest) == Joined(a, Joined(b, rest))
  {
    if rest.Some? {
      assert a + b + rest.value == a + (b + rest.value);
    }
  }

  lemma JoinedNothing(a: string, rest: Option<string>)
    ensures Joined([], rest) == rest && Joined(a, Some([])) == Some(a)
  {
    assert a + [] == a;
    assert rest.Some? ==> [] + rest.value == rest.value;
  }

  /** The end of a single-quoted token after its opening quote. */
  function SingleQuoteEnd(text: string): (r: Option<nat>)
    ensures r.Some? ==> r.value < |text| && text[r.value] == '\''
  {
    if text == [] || text[0] == '\0' || LoneReturn(text) then None
    else if text[0] == '\'' then Some(0)
    else
      var later := SingleQuoteEnd(text[1..]);
      if later.None? then None else Some(later.value + 1)
  }

  /**
    One word to the end of the text: bare tokens, escapes and quoted parts that touch. At a `boundary`, where
    the word starts or a brace was taken, a number sign opens a comment.
   */
  function ReadWord(text: string, boundary: bool): Option<string>
    decreases |text|
  {
    if text == [] then Some([])
    else if text[0] == '\\' then
      if |text| == 1 then Some([])
      else if Unquotable(text[1]) then None
      else Joined([text[1]], ReadWord(text[2..], false))
    else if text[0] == '\'' then
      var end := SingleQuoteEnd(text[1..]);
      if end.None? then None else Joined(text[1..][..end.value], ReadWord(text[1..][end.value + 1..], false))
    else if text[0] == '"' then
      var end := ClosingQuote(text[1..]);
      if end.None? then None
      else
        var body := ReadDouble(Lexer, text[1..][..end.value]);
        if body.None? then None else Joined(body.value, ReadWord(text[1..][end.value + 1..], false))
    else if EndsWord(text[0]) || StartsSpread(text) || (boundary && text[0] == '#') then None
    else if IsBrace(text[0]) then
      // a doubled brace is one brace, a single one opens or ends an interpolation
      if |text| == 1 || text[1] != text[0] then None else Joined([text[0]], ReadWord(text[2..], true))
    else
      var width := WordOperator(text);
      if width > 0 then Joined(text[..width], ReadWord(text[width..], false))
      else Joined([text[0]], ReadWord(text[1..], false))
  }

  /** A word of a command. The empty text is none. */
  function ReadCommandWord(text: string): Option<string> {
    if text == [] then None else ReadWord(text, true)
  }

  /** One quoted literal of an expression. */
  function ReadLiteral(text: string): Option<string> {
    if text == [] then None
    else if text[0] == '\'' && SingleQuoteEnd(text[1..]) == Some(|text| - 2) then Some(text[1..|text| - 1])
    else if text[0] == '"' && ClosingQuote(text[1..]) == Some(|text| - 2) then ReadDouble(Lexer, text[1..|text| - 1])
    else None
  }

  /** The path of an import entry: one single-quoted token that is not empty. */
  function ReadImport(text: string): Option<string> {
    if |text| > 2 && text[0] == '\'' && SingleQuoteEnd(text[1..]) == Some(|text| - 2) then Some(text[1..|text| - 1]) else None
  }

  /** The rest of a double-quoted text after an interpolation. */
  function ReadFragment(text: string): Option<string> {
    if text != [] && ClosingQuote(text) == Some(|text| - 1) then ReadDouble(Lexer, text[..|text| - 1]) else None
  }

  // ---------- What the place makes of the first token ----------

  predicate IsArithmetic(c: char) { c in "+-*/%" }

  /** Two minus signs that are tokens of their own: behind a blank they begin a long option. */
  predicate LongOption(text: string) {
    |text| >= 2 && text[0] == '-' && text[1] == '-' && WordOperator(text[1..]) == 1
  }

  /**
    The text starts with an operator that makes an expression of the name before it. Brackets and comparison
    signs do too, but no word starts with them anyway.
   */
  predicate ContinuesExpression(text: string, adjacent: bool) {
    var width := WordOperator(text);
    && !StartsSpread(text)
    && (width == 3
        || (width == 2 && (text[0] == '.' || (text[1] == '=' && text[0] in "=!")))
        || (width == 1 && (text[0] in ":." || IsArithmetic(text[0])) && (adjacent || !LongOption(text))))
  }

  /** The text starts with an assignment operator that is looked for here: in parentheses a plain one is not. */
  predicate Assigns(text: string, opening: Opening) {
    var width := WordOperator(text);
    || (opening.Statement? && width == 1 && text[0] == '=')
    || (!opening.Later? && width == 2 && text[1] == '=' && IsArithmetic(text[0]))
  }

  predicate IsDigit(c: char) { '0' <= c <= '9' }

  predicate StartsIdentifier(c: char) { 'a' <= c <= 'z' || 'A' <= c <= 'Z' || c == '_' }

  function IdentifierWidth(text: string): (width: nat)
    ensures width <= |text|
  {
    if text == [] || !(StartsIdentifier(text[0]) || IsDigit(text[0])) then 0 else 1 + IdentifierWidth(text[1..])
  }

  const KEYWORDS: seq<string> := [
    "action", "break", "catch", "continue", "def", "else", "enum", "export", "false", "for", "if", "import", "in",
    "let", "match", "mut", "null", "return", "task", "throw", "true", "try", "type", "unset", "while"
  ]

  /** A lone exclamation mark, plus or minus sign. */
  predicate StartsWithSign(text: string) {
    text != [] && text[0] in "!+-" && WordOperator(text) == 1
  }

  /** The text, first in its stage, is the head of a command and not an expression, an assignment or a forced name. */
  predicate HeadsCommand(text: string, opening: Opening, valued: bool) {
    && text != [] && text[0] !in "'\"^([{" && !IsDigit(text[0]) && !StartsWithSign(text)
    && (StartsIdentifier(text[0]) ==>
          var width := IdentifierWidth(text);
          text[..width] !in KEYWORDS && NameHeadsCommand(text[width..], opening, valued))
  }

  /** What follows a name at the front, up to the end of the word. */
  predicate NameHeadsCommand(rest: string, opening: Opening, valued: bool) {
    !(rest == [] && valued) && !ContinuesExpression(rest, true) && !Assigns(rest, opening)
  }

  /** The redirection takes the first character for its own second one. */
  predicate Merges(redirect: Redirect, text: string) {
    text != [] && ((!redirect.Append? && text[0] == '=') || (redirect.Output? && text[0] in ">&"))
  }

  function ReadAt(position: Position, style: Style, text: string): Option<string> {
    if Compares(position) then None
    else if style.DoubleQuotedFragment? then if position.ImportPath? || position.Head? then None else ReadFragment(text)
    else
      match position
      case Head(opening, valued) => if HeadsCommand(text, opening, valued) then ReadCommandWord(text) else None
      case NameArgument(opening) => if ContinuesExpression(text, false) || Assigns(text, opening) then None else ReadCommandWord(text)
      case Argument => ReadCommandWord(text)
      case WordTail => ReadWord(text, true)
      case RedirectTarget(redirect, glued, _) => if glued && Merges(redirect, text) then None else ReadCommandWord(text)
      case Literal(_) => ReadLiteral(text)
      case ImportPath => ReadImport(text)
  }

  // ---------- Bare words ----------

  predicate SpreadAt(value: string, k: nat) { k <= |value| && StartsSpread(value[k..]) }

  ghost predicate HasSpread(value: string) { exists k: nat :: SpreadAt(value, k) }

  /** As many characters of the value as the rendering starts with unescaped. */
  lemma {:induction false} BarePathFront(value: string, width: nat)
    requires width <= |BarePath(value)| && '\\' !in BarePath(value)[..width]
    ensures width <= |value| && BarePath(value)[..width] == value[..width]
    ensures BarePath(value)[width..] == BarePath(value[width..])
  {
    var text := BarePath(value);
    if width > 0 {
      assert text[..width][0] == text[0];
      assert text[1..] == BarePath(value[1..]);
      assert text[..width] == [text[0]] + text[1..][..width - 1];
      BarePathFront(value[1..], width - 1);
      assert value[1..][..width - 1] == value[1..width];
      assert value[1..][width - 1..] == value[width..];
    }
  }

  /** Dots are never escaped, so a spread shows through the rendering, and none is made by it. */
  lemma BarePathKeepsSpread(value: string)
    ensures StartsSpread(BarePath(value)) <==> StartsSpread(value)
  {
    if StartsSpread(BarePath(value)) {
      BarePathFront(value, 3);
    }
    if StartsSpread(value) {
      assert value[1..][1..] == value[2..];
      assert BarePath(value) == ['.'] + BarePath(value[1..]);
      assert BarePath(value[1..]) == ['.'] + BarePath(value[2..]);
      assert BarePath(value[2..]) == ['.'] + BarePath(value[2..][1..]);
    }
  }

  predicate IsToken(token: string) {
    || |token| == 1
    || (|token| == 2 && LongOperator(token[0], token[1]))
    || (|token| == 3 && token[2] == '=')
  }

  lemma SpreadAtShifts(value: string, width: nat, k: nat)
    requires width <= |value|
    ensures SpreadAt(value[width..], k) <==> SpreadAt(value, width + k)
  {
    if k <= |value| - width {
      assert value[width..][k..] == value[width + k..];
    }
  }

  /** A spread does not start inside another token. */
  lemma NoSpreadInside(value: string, width: nat, k: nat)
    requires width <= |value| && IsToken(value[..width]) && !StartsSpread(value) && SpreadAt(value, k)
    ensures k >= width
  {
    var rest := value[k..];
    assert rest[0] == value[k] && rest[1] == value[k + 1] && rest[2] == value[k + 2];
    assert value[0..] == value;
  }

  /** Taking a token that is not a spread hides no spread that starts inside it. */
  lemma SpreadSurvivesToken(value: string, width: nat)
    requires width <= |value| && IsToken(value[..width]) && !StartsSpread(value)
    ensures HasSpread(value) <==> HasSpread(value[width..])
  {
    if k: nat :| SpreadAt(value, k) {
      NoSpreadInside(value, width, k);
      SpreadAtShifts(value, width, k - width);
    }
    if k: nat :| SpreadAt(value[width..], k) {
      SpreadAtShifts(value, width, k);
    }
  }

  /** A value without controls and dollar signs: the guard under which the bare form is chosen. */
  predicate Bareable(value: string) { !HasControl(value) && '$' !in value }

  lemma BareableTail(value: string, width: nat)
    requires Bareable(value) && width <= |value|
    ensures Bareable(value[width..])
  {
  }

  lemma OperatorHasNoBackslash(text: string)
    ensures '\\' !in text[..WordOperator(text)]
  {
  }

  lemma TokenAtFront(text: string)
    ensures WordOperator(text) > 0 ==> IsToken(text[..WordOperator(text)])
  {
  }

  /** One escaped character. */
  lemma EscapedCharIsRead(c: char, rest: string, boundary: bool)
    requires !Unquotable(c)
    ensures ReadWord(['\\', c] + rest, boundary) == Joined([c], ReadWord(rest, false))
  {
    assert (['\\', c] + rest)[2..] == rest;
  }

  predicate IsPlain(c: char) {
    c != '\\' && c != '\'' && c != '"' && c != '#' && !EndsWord(c) && !IsBrace(c)
  }

  lemma UnescapedIsPlain(c: char)
    requires !NeedsEscape(c) && !IsControl(c) && c != '$'
    ensures IsPlain(c)
  {
  }

  /** One unescaped token, of a text that does not start a spread. */
  lemma PlainTokenIsRead(text: string, boundary: bool)
    requires text != [] && !StartsSpread(text) && IsPlain(text[0])
    ensures var width := if WordOperator(text) > 0 then WordOperator(text) else 1;
      ReadWord(text, boundary) == Joined(text[..width], ReadWord(text[width..], false))
  {
    assert text[..1] == [text[0]];
  }

  /** The first token of a bare spelling, as part of the value. */
  lemma FirstToken(value: string, boundary: bool) returns (width: nat)
    requires value != [] && Bareable(value) && !StartsSpread(value)
    ensures 0 < width <= |value| && (HasSpread(value) <==> HasSpread(value[width..]))
    ensures ReadWord(BarePath(value), boundary) == Joined(value[..width], ReadWord(BarePath(value[width..]), false))
  {
    var text := BarePath(value);
    BarePathKeepsSpread(value);
    if NeedsEscape(value[0]) {
      width := 1;
      assert value[..1] == [value[0]];
      EscapedCharIsRead(value[0], BarePath(value[1..]), boundary);
    } else {
      width := if WordOperator(text) > 0 then WordOperator(text) else 1;
      OperatorHasNoBackslash(text);
      UnescapedIsPlain(value[0]);
      BarePathFront(value, width);
      PlainTokenIsRead(text, boundary);
      TokenAtFront(text);
    }
    SpreadSurvivesToken(value, width);
  }

  lemma SpreadIsNoWord(value: string, boundary: bool)
    requires StartsSpread(value)
    ensures HasSpread(value) && ReadWord(BarePath(value), boundary) == None
  {
    assert value[0..] == value;
    assert SpreadAt(value, 0);
    BarePathKeepsSpread(value);
  }

  lemma EmptyIsRead(boundary: bool)
    ensures !HasSpread([]) && ReadWord(BarePath([]), boundary) == Some([])
  {
  }

  lemma JoinedHalves(value: string, width: nat)
    requires width <= |value|
    ensures Joined(value[..width], Some(value[width..])) == Some(value)
  {
    assert value[..width] + value[width..] == value;
  }

  /** A bare spelling is read back unless the path holds three dots in a row: these end the word. */
  lemma {:induction false} BareWordIsReadExactlyWhen(value: string, boundary: bool)
    requires Bareable(value)
    ensures ReadWord(BarePath(value), boundary) == if HasSpread(value) then None else Some(value)
    decreases |value|
  {
    if value == [] {
      EmptyIsRead(boundary);
    } else if StartsSpread(value) {
      SpreadIsNoWord(value, boundary);
    } else {
      var width := FirstToken(value, boundary);
      BareableTail(value, width);
      BareWordIsReadExactlyWhen(value[width..], false);
      JoinedHalves(value, width);
    }
  }

  // ---------- Single quotes ----------

  /** What follows an opening single quote. */
  function ReadInside(text: string): Option<string> {
    var end := SingleQuoteEnd(text);
    if end.None? then None else Joined(text[..end.value], ReadWord(text[end.value + 1..], false))
  }

  lemma QuotedCharIsRead(c: char, rest: string)
    requires c != '\'' && !IsControl(c)
    ensures ReadInside([c] + rest) == Joined([c], ReadInside(rest))
  {
    var text := [c] + rest;
    assert text[1..] == rest;
    var end := SingleQuoteEnd(rest);
    if end.Some? {
      assert text[..end.value + 1] == [c] + rest[..end.value];
      assert text[end.value + 2..] == rest[end.value + 1..];
      JoinedParts([c], rest[..end.value], ReadWord(rest[end.value + 1..], false));
    }
  }

  lemma OpeningQuoteIsRead(rest: string, boundary: bool)
    ensures ReadWord("'" + rest, boundary) == ReadInside(rest)
  {
    assert ("'" + rest)[1..] == rest;
  }

  /** Closing, escaping and reopening stands for one quote. */
  lemma QuoteIsRead(rest: string)
    ensures ReadInside("'\\''" + rest) == Joined("'", ReadInside(rest))
  {
    var text, escaped, reopened := "'\\''" + rest, "\\''" + rest, "'" + rest;
    assert text[..0] == [] && text[1..] == escaped;
    assert escaped == ['\\', '\''] + reopened;
    EscapedCharIsRead('\'', reopened, false);
    OpeningQuoteIsRead(rest, false);
    JoinedNothing([], ReadWord(escaped, false));
  }

  lemma SinglePathFirst(value: string)
    requires value != []
    ensures SinglePath(value) + "'" ==
      (if value[0] == '\'' then "'\\''" else [value[0]]) + (SinglePath(value[1..]) + "'")
  {
  }

  /** A single-quoted spelling is read back as a command word, quotes included. */
  lemma {:induction false} SinglePathIsRead(value: string)
    requires !HasControl(value)
    ensures ReadInside(SinglePath(value) + "'") == Some(value)
  {
    if value == [] {
      assert SinglePath(value) + "'" == "'" && "'"[..0] == [] && "'"[1..] == [];
      JoinedNothing([], Some([]));
    } else {
      SinglePathFirst(value);
      SinglePathIsRead(value[1..]);
      if value[0] == '\'' {
        QuoteIsRead(SinglePath(value[1..]) + "'");
      } else {
        QuotedCharIsRead(value[0], SinglePath(value[1..]) + "'");
      }
      assert [value[0]] + value[1..] == value;
    }
  }

  /** The first single-quoted token of such a spelling ends at the first quote of the path, or at the closing one. */
  lemma {:induction false} FirstTokenOfSinglePath(value: string)
    requires !HasControl(value)
    ensures var text := SinglePath(value) + "'";
      if '\'' in value then SingleQuoteEnd(text).Some? && SingleQuoteEnd(text).value + 1 < |text|
      else SinglePath(value) == value && SingleQuoteEnd(text) == Some(|value|)
  {
    var text := SinglePath(value) + "'";
    if value == [] {
      assert text == "'";
    } else {
      assert !HasControl(value[1..]);
      FirstTokenOfSinglePath(value[1..]);
      assert value == [value[0]] + value[1..];
      if value[0] != '\'' {
        assert text == [value[0]] + (SinglePath(value[1..]) + "'");
        assert text[1..] == SinglePath(value[1..]) + "'";
      }
    }
  }

  // ---------- The spelling in its place ----------

  /** What follows an opening double quote. */
  function ReadInsideDouble(text: string): Option<string> {
    var end := ClosingQuote(text);
    if end.None? then None
    else
      var body := ReadDouble(Lexer, text[..end.value]);
      if body.None? then None else Joined(body.value, ReadWord(text[end.value + 1..], false))
  }

  lemma OpeningDoubleIsRead(rest: string, boundary: bool)
    ensures ReadWord("\"" + rest, boundary) == ReadInsideDouble(rest)
  {
    assert ("\"" + rest)[1..] == rest;
  }

  /** A body whose first unescaped quote is the one put behind it. */
  lemma QuotedBodyIsRead(body: string)
    requires ClosingQuote(body + "\"") == Some(|body|)
    ensures ReadInsideDouble(body + "\"") == ReadDouble(Lexer, body)
    ensures ReadFragment(body + "\"") == ReadDouble(Lexer, body)
  {
    var text, read := body + "\"", ReadDouble(Lexer, body);
    assert text[..|body|] == body && text[|body| + 1..] == [];
    if read.Some? {
      JoinedNothing(read.value, None);
    }
  }

  lemma QuotedLiteralIsRead(inner: string)
    requires inner != [] && ClosingQuote(inner) == Some(|inner| - 1)
    ensures ReadLiteral("\"" + inner) == ReadDouble(Lexer, inner[..|inner| - 1])
  {
    var text := "\"" + inner;
    assert text[1..] == inner && text[1..|text| - 1] == inner[..|inner| - 1];
  }

  lemma DoubleWordIsRead(value: string)
    ensures ReadCommandWord("\"" + DoublePath(value) + "\"") == ReadDouble(Lexer, DoublePath(value))
    ensures ReadLiteral("\"" + DoublePath(value) + "\"") == ReadDouble(Lexer, DoublePath(value))
    ensures ReadFragment(DoublePath(value) + "\"") == ReadDouble(Lexer, DoublePath(value))
  {
    var body := DoublePath(value);
    var inner := body + "\"";
    DoublePathEndsAtItsQuote(value, []);
    assert "\"" + [] == "\"";
    assert "\"" + body + "\"" == "\"" + inner && inner[..|inner| - 1] == body;
    QuotedBodyIsRead(body);
    OpeningDoubleIsRead(inner, true);
    QuotedLiteralIsRead(inner);
  }

  // ---------- The path in its place ----------

  predicate SecondIs(value: string, c: char) { |value| > 1 && value[1] == c }

  /** Two dashes, and no third character that would make the second one an operator. */
  predicate LooksLikeLongOption(value: string) {
    |value| > 1 && value[0] == value[1] == '-' && !(|value| > 2 && value[2] == '=')
  }

  /** The first characters of a path that turn the name before it into an expression. */
  predicate LooksLikeExpression(value: string, adjacent: bool) {
    value != []
    && (value[0] in ":."
        || (value[0] in "=!" && SecondIs(value, '='))
        || (IsArithmetic(value[0]) && !SecondIs(value, '=') && (adjacent || !LooksLikeLongOption(value))))
  }

  /** The first characters of a path that turn the name before it into the target of an assignment. */
  predicate LooksLikeAssignment(value: string, opening: Opening) {
    value != []
    && ((opening.Statement? && value[0] == '=' && !SecondIs(value, '='))
        || (!opening.Later? && IsArithmetic(value[0]) && SecondIs(value, '=')))
  }

  /** A path that, bare, is the head of a command. */
  predicate LooksLikeHead(value: string, opening: Opening, valued: bool) {
    && value != [] && value[0] != '^' && !IsDigit(value[0])
    && !(value[0] in "!+-" && !SecondIs(value, '='))
    && (StartsIdentifier(value[0]) ==>
          var rest := value[IdentifierWidth(value)..];
          && value[..IdentifierWidth(value)] !in KEYWORDS
          && !(rest == [] && valued) && !LooksLikeExpression(rest, true) && !LooksLikeAssignment(rest, opening))
  }

  /** A path whose bare spelling is a word in this place. */
  ghost predicate BareWordHere(position: Position, value: string) {
    && !HasSpread(value)
    && match position {
         case Head(opening, valued) => LooksLikeHead(value, opening, valued)
         case NameArgument(opening) =>
           value != [] && !LooksLikeExpression(value, false) && !LooksLikeAssignment(value, opening)
         case Argument => value != []
         case WordTail => true
         case RedirectTarget(redirect, glued, _) => value != [] && !(glued && !redirect.Append? && value[0] == '=')
         case Literal(_) => false
         case ImportPath => false
       }
  }

  /** When the inserted text denotes the path: the condition on path, style and place. */
  ghost predicate Denotable(position: Position, style: Style, value: string) {
    if Compares(position) then false
    else if position.ImportPath? then style.SingleQuoted? && value != [] && !HasControl(value) && '\'' !in value
    else if IsDoubleForm(value, style, IsGlob(position)) then !position.Head? && !HasBrace(value)
    else if style.SingleQuoted? then !position.Head? && (position.Literal? ==> '\'' !in value)
    else BareWordHere(position, value)
  }

  // ---------- Bare text and the path, token by token ----------

  /** The first characters of a bare spelling are those of the path until one is escaped. */
  lemma BareFirst(value: string)
    requires value != []
    ensures NeedsEscape(value[0]) ==> BarePath(value)[0] == '\\'
    ensures !NeedsEscape(value[0]) ==> BarePath(value)[0] == value[0] && BarePath(value)[1..] == BarePath(value[1..])
  {
  }

  lemma SecondShows(value: string, c: char)
    requires value != [] && !NeedsEscape(value[0]) && !NeedsEscape(c) && c != '\\'
    ensures SecondIs(BarePath(value), c) <==> SecondIs(value, c)
  {
    BareFirst(value);
    if |value| > 1 {
      BareFirst(value[1..]);
      assert BarePath(value)[1] == BarePath(value)[1..][0];
    }
  }

  /** The first two characters of a bare spelling, as far as operators are made of them. */
  lemma FrontShows(value: string)
    requires value != [] && !NeedsEscape(value[0])
    ensures BarePath(value) != [] && BarePath(value)[0] == value[0]
    ensures SecondIs(BarePath(value), '=') <==> SecondIs(value, '=')
    ensures SecondIs(BarePath(value), '.') <==> SecondIs(value, '.')
    ensures !SecondIs(BarePath(value), '>')
  {
    BareFirst(value);
    assert BarePath(value) != [] && BarePath(value)[0] == value[0];
    assert !NeedsEscape('=') && !NeedsEscape('.');
    SecondShows(value, '=');
    SecondShows(value, '.');
    SecondIsNoArrow(value);
  }

  lemma EscapedFrontShows(value: string)
    requires value != [] && NeedsEscape(value[0])
    ensures var text := BarePath(value);
      && text != [] && WordOperator(text) == 0 && !StartsIdentifier(text[0]) && !IsDigit(text[0])
      && text[0] !in "'\"^([{" && !StartsWithSign(text)
    ensures var c := value[0];
      c !in ":.=!+-*/%^" && !StartsIdentifier(c) && !IsDigit(c)
  {
    BareFirst(value);
  }

  lemma BareOperatorShows(value: string)
    requires value != [] && !StartsSpread(value)
    ensures ContinuesExpression(BarePath(value), true) <==> LooksLikeExpression(value, true)
  {
    BarePathKeepsSpread(value);
    if NeedsEscape(value[0]) { EscapedFrontShows(value); } else { FrontShows(value); }
  }

  lemma BareAssignmentShows(value: string, opening: Opening)
    requires value != []
    ensures Assigns(BarePath(value), opening) <==> LooksLikeAssignment(value, opening)
  {
    if NeedsEscape(value[0]) { EscapedFrontShows(value); } else { FrontShows(value); }
  }

  lemma SignShows(value: string)
    requires value != []
    ensures StartsWithSign(BarePath(value)) <==> value[0] in "!+-" && !SecondIs(value, '=')
  {
    if NeedsEscape(value[0]) { EscapedFrontShows(value); } else { FrontShows(value); }
  }

  lemma StopShows(value: string)
    requires value != []
    ensures BarePath(value)[0] in "'\"^([{" <==> value[0] == '^'
    ensures StartsIdentifier(BarePath(value)[0]) <==> StartsIdentifier(value[0])
    ensures IsDigit(BarePath(value)[0]) <==> IsDigit(value[0])
  {
    BareFirst(value);
  }

  /** An arrow never shows: its second character is escaped. */
  lemma SecondIsNoArrow(value: string)
    requires value != [] && !NeedsEscape(value[0])
    ensures !SecondIs(BarePath(value), '>')
  {
    BareFirst(value);
    if |value| > 1 {
      BareFirst(value[1..]);
      assert BarePath(value)[1] == BarePath(value)[1..][0];
    }
  }

  lemma LongOptionShows(value: string)
    requires value != []
    ensures LongOption(BarePath(value)) <==> LooksLikeLongOption(value)
  {
    BareFirst(value);
    if value[0] == '-' {
      SecondShows(value, '-');
      if SecondIs(value, '-') {
        SecondShows(value[1..], '=');
        SecondIsNoArrow(value[1..]);
        assert BarePath(value)[1..] == BarePath(value[1..]);
      }
    }
  }

  lemma NameArgumentShows(value: string)
    requires value != [] && !StartsSpread(value)
    ensures ContinuesExpression(BarePath(value), false) <==> LooksLikeExpression(value, false)
  {
    BareOperatorShows(value);
    LongOptionShows(value);
    BareFirst(value);
  }

  lemma {:induction false} IdentifierShows(value: string)
    ensures var width := IdentifierWidth(value);
      && IdentifierWidth(BarePath(value)) == width <= |BarePath(value)|
      && BarePath(value)[..width] == value[..width] && BarePath(value)[width..] == BarePath(value[width..])
  {
    if value != [] {
      BareFirst(value);
      if StartsIdentifier(value[0]) || IsDigit(value[0]) {
        IdentifierShows(value[1..]);
        var width := IdentifierWidth(value);
        assert value[1..][..width - 1] == value[1..width] && value[1..][width - 1..] == value[width..];
        assert BarePath(value) == [value[0]] + BarePath(value[1..]);
      }
    }
  }

  lemma SpreadlessTail(value: string, width: nat)
    requires !HasSpread(value) && width <= |value|
    ensures !StartsSpread(value[width..])
  {
    assert !SpreadAt(value, width);
  }

  lemma NameHeadShows(value: string, opening: Opening, valued: bool)
    requires value != [] && StartsIdentifier(value[0]) && !HasSpread(value)
    ensures var text, rest := BarePath(value), value[IdentifierWidth(value)..];
      NameHeadsCommand(text[IdentifierWidth(text)..], opening, valued) <==>
        !(rest == [] && valued) && !LooksLikeExpression(rest, true) && !LooksLikeAssignment(rest, opening)
  {
    var rest := value[IdentifierWidth(value)..];
    IdentifierShows(value);
    SpreadlessTail(value, IdentifierWidth(value));
    if rest != [] {
      BareOperatorShows(rest);
      BareAssignmentShows(rest, opening);
      BareFirst(rest);
    }
  }

  lemma HeadShows(value: string, opening: Opening, valued: bool)
    requires value != [] && !HasSpread(value)
    ensures HeadsCommand(BarePath(value), opening, valued) <==> LooksLikeHead(value, opening, valued)
  {
    StopShows(value);
    SignShows(value);
    if StartsIdentifier(value[0]) {
      IdentifierShows(value);
      NameHeadShows(value, opening, valued);
    }
  }

  // ---------- The forms in their places ----------

  /** A quote is taken for nothing but the start of a word, except at the head of a stage and in a comparison. */
  lemma QuoteInPlace(position: Position, style: Style, text: string)
    requires text != [] && (text[0] == '"' || text[0] == '\'') && !style.DoubleQuotedFragment?
    ensures ReadAt(position, style, text) ==
      if Compares(position) then None
      else
        match position
        case Head(_, _) => None
        case Literal(_) => ReadLiteral(text)
        case ImportPath => ReadImport(text)
        case _ => ReadWord(text, true)
  {
  }

  lemma FragmentInPlace(position: Position, text: string)
    ensures ReadAt(position, DoubleQuotedFragment, text) ==
      if Compares(position) || position.ImportPath? || position.Head? then None else ReadFragment(text)
  {
  }

  lemma DoubleFormIsRead(position: Position, style: Style, value: string)
    requires IsDoubleForm(value, style, IsGlob(position))
    ensures ReadAt(position, style, RenderPath(value, style, IsGlob(position))) ==
      if Compares(position) || position.ImportPath? || position.Head? then None
      else ReadDouble(Lexer, DoublePath(value))
  {
    DoubleWordIsRead(value);
    if style.DoubleQuotedFragment? {
      FragmentInPlace(position, DoublePath(value) + "\"");
    } else {
      var text := "\"" + DoublePath(value) + "\"";
      assert text[0] == '"';
      QuotedTailIsRead(value);
      QuoteInPlace(position, style, text);
    }
  }

  lemma QuotedTailIsRead(value: string)
    ensures ReadWord("\"" + DoublePath(value) + "\"", true) == ReadDouble(Lexer, DoublePath(value))
  {
    DoubleWordIsRead(value);
  }

  lemma SingleWordIsRead(value: string)
    requires !HasControl(value)
    ensures ReadWord("'" + SinglePath(value) + "'", true) == Some(value)
  {
    var inner := SinglePath(value) + "'";
    assert "'" + SinglePath(value) + "'" == "'" + inner;
    SinglePathIsRead(value);
    OpeningQuoteIsRead(inner, true);
  }

  lemma SingleTokenIsRead(value: string)
    requires !HasControl(value)
    ensures var text := "'" + SinglePath(value) + "'";
      && ReadLiteral(text) == (if '\'' !in value then Some(value) else None)
      && ReadImport(text) == (if value != [] && '\'' !in value then Some(value) else None)
  {
    var inner := SinglePath(value) + "'";
    var text := "'" + SinglePath(value) + "'";
    assert text == "'" + inner && text[1..] == inner;
    FirstTokenOfSinglePath(value);
    assert '\'' !in value ==> text[1..|text| - 1] == value;
  }

  lemma SingleFormIsRead(position: Position, value: string)
    requires !IsDoubleForm(value, SingleQuoted, IsGlob(position))
    ensures ReadAt(position, SingleQuoted, RenderPath(value, SingleQuoted, IsGlob(position))) == Some(value)
      <==> Denotable(position, SingleQuoted, value)
  {
    var text := "'" + SinglePath(value) + "'";
    assert text[0] == '\'';
    SingleWordIsRead(value);
    SingleTokenIsRead(value);
    QuoteInPlace(position, SingleQuoted, text);
  }

  lemma BareFormIsNoLiteral(value: string)
    ensures ReadLiteral(BarePath(value)) == None && ReadImport(BarePath(value)) == None
  {
    if value != [] {
      BareFirst(value);
    }
  }

  lemma BareFormIsRead(position: Position, value: string)
    requires Bareable(value) && !Compares(position)
    ensures ReadAt(position, Bare, BarePath(value)) == Some(value) <==> BareWordHere(position, value)
  {
    BareWordIsReadExactlyWhen(value, true);
    if value == [] || HasSpread(value) || position.Literal? || position.ImportPath? {
      BareFormIsNoLiteral(value);
    } else {
      SpreadlessTail(value, 0);
      BareFormInPlace(position, value);
    }
  }

  /** A path that is one word by itself: whether its place makes a word of it. */
  lemma BareFormInPlace(position: Position, value: string)
    requires value != [] && !HasSpread(value) && !StartsSpread(value)
    requires !position.Literal? && !position.ImportPath? && !Compares(position)
    requires ReadWord(BarePath(value), true) == Some(value)
    ensures ReadAt(position, Bare, BarePath(value)) == Some(value) <==> BareWordHere(position, value)
  {
    BareFirst(value);
    match position
    case Head(opening, valued) => HeadShows(value, opening, valued);
    case NameArgument(opening) =>
      NameArgumentShows(value);
      BareAssignmentShows(value, opening);
    case _ =>
  }

  /**
    The inserted text denotes the selected path, literally, exactly when it does not stand behind a sign that
    compares, and:
    in a double-quoted form, the path has no brace and the place is not the head of a command or an import;
    in the single-quoted form, the place is not the head of a command and, in a literal or an import, the path
    has no quote;
    as a bare word, the path has no three dots in a row and its first characters are not taken for something
    else in this place: an expression or an assignment behind a name, an expression, a keyword or a forced
    name at the head, the rest of the sign in front of a redirection's target.
   */
  lemma RenderedPathDenotesThePathExactlyWhen(position: Position, style: Style, value: string)
    ensures ReadAt(position, style, RenderPath(value, style, IsGlob(position))) == Some(value)
      <==> Denotable(position, style, value)
  {
    if IsDoubleForm(value, style, IsGlob(position)) {
      DoubleFormIsRead(position, style, value);
      LexerInvertsDoublePathExactlyWhen(value);
    } else if style.SingleQuoted? {
      SingleFormIsRead(position, value);
    } else if !Compares(position) {
      BareFormIsRead(position, value);
    }
  }

  // ---------- Witnesses ----------

  lemma {:induction false} PlainRendering(value: string)
    requires forall k :: 0 <= k < |value| ==> !NeedsEscape(value[k])
    ensures BarePath(value) == value
  {
    if value != [] {
      PlainRendering(value[1..]);
      assert value == [value[0]] + value[1..];
    }
  }

  /** A path that is misread in a place is not denoted there, however it is spelled. */
  lemma MisreadBare(position: Position, value: string)
    requires Bareable(value) && !BareWordHere(position, value) && !Compares(position)
    requires forall k :: 0 <= k < |value| ==> !NeedsEscape(value[k])
    ensures RenderPath(value, Bare, IsGlob(position)) == value && ReadAt(position, Bare, value) != Some(value)
  {
    PlainRendering(value);
    BareFormIsRead(position, value);
  }

  /** Three dots in a name: completed as a bare word it is not one word any more. */
  lemma SpreadPathIsMisread()
    ensures RenderPath("a...b", Bare, false) == "a...b" && ReadAt(Argument, Bare, "a...b") != Some("a...b")
  {
    var value := "a...b";
    assert !NeedsEscape('a') && !NeedsEscape('.') && !NeedsEscape('b');
    assert SpreadAt(value, 1) by {
      assert value[1..] == "...b";
    }
    MisreadBare(Argument, value);
  }

  /** `echo ./out` reads a member of `echo`: the first argument behind a name cannot start with a dot. */
  lemma DottedFirstArgumentIsMisread(opening: Opening)
    ensures RenderPath("./o", Bare, false) == "./o" && ReadAt(NameArgument(opening), Bare, "./o") == None
    ensures ReadAt(Argument, Bare, "./o") == Some("./o")
  {
    var value := "./o";
    assert !NeedsEscape('.') && !NeedsEscape('/') && !NeedsEscape('o');
    assert !IsControl('.') && !IsControl('/') && !IsControl('o');
    NoSpreadIn(value);
    PlainRendering(value);
    BareFormIsRead(Argument, value);
    assert WordOperator(value) == 1;
  }

  lemma NoSpreadIn(value: string)
    requires |value| <= 3 && (|value| == 3 ==> value[2] != '.')
    ensures !HasSpread(value)
  {
    assert value[0..] == value;
  }

  /** `>=x` is a comparison, not a redirection to `=x`. */
  lemma EqualsTargetIsMisread()
    ensures RenderPath("=x", Bare, false) == "=x" && ReadAt(RedirectTarget(Output, true, false), Bare, "=x") == None
    ensures ReadAt(RedirectTarget(Output, false, false), Bare, "=x") == Some("=x")
  {
    var value := "=x";
    assert !NeedsEscape('=') && !NeedsEscape('x') && !IsControl('=') && !IsControl('x');
    NoSpreadIn(value);
    PlainRendering(value);
    BareFormIsRead(RedirectTarget(Output, false, false), value);
  }

  /** `echo > ./o` compares, whatever the spelling; `echo >> ./o` and `echo a > ./o` redirect. */
  lemma ComparedPathIsMisread(glued: bool)
    ensures RenderPath("./o", Bare, false) == "./o" && ReadAt(RedirectTarget(Output, glued, true), Bare, "./o") == None
    ensures ReadAt(RedirectTarget(Append, glued, true), Bare, "./o") == Some("./o")
    ensures ReadAt(RedirectTarget(Output, glued, false), Bare, "./o") == Some("./o")
  {
    DottedFirstArgumentIsMisread(Statement);
    NoSpreadIn("./o");
    assert !IsControl('.') && !IsControl('/') && !IsControl('o');
    BareFormIsRead(RedirectTarget(Append, glued, true), "./o");
    BareFormIsRead(RedirectTarget(Output, glued, false), "./o");
  }

  /** A quote in an imported path: the first token ends there. */
  lemma QuotedImportIsMisread()
    ensures RenderPath("./it's", SingleQuoted, false) == "'./it'\\''s'"
    ensures ReadAt(ImportPath, SingleQuoted, "'./it'\\''s'") != Some("./it's")
  {
    var value := "./it's";
    assert value[4] == '\'';
    SingleFormIsRead(ImportPath, value);
    SinglePathPlain("./it", "'s");
    assert value == "./it" + "'s";
    assert SinglePath("'s") == "'\\''" + SinglePath("s");
    assert SinglePath("s") == "s" + SinglePath("");
  }

  lemma {:induction false} SinglePathPlain(plain: string, rest: string)
    requires '\'' !in plain
    ensures SinglePath(plain + rest) == plain + SinglePath(rest)
  {
    if plain == [] {
      assert plain + rest == rest;
    } else {
      assert (plain + rest)[1..] == plain[1..] + rest;
      SinglePathPlain(plain[1..], rest);
    }
  }
}

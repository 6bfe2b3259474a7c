/**
  Canonical JSON, as the journal is written and hashed: keys in ascending order, no blanks, characters
  outside ASCII as they are, in UTF-8.

  The bytes determine the value, and stay on one line.
*/
module CanonicalJson {
  import opened Wrappers
  import Utf8
  import Frames

  // ---------- The order of the keys ----------

  /** Lexicographic order by scalar value. */
  predicate AtMost(a: string, b: string) {
    a == [] || (b != [] && (a[0] < b[0] || (a[0] == b[0] && AtMost(a[1..], b[1..]))))
  }

  lemma {:induction false} AtMostIsTotal(a: string, b: string)
    ensures AtMost(a, b) || AtMost(b, a)
  {
    if a != [] && b != [] {
      AtMostIsTotal(a[1..], b[1..]);
    }
  }

  lemma {:induction false} AtMostIsAntisymmetric(a: string, b: string)
    requires AtMost(a, b) && AtMost(b, a)
    ensures a == b
  {
    if a != [] {
      AtMostIsAntisymmetric(a[1..], b[1..]);
      assert a == [a[0]] + a[1..] && b == [b[0]] + b[1..];
    }
  }

  lemma {:induction false} AtMostIsTransitive(a: string, b: string, c: string)
    requires AtMost(a, b) && AtMost(b, c)
    ensures AtMost(a, c)
  {
    if a != [] && a[0] == b[0] == c[0] {
      AtMostIsTransitive(a[1..], b[1..], c[1..]);
    }
  }

  predicate IsLeast(keys: set<string>, k: string) { k in keys && forall l <- keys :: AtMost(k, l) }

  lemma {:induction false} LeastExists(keys: set<string>)
    requires keys != {}
    ensures exists k :: IsLeast(keys, k)
  {
    var some :| some in keys;
    var others := keys - {some};
    AtMostIsTotal(some, some);
    if others == {} {
      assert keys == others + {some};
      assert IsLeast(keys, some);
    } else {
      LeastExists(others);
      var k :| IsLeast(others, k);
      LeastOfMore(keys, some, k);
    }
  }

  lemma LeastOfMore(keys: set<string>, some: string, k: string)
    requires some in keys && IsLeast(keys - {some}, k)
    ensures IsLeast(keys, some) || IsLeast(keys, k)
  {
    AtMostIsTotal(some, k);
    AtMostIsTotal(some, some);
    if AtMost(some, k) {
      forall l <- keys
        ensures AtMost(some, l)
      {
        if l != some {
          AtMostIsTransitive(some, k, l);
        }
      }
    }
  }

  lemma LeastIsUnique(keys: set<string>)
    ensures forall k, l :: IsLeast(keys, k) && IsLeast(keys, l) ==> k == l
  {
    forall k, l | IsLeast(keys, k) && IsLeast(keys, l)
      ensures k == l
    {
      AtMostIsAntisymmetric(k, l);
    }
  }

  function Least(keys: set<string>): (k: string)
    requires keys != {}
    ensures IsLeast(keys, k)
  {
    LeastExists(keys);
    LeastIsUnique(keys);
    var k :| k in keys && IsLeast(keys, k);
    k
  }

  function SortedKeys(keys: set<string>): (sorted: seq<string>)
    ensures forall k :: k in sorted <==> k in keys
  {
    if keys == {} then []
    else
      var k := Least(keys);
      [k] + SortedKeys(keys - {k})
  }

  /** Every key once, each smaller than the next ones. */
  lemma {:induction false} SortedKeysAscend(keys: set<string>, i: nat, j: nat)
    requires i < j < |SortedKeys(keys)|
    ensures AtMost(SortedKeys(keys)[i], SortedKeys(keys)[j]) && SortedKeys(keys)[i] != SortedKeys(keys)[j]
  {
    var k := Least(keys);
    var rest := SortedKeys(keys - {k});
    if i == 0 {
      assert rest[j - 1] in rest;
    } else {
      SortedKeysAscend(keys - {k}, i - 1, j - 1);
    }
  }

  // ---------- Texts with a common beginning ----------

  lemma SameWord(word: string, rest: string, rest': string)
    requires word + rest == word + rest'
    ensures rest == rest'
  {
    assert rest == (word + rest)[|word|..];
    assert rest' == (word + rest')[|word|..];
  }

  lemma Associate(a: string, b: string, c: string)
    ensures a + b + c == a + (b + c)
  {
  }

  /** What follows a common beginning. */
  lemma BehindFirst(front: string, a: string, rest: string, a': string, rest': string)
    requires front + a + rest == front + a' + rest'
    ensures a + rest == a' + rest'
  {
    Associate(front, a, rest);
    Associate(front, a', rest');
    SameWord(front, a + rest, a' + rest');
  }

  // ---------- Strings ----------

  const HEX: string := "0123456789abcdef"

  function Escape(c: char): (text: string)
    ensures text != [] && forall d <- text :: d >= ' '
  {
    if c == '"' then "\\\""
    else if c == '\\' then "\\\\"
    else if c == '\n' then "\\n"
    else if c == '\r' then "\\r"
    else if c == '\t' then "\\t"
    else if c == 8 as char then "\\b"
    else if c == 12 as char then "\\f"
    else if c < ' ' then "\\u00" + [HEX[c as int / 16], HEX[c as int % 16]]
    else [c]
  }

  function Escaped(s: string): (text: string)
    ensures forall d <- text :: d >= ' '
  {
    if s == [] then [] else Escape(s[0]) + Escaped(s[1..])
  }

  function Quoted(s: string): (text: string)
    ensures text != [] && text[0] == '"' && forall d <- text :: d >= ' '
  {
    "\"" + Escaped(s) + "\""
  }

  /** The width of the escape at the front of a text. */
  function Width(text: string): nat {
    if text == [] || text[0] != '\\' then 1 else if |text| > 1 && text[1] == 'u' then 6 else 2
  }

  lemma EscapeHasItsWidth(c: char, rest: string)
    ensures Width(Escape(c) + rest) == |Escape(c)| && (Escape(c) + rest)[0] != '"'
  {
  }

  lemma EscapeIsInjective(c: char, c': char)
    requires Escape(c) == Escape(c')
    ensures c == c'
  {
    if |Escape(c)| == 6 {
      assert Escape(c)[4] == HEX[c as int / 16] && Escape(c)[5] == HEX[c as int % 16];
      assert Escape(c')[4] == HEX[c' as int / 16] && Escape(c')[5] == HEX[c' as int % 16];
      HexIsInjective(c as int / 16, c' as int / 16);
      HexIsInjective(c as int % 16, c' as int % 16);
    }
  }

  lemma HexIsInjective(a: nat, b: nat)
    requires a < 16 && b < 16 && HEX[a] == HEX[b]
    ensures a == b
  {
  }

  lemma EscapeIsUnambiguous(c: char, rest: string, c': char, rest': string)
    requires Escape(c) + rest == Escape(c') + rest'
    ensures c == c' && rest == rest'
  {
    var text := Escape(c) + rest;
    EscapeHasItsWidth(c, rest);
    EscapeHasItsWidth(c', rest');
    assert Escape(c) == text[..|Escape(c)|] == Escape(c');
    assert rest == text[|Escape(c)|..] == rest';
    EscapeIsInjective(c, c');
  }

  /** An escaped string, its closing quote and what follows. */
  function Closed(s: string, rest: string): string { Escaped(s) + ("\"" + rest) }

  lemma ClosedStep(s: string, rest: string)
    ensures s == [] ==> Closed(s, rest) == "\"" + rest
    ensures s != [] ==> Closed(s, rest) == Escape(s[0]) + Closed(s[1..], rest) && Closed(s, rest)[0] != '"'
  {
    if s != [] {
      Associate(Escape(s[0]), Escaped(s[1..]), "\"" + rest);
      EscapeHasItsWidth(s[0], Closed(s[1..], rest));
    }
  }

  /** A string ends at the first quote that is not escaped. */
  lemma {:induction false} EscapedIsUnambiguous(s: string, rest: string, s': string, rest': string)
    requires Closed(s, rest) == Closed(s', rest')
    ensures s == s' && rest == rest'
  {
    ClosedStep(s, rest);
    ClosedStep(s', rest');
    if s == [] {
      SameWord("\"", rest, rest');
    } else {
      EscapeIsUnambiguous(s[0], Closed(s[1..], rest), s'[0], Closed(s'[1..], rest'));
      EscapedIsUnambiguous(s[1..], rest, s'[1..], rest');
      assert s == [s[0]] + s[1..] && s' == [s'[0]] + s'[1..];
    }
  }

  lemma QuotedIsClosed(s: string, rest: string)
    ensures Quoted(s) + rest == "\"" + Closed(s, rest)
  {
    Associate("\"", Escaped(s) + "\"", rest);
    Associate("\"", Escaped(s), "\"");
    Associate(Escaped(s), "\"", rest);
  }

  lemma QuotedIsUnambiguous(s: string, rest: string, s': string, rest': string)
    requires Quoted(s) + rest == Quoted(s') + rest'
    ensures s == s' && rest == rest'
  {
    QuotedIsClosed(s, rest);
    QuotedIsClosed(s', rest');
    SameWord("\"", Closed(s, rest), Closed(s', rest'));
    EscapedIsUnambiguous(s, rest, s', rest');
  }

  // ---------- Integers ----------

  predicate IsDigit(c: char) { '0' <= c <= '9' }

  function Digits(n: nat): (text: string)
    ensures text != [] && forall d <- text :: IsDigit(d)
  {
    var digits := Frames.Decimal(n);
    assert forall k :: 0 <= k < |digits| ==> Frames.Digit(digits[k]);
    seq(|digits|, k requires 0 <= k < |digits| => digits[k] as char)
  }

  function NumberText(n: int): (text: string)
    ensures text != [] && (IsDigit(text[0]) || text[0] == '-') && forall d <- text :: d >= ' '
  {
    if n < 0 then "-" + Digits(-n) else Digits(n)
  }

  lemma DigitsAreInjective(n: nat, n': nat)
    requires Digits(n) == Digits(n')
    ensures n == n'
  {
    var digits, digits' := Frames.Decimal(n), Frames.Decimal(n');
    forall k | 0 <= k < |digits|
      ensures digits[k] == digits'[k]
    {
      assert Digits(n)[k] == digits[k] as char && Digits(n')[k] == digits'[k] as char;
    }
    assert digits == digits';
    Frames.ValueInvertsDecimal(n);
    Frames.ValueInvertsDecimal(n');
  }

  /** A text that may follow a value. */
  predicate Ends(rest: string) { rest == [] || rest[0] in ",]}" }

  lemma DigitsAreNoShorter(n: nat, rest: string, n': nat, rest': string)
    requires Digits(n) + rest == Digits(n') + rest' && Ends(rest)
    ensures |Digits(n)| >= |Digits(n')|
  {
    var text, a, b := Digits(n) + rest, Digits(n), Digits(n');
    assert rest != [] ==> text[|a|] == rest[0] && !IsDigit(rest[0]);
    assert forall k :: 0 <= k < |b| ==> b[k] in b && text[k] == b[k];
  }

  lemma DigitsAreUnambiguous(n: nat, rest: string, n': nat, rest': string)
    requires Digits(n) + rest == Digits(n') + rest' && Ends(rest) && Ends(rest')
    ensures n == n' && rest == rest'
  {
    var text := Digits(n) + rest;
    DigitsAreNoShorter(n, rest, n', rest');
    DigitsAreNoShorter(n', rest', n, rest);
    assert Digits(n) == text[..|Digits(n)|] == Digits(n');
    assert rest == text[|Digits(n)|..] == rest';
    DigitsAreInjective(n, n');
  }

  lemma NumberStarts(n: int)
    ensures NumberText(n)[0] == '-' <==> n < 0
  {
    if n >= 0 {
      assert Digits(n)[0] in Digits(n);
    }
  }

  lemma NumberIsUnambiguous(n: int, rest: string, n': int, rest': string)
    requires NumberText(n) + rest == NumberText(n') + rest' && Ends(rest) && Ends(rest')
    ensures n == n' && rest == rest'
  {
    NumberStarts(n);
    NumberStarts(n');
    assert NumberText(n)[0] == (NumberText(n) + rest)[0] == NumberText(n')[0];
    if n < 0 {
      BehindFirst("-", Digits(-n), rest, Digits(-n'), rest');
      DigitsAreUnambiguous(-n, rest, -n', rest');
    } else {
      DigitsAreUnambiguous(n, rest, n', rest');
    }
  }

  // ---------- Values ----------

  function Text(v: Json): (text: string)
    ensures text != [] && forall d <- text :: d >= ' '
    decreases v, 2, 0
  {
    match v
    case Null => "null"
    case Bool(b) => if b then "true" else "false"
    case Number(n) => NumberText(n)
    case Str(s) => Quoted(s)
    case Array(_) => "[" + ItemsText(v, 0)
    case Object(fields) => "{" + FieldsText(v, SortedKeys(fields.Keys), true)
  }

  /** The items from the `i`-th on, and the closing bracket. */
  function ItemsText(v: Json, i: nat): (text: string)
    requires v.Array? && i <= |v.items|
    ensures text != [] && forall d <- text :: d >= ' '
    ensures i > 0 ==> Ends(text)
    decreases v, 1, |v.items| - i
  {
    if i == |v.items| then "]"
    else (if i == 0 then "" else ",") + (Text(v.items[i]) + ItemsText(v, i + 1))
  }

  /** The fields under some keys, and the closing brace. */
  function FieldsText(v: Json, keys: seq<string>, first: bool): (text: string)
    requires v.Object? && forall k <- keys :: k in v.fields
    ensures text != [] && forall d <- text :: d >= ' '
    ensures !first ==> Ends(text)
    decreases v, 1, |keys|
  {
    if keys == [] then "}"
    else
      assert keys[0] in v.fields && forall k <- keys[1..] :: k in keys;
      (if first then "" else ",") + (Quoted(keys[0]) + (":" + (Text(v.fields[keys[0]]) + FieldsText(v, keys[1..], false))))
  }

  /** The first character tells the kind of a value. */
  predicate Starts(v: Json, c: char) {
    match v
    case Null => c == 'n'
    case Bool(b) => c == (if b then 't' else 'f')
    case Number(_) => IsDigit(c) || c == '-'
    case Str(_) => c == '"'
    case Array(_) => c == '['
    case Object(_) => c == '{'
  }

  lemma TextStarts(v: Json)
    ensures Starts(v, Text(v)[0])
  {
  }

  /** A value followed by a comma, a closing bracket or nothing is read in one way only. */
  lemma {:induction false} TextIsUnambiguous(v: Json, rest: string, v': Json, rest': string)
    requires Text(v) + rest == Text(v') + rest' && Ends(rest) && Ends(rest')
    ensures v == v' && rest == rest'
    decreases v, 2, 0
  {
    var text := Text(v) + rest;
    TextStarts(v);
    TextStarts(v');
    assert text[0] == Text(v)[0] && text[0] == (Text(v') + rest')[0] == Text(v')[0];
    match v
    case Null => SameWord(Text(v), rest, rest');
    case Bool(_) => SameWord(Text(v), rest, rest');
    case Number(n) => NumberIsUnambiguous(n, rest, v'.n, rest');
    case Str(s) => QuotedIsUnambiguous(s, rest, v'.s, rest');
    case Array(_) =>
      BehindFirst("[", ItemsText(v, 0), rest, ItemsText(v', 0), rest');
      ItemsAreUnambiguous(v, v', 0, rest, rest');
    case Object(fields) =>
      var keys, keys' := SortedKeys(fields.Keys), SortedKeys(v'.fields.Keys);
      BehindFirst("{", FieldsText(v, keys, true), rest, FieldsText(v', keys', true), rest');
      FieldsAreUnambiguous(v, keys, v', keys', true, rest, rest');
      FieldsDetermineObject(fields, v'.fields, keys);
  }

  lemma FieldsDetermineObject(fields: map<string, Json>, fields': map<string, Json>, keys: seq<string>)
    requires keys == SortedKeys(fields.Keys) == SortedKeys(fields'.Keys)
    requires forall k <- keys :: fields[k] == fields'[k]
    ensures fields == fields'
  {
    assert forall k :: k in fields.Keys <==> k in keys;
    assert forall k :: k in fields'.Keys <==> k in keys;
  }

  lemma {:induction false} ItemsAreUnambiguous(v: Json, v': Json, i: nat, rest: string, rest': string)
    requires v.Array? && v'.Array? && i <= |v.items| && i <= |v'.items|
    requires ItemsText(v, i) + rest == ItemsText(v', i) + rest'
    requires v.items[..i] == v'.items[..i]
    ensures v == v' && rest == rest'
    decreases v, 1, |v.items| - i
  {
    var text, text' := ItemsText(v, i) + rest, ItemsText(v', i) + rest';
    if i < |v.items| && i < |v'.items| {
      var comma := if i == 0 then "" else ",";
      var more, more' := ItemsText(v, i + 1) + rest, ItemsText(v', i + 1) + rest';
      BehindFirst(comma, Text(v.items[i]) + ItemsText(v, i + 1), rest, Text(v'.items[i]) + ItemsText(v', i + 1), rest');
      Associate(Text(v.items[i]), ItemsText(v, i + 1), rest);
      Associate(Text(v'.items[i]), ItemsText(v', i + 1), rest');
      TextIsUnambiguous(v.items[i], more, v'.items[i], more');
      assert v.items[..i + 1] == v.items[..i] + [v.items[i]] && v'.items[..i + 1] == v'.items[..i] + [v'.items[i]];
      ItemsAreUnambiguous(v, v', i + 1, rest, rest');
    } else {
      ItemsStart(v, i);
      ItemsStart(v', i);
      assert text[0] == ItemsText(v, i)[0] && text'[0] == ItemsText(v', i)[0];
      SameWord("]", rest, rest');
      assert v.items == v.items[..i] && v'.items == v'.items[..i];
    }
  }

  /** The closing bracket stands at the end only. */
  lemma ItemsStart(v: Json, i: nat)
    requires v.Array? && i <= |v.items|
    ensures ItemsText(v, i)[0] == ']' <==> i == |v.items|
  {
    if i < |v.items| {
      TextStarts(v.items[i]);
    }
  }

  lemma {:induction false} FieldsAreUnambiguous(v: Json, keys: seq<string>, v': Json, keys': seq<string>, first: bool, rest: string, rest': string)
    requires v.Object? && v'.Object? && (forall k <- keys :: k in v.fields) && (forall k <- keys' :: k in v'.fields)
    requires FieldsText(v, keys, first) + rest == FieldsText(v', keys', first) + rest'
    ensures keys == keys' && rest == rest' && forall k <- keys :: v.fields[k] == v'.fields[k]
    decreases v, 1, |keys|
  {
    var text, text' := FieldsText(v, keys, first) + rest, FieldsText(v', keys', first) + rest';
    if keys != [] && keys' != [] {
      var comma := if first then "" else ",";
      assert (forall k <- keys[1..] :: k in keys) && forall k <- keys'[1..] :: k in keys';
      var value, value' := v.fields[keys[0]], v'.fields[keys'[0]];
      var more, more' := FieldsText(v, keys[1..], false), FieldsText(v', keys'[1..], false);
      BehindFirst(comma, Quoted(keys[0]) + (":" + (Text(value) + more)), rest, Quoted(keys'[0]) + (":" + (Text(value') + more')), rest');
      FieldIsUnambiguous(keys[0], value, more, rest, keys'[0], value', more', rest');
      TextIsUnambiguous(value, more + rest, value', more' + rest');
      FieldsAreUnambiguous(v, keys[1..], v', keys'[1..], false, rest, rest');
      assert keys == [keys[0]] + keys[1..] && keys' == [keys'[0]] + keys'[1..];
    } else {
      FieldsStart(v, keys, first);
      FieldsStart(v', keys', first);
      assert text[0] == FieldsText(v, keys, first)[0] && text'[0] == FieldsText(v', keys', first)[0];
      SameWord("}", rest, rest');
    }
  }

  lemma FieldRegrouped(key: string, value: string, more: string, rest: string)
    ensures key + (":" + (value + more)) + rest == key + (":" + (value + (more + rest)))
  {
    Associate(key, ":" + (value + more), rest);
    Associate(":", value + more, rest);
    Associate(value, more, rest);
  }

  /** The key of a field is read in one way only, and its value starts behind the colon. */
  lemma FieldIsUnambiguous(k: string, value: Json, more: string, rest: string, k': string, value': Json, more': string, rest': string)
    requires Quoted(k) + (":" + (Text(value) + more)) + rest == Quoted(k') + (":" + (Text(value') + more')) + rest'
    ensures k == k' && Text(value) + (more + rest) == Text(value') + (more' + rest')
  {
    var behind, behind' := ":" + (Text(value) + (more + rest)), ":" + (Text(value') + (more' + rest'));
    FieldRegrouped(Quoted(k), Text(value), more, rest);
    FieldRegrouped(Quoted(k'), Text(value'), more', rest');
    QuotedIsUnambiguous(k, behind, k', behind');
    SameWord(":", Text(value) + (more + rest), Text(value') + (more' + rest'));
  }

  lemma FieldsStart(v: Json, keys: seq<string>, first: bool)
    requires v.Object? && forall k <- keys :: k in v.fields
    ensures FieldsText(v, keys, first)[0] == '}' <==> keys == []
  {
  }

  // ---------- Bytes ----------

  /** The canonical bytes of a dictionary. */
  function Canonical(m: map<string, Json>): seq<Byte> { Utf8.Encode(Text(Object(m))) }

  /** Different dictionaries have different bytes. */
  lemma CanonicalIsInjective(m: map<string, Json>, m': map<string, Json>)
    requires Canonical(m) == Canonical(m')
    ensures m == m'
  {
    var text, text' := Text(Object(m)), Text(Object(m'));
    Utf8.DecodeInvertsEncode(text);
    Utf8.DecodeInvertsEncode(text');
    assert text + [] == text && text' + [] == text';
    TextIsUnambiguous(Object(m), [], Object(m'), []);
  }

  lemma {:induction false} EncodingAddsNoControls(s: string)
    requires forall c <- s :: c >= ' '
    ensures forall b <- Utf8.Encode(s) :: b >= 32
  {
    if s != [] {
      assert s[0] in s && forall c <- s[1..] :: c in s;
      EncodingAddsNoControls(s[1..]);
    }
  }

  /** The bytes hold no line end: neither kind occurs, whatever the strings contain. */
  lemma CanonicalIsOneLine(m: map<string, Json>)
    ensures NEWLINE !in Canonical(m) && RETURN !in Canonical(m)
  {
    EncodingAddsNoControls(Text(Object(m)));
  }
}

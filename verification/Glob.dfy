/**
  Path patterns: parsing of one component, the table that decides a match, and what a path selects when it
  is itself used as a pattern, as a path completed into the argument of `glob` is.

  The meaning of a component is given without the table: a pattern matches a name when the name can be cut
  into consecutive parts, one for each atom.
*/
module Glob {
  import opened Wrappers
  import Utf8

  /** A character of a native name: a scalar value, or a byte that starts none. */
  datatype NativeChar = Unicode(c: char) | Invalid(byte: Byte)

  type Name = seq<NativeChar>

  function NativeOrder(character: NativeChar): nat {
    match character
    case Unicode(c) => c as nat
    case Invalid(byte) => 0x11_0000 + byte
  }

  /** The bytes a validator rejects together start no scalar on their own either, so they may be taken singly. */
  function NativeChars(b: seq<Byte>): Name {
    if b == [] then []
    else
      var first := Utf8.DecodeFirst(b);
      if first.Some? then [Unicode(first.value.0)] + NativeChars(b[first.value.1..])
      else [Invalid(b[0])] + NativeChars(b[1..])
  }

  function CharBytes(character: NativeChar): seq<Byte> {
    match character
    case Unicode(c) => Utf8.EncodeChar(c)
    case Invalid(byte) => [byte]
  }

  function NativeBytes(name: Name): seq<Byte> {
    if name == [] then [] else CharBytes(name[0]) + NativeBytes(name[1..])
  }

  lemma NativeStep(b: seq<Byte>) returns (first: NativeChar, width: nat)
    requires b != []
    ensures 0 < width <= |b| && CharBytes(first) == b[..width]
    ensures NativeChars(b) == [first] + NativeChars(b[width..])
  {
    var scalar := Utf8.DecodeFirst(b);
    if scalar.Some? {
      Utf8.EncodeCharInvertsDecodeFirst(b);
      first, width := Unicode(scalar.value.0), scalar.value.1;
    } else {
      first, width := Invalid(b[0]), 1;
    }
  }

  /** No two names have the same characters. */
  lemma {:induction false} NativeCharsAreLossless(b: seq<Byte>)
    ensures NativeBytes(NativeChars(b)) == b
  {
    if b != [] {
      var first, width := NativeStep(b);
      NativeCharsAreLossless(b[width..]);
      assert b == b[..width] + b[width..];
      assert NativeChars(b)[1..] == NativeChars(b[width..]);
    }
  }

  function Spelled(text: string): (name: Name)
    ensures |name| == |text| && forall k :: 0 <= k < |text| ==> name[k] == Unicode(text[k])
  {
    if text == [] then [] else [Unicode(text[0])] + Spelled(text[1..])
  }

  lemma {:induction false} NativeCharsOfText(text: string)
    ensures NativeChars(Utf8.Encode(text)) == Spelled(text)
  {
    if text != [] {
      Utf8.DecodeFirstInvertsEncodeChar(text[0], Utf8.Encode(text[1..]));
      NativeCharsOfText(text[1..]);
    }
  }

  // ---------- Character classes ----------

  datatype GlobError = TrailingEscape | ClassEscape | ClassUnclosed | ClassEmpty | RangeDescends

  type Item = (NativeChar, bool)

  datatype Class = Class(negated: bool, ranges: seq<(NativeChar, NativeChar)>)

  const HYPHEN: Item := (Unicode('-'), false)

  /** The items up to the closing bracket, each with whether it was escaped, and how much they take. */
  function Items(chars: Name): (r: Result<(seq<Item>, nat), GlobError>)
    ensures r.Success? ==> 0 < r.value.1 <= |chars|
  {
    if chars == [] then Failure(ClassUnclosed)
    else if chars[0] == Unicode(']') then Success(([], 1))
    else if chars[0] == Unicode('\\') then
      if |chars| == 1 then Failure(ClassEscape) else MoreItems((chars[1], true), 2, Items(chars[2..]))
    else MoreItems((chars[0], false), 1, Items(chars[1..]))
  }

  function MoreItems(item: Item, width: nat, later: Result<(seq<Item>, nat), GlobError>): Result<(seq<Item>, nat), GlobError> {
    if later.Success? then Success(([item] + later.value.0, width + later.value.1)) else later
  }

  /** An unescaped hyphen between two items makes a range. */
  function Ranges(items: seq<Item>): Result<seq<(NativeChar, NativeChar)>, GlobError> {
    if items == [] then Success([])
    else if |items| > 2 && items[1] == HYPHEN then
      if NativeOrder(items[0].0) > NativeOrder(items[2].0) then Failure(RangeDescends)
      else MoreRanges((items[0].0, items[2].0), Ranges(items[3..]))
    else MoreRanges((items[0].0, items[0].0), Ranges(items[1..]))
  }

  function MoreRanges(range: (NativeChar, NativeChar), later: Result<seq<(NativeChar, NativeChar)>, GlobError>)
    : Result<seq<(NativeChar, NativeChar)>, GlobError>
  {
    if later.Success? then Success([range] + later.value) else later
  }

  function Negates(chars: Name): bool { chars != [] && (chars[0] == Unicode('!') || chars[0] == Unicode('^')) }

  /** A class after its opening bracket. */
  function ClassOf(chars: Name): (r: Result<(Class, nat), GlobError>)
    ensures r.Success? ==> 0 < r.value.1 <= |chars|
  {
    var skipped := if Negates(chars) then 1 else 0;
    var items := Items(chars[skipped..]);
    if items.Failure? then Failure(items.error)
    else if items.value.0 == [] then Failure(ClassEmpty)
    else
      var ranges := Ranges(items.value.0);
      if ranges.Failure? then Failure(ranges.error)
      else Success((Class(Negates(chars), ranges.value), skipped + items.value.1))
  }

  predicate InRange(range: (NativeChar, NativeChar), c: NativeChar) {
    NativeOrder(range.0) <= NativeOrder(c) <= NativeOrder(range.1)
  }

  predicate ClassMatches(class_: Class, c: NativeChar) {
    InSomeRange(class_.ranges, c) != class_.negated
  }

  predicate InSomeRange(ranges: seq<(NativeChar, NativeChar)>, c: NativeChar) {
    exists k :: 0 <= k < |ranges| && InRange(ranges[k], c)
  }

  /** Every member behind a backslash. */
  function EscapedMembers(members: Name): Name {
    if members == [] then [] else [Unicode('\\'), members[0]] + EscapedMembers(members[1..])
  }

  function EscapedItems(members: Name): (items: seq<Item>)
    ensures |items| == |members| && forall k :: 0 <= k < |items| ==> items[k] == (members[k], true)
  {
    if members == [] then [] else [(members[0], true)] + EscapedItems(members[1..])
  }

  lemma {:induction false} ItemsOfEscapedMembers(members: Name, rest: Name)
    ensures Items(EscapedMembers(members) + ([Unicode(']')] + rest)) == Success((EscapedItems(members), 2 * |members| + 1))
  {
    var chars := EscapedMembers(members) + ([Unicode(']')] + rest);
    if members == [] {
      assert chars[0] == Unicode(']');
    } else {
      ItemsOfEscapedMembers(members[1..], rest);
      assert chars[2..] == EscapedMembers(members[1..]) + ([Unicode(']')] + rest);
      assert chars[0] == Unicode('\\') && chars[1] == members[0];
    }
  }

  /** Escaped items never make a range. */
  lemma {:induction false} RangesOfEscapedItems(items: seq<Item>, c: NativeChar)
    requires forall k :: 0 <= k < |items| ==> items[k].1
    ensures Ranges(items).Success?
    ensures InSomeRange(Ranges(items).value, c) <==> (c, true) in items
  {
    if items != [] {
      var later := Ranges(items[1..]);
      RangesOfEscapedItems(items[1..], c);
      var first := (items[0].0, items[0].0);
      InRangeOfSome(first, later.value, c);
      assert items == [items[0]] + items[1..];
      if InRange(first, c) {
        NativeOrderInjective(items[0].0, c);
      }
    }
  }

  lemma InRangeOfSome(first: (NativeChar, NativeChar), later: seq<(NativeChar, NativeChar)>, c: NativeChar)
    ensures InSomeRange([first] + later, c) <==> InRange(first, c) || InSomeRange(later, c)
  {
    var all := [first] + later;
    if InSomeRange(later, c) {
      var k :| 0 <= k < |later| && InRange(later[k], c);
      assert InRange(all[k + 1], c);
    }
    if InRange(first, c) {
      assert InRange(all[0], c);
    }
  }

  lemma NativeOrderInjective(a: NativeChar, b: NativeChar)
    requires NativeOrder(a) == NativeOrder(b)
    ensures a == b
  {
  }

  lemma EscapedItemsHold(members: Name, c: NativeChar)
    ensures (c, true) in EscapedItems(members) <==> c in members
  {
    var items := EscapedItems(members);
    if c in members {
      var k :| 0 <= k < |members| && members[k] == c;
      assert items[k] == (c, true);
    }
  }

  function Prefixed(negated: bool, body: Name): Name { if negated then [Unicode('^')] + body else body }

  lemma ClassOfBody(body: Name, negated: bool, items: seq<Item>, width: nat)
    requires !Negates(body) && Items(body) == Success((items, width)) && items != [] && Ranges(items).Success?
    ensures ClassOf(Prefixed(negated, body)) ==
      Success((Class(negated, Ranges(items).value), width + if negated then 1 else 0))
  {
    if negated {
      assert ([Unicode('^')] + body)[1..] == body;
    } else {
      assert body[0..] == body;
    }
  }

  function ClassBody(members: Name, rest: Name): (body: Name)
    requires members != []
    ensures !Negates(body)
  {
    EscapedMembers(members) + ([Unicode(']')] + rest)
  }

  lemma ClassBodyItems(members: Name, rest: Name, c: NativeChar)
    requires members != []
    ensures Items(ClassBody(members, rest)) == Success((EscapedItems(members), 2 * |members| + 1))
    ensures Ranges(EscapedItems(members)).Success?
    ensures InSomeRange(Ranges(EscapedItems(members)).value, c) <==> c in members
  {
    ItemsOfEscapedMembers(members, rest);
    RangesOfEscapedItems(EscapedItems(members), c);
    EscapedItemsHold(members, c);
  }

  /** The class `[\a\b\c]` accepts exactly its members; behind `^`, exactly the others. */
  lemma EscapedClassAcceptsItsMembers(members: Name, negated: bool, rest: Name, c: NativeChar)
    requires members != []
    ensures var parsed := ClassOf(Prefixed(negated, ClassBody(members, rest)));
      && parsed.Success? && parsed.value.1 == 2 * |members| + 1 + (if negated then 1 else 0)
      && (ClassMatches(parsed.value.0, c) <==> (c in members) != negated)
  {
    ClassBodyItems(members, rest, c);
    ClassOfBody(ClassBody(members, rest), negated, EscapedItems(members), 2 * |members| + 1);
  }

  // ---------- Components ----------

  datatype Atom = Literal(c: NativeChar) | AnyOne | AnyMany | OneOf(class_: Class)

  function Atoms(chars: Name): Result<seq<Atom>, GlobError> {
    if chars == [] then Success([])
    else if chars[0] == Unicode('\\') then
      if |chars| == 1 then Failure(TrailingEscape) else MoreAtoms([Literal(chars[1])], Atoms(chars[2..]))
    else if chars[0] == Unicode('*') then MoreAtoms([AnyMany], Atoms(chars[1..]))
    else if chars[0] == Unicode('?') then MoreAtoms([AnyOne], Atoms(chars[1..]))
    else if chars[0] == Unicode('[') then
      var class_ := ClassOf(chars[1..]);
      if class_.Failure? then Failure(class_.error) else MoreAtoms([OneOf(class_.value.0)], Atoms(chars[1 + class_.value.1..]))
    else MoreAtoms([Literal(chars[0])], Atoms(chars[1..]))
  }

  function MoreAtoms(atoms: seq<Atom>, later: Result<seq<Atom>, GlobError>): Result<seq<Atom>, GlobError> {
    if later.Success? then Success(atoms + later.value) else later
  }

  /** Appends an atom, but no star after a star. */
  function Push(atoms: seq<Atom>, atom: Atom): seq<Atom> {
    if atom.AnyMany? && atoms != [] && atoms[|atoms| - 1].AnyMany? then atoms else atoms + [atom]
  }

  function Collapsed(atoms: seq<Atom>): seq<Atom> {
    if atoms == [] then [] else Push(Collapsed(atoms[..|atoms| - 1]), atoms[|atoms| - 1])
  }

  datatype Component = Component(atoms: seq<Atom>, explicitHidden: bool)

  function ComponentOf(chars: Name): Result<Component, GlobError> {
    var atoms := Atoms(chars);
    if atoms.Failure? then Failure(atoms.error)
    else
      var collapsed := Collapsed(atoms.value);
      Success(Component(collapsed, collapsed != [] && collapsed[0] == Literal(Unicode('.'))))
  }

  // ---------- Meaning ----------

  predicate Accepts(atom: Atom, part: Name) {
    match atom
    case AnyMany => true
    case AnyOne => |part| == 1
    case Literal(c) => part == [c]
    case OneOf(class_) => |part| == 1 && ClassMatches(class_, part[0])
  }

  /** `cuts` delimits one part of the first `length` characters for each atom. */
  predicate IsSplit(atoms: seq<Atom>, name: Name, length: nat, cuts: seq<nat>)
    requires length <= |name|
  {
    && |cuts| == |atoms| + 1 && cuts[0] == 0 && cuts[|atoms|] == length
    && (forall j :: 0 <= j < |atoms| ==> cuts[j] <= cuts[j + 1])
    && (forall j {:trigger cuts[j]} :: 0 <= j <= |atoms| ==> cuts[j] <= length)
    && (forall j {:trigger atoms[j]} :: 0 <= j < |atoms| ==> Accepts(atoms[j], name[cuts[j]..cuts[j + 1]]))
  }

  ghost predicate Denotes(atoms: seq<Atom>, name: Name) {
    Splits(atoms, name, |name|)
  }

  predicate StartsWithDot(name: Name) { name != [] && name[0] == Unicode('.') }

  /** A hidden name is matched only by a pattern that starts with a literal dot. */
  ghost predicate Selects(component: Component, name: Name) {
    (StartsWithDot(name) ==> component.explicitHidden) && Denotes(component.atoms, name)
  }

  // ---------- The table ----------

  /** The entry of the table: the atoms match the first `i` characters. */
  predicate Entry(atoms: seq<Atom>, name: Name, i: nat)
    requires i <= |name|
    decreases |atoms|, i
  {
    if atoms == [] then i == 0
    else
      var front, last := atoms[..|atoms| - 1], atoms[|atoms| - 1];
      if last.AnyMany? then Entry(front, name, i) || (i > 0 && Entry(atoms, name, i - 1))
      else i > 0 && Accepts(last, name[i - 1..i]) && Entry(front, name, i - 1)
  }

  /** An entry stands for some way to cut the characters. */
  lemma {:induction false} EntryMeansSplit(atoms: seq<Atom>, name: Name, i: nat)
    requires i <= |name|
    ensures Entry(atoms, name, i) <==> Splits(atoms, name, i)
    decreases |atoms|, i
  {
    if atoms == [] {
      assert i == 0 ==> IsSplit(atoms, name, i, [0]);
    } else {
      var front, last := atoms[..|atoms| - 1], atoms[|atoms| - 1];
      if last.AnyMany? {
        EntryMeansSplit(front, name, i);
        if i > 0 {
          EntryMeansSplit(atoms, name, i - 1);
        }
        StarSplits(atoms, name, i);
      } else {
        if i > 0 {
          EntryMeansSplit(front, name, i - 1);
        }
        OneSplits(atoms, name, i);
      }
    }
  }

  ghost predicate Splits(atoms: seq<Atom>, name: Name, i: nat)
    requires i <= |name|
  {
    exists cuts :: IsSplit(atoms, name, i, cuts)
  }

  lemma StarSplits(atoms: seq<Atom>, name: Name, i: nat)
    requires atoms != [] && atoms[|atoms| - 1].AnyMany? && i <= |name|
    ensures Splits(atoms, name, i) <==> Splits(atoms[..|atoms| - 1], name, i) || (i > 0 && Splits(atoms, name, i - 1))
  {
    var n, front := |atoms|, atoms[..|atoms| - 1];
    if Splits(atoms, name, i) {
      var cuts :| IsSplit(atoms, name, i, cuts);
      ShortenSplit(atoms, name, i, cuts);
      if cuts[n - 1] < i {
        ExtendSplit(atoms, name, cuts[n - 1], cuts[..n], i - 1);
      }
    }
    if Splits(front, name, i) {
      var cuts :| IsSplit(front, name, i, cuts);
      ExtendSplit(atoms, name, i, cuts, i);
    }
    if i > 0 && Splits(atoms, name, i - 1) {
      var cuts :| IsSplit(atoms, name, i - 1, cuts);
      ShortenSplit(atoms, name, i - 1, cuts);
      ExtendSplit(atoms, name, cuts[n - 1], cuts[..n], i);
    }
  }

  lemma OneSplits(atoms: seq<Atom>, name: Name, i: nat)
    requires atoms != [] && !atoms[|atoms| - 1].AnyMany? && i <= |name|
    ensures Splits(atoms, name, i) <==>
      i > 0 && Accepts(atoms[|atoms| - 1], name[i - 1..i]) && Splits(atoms[..|atoms| - 1], name, i - 1)
  {
    var n, front := |atoms|, atoms[..|atoms| - 1];
    if Splits(atoms, name, i) {
      var cuts :| IsSplit(atoms, name, i, cuts);
      ShortenSplit(atoms, name, i, cuts);
      assert |name[cuts[n - 1]..i]| == 1;
    }
    if i > 0 && Accepts(atoms[n - 1], name[i - 1..i]) && Splits(front, name, i - 1) {
      var cuts :| IsSplit(front, name, i - 1, cuts);
      ExtendSplit(atoms, name, i - 1, cuts, i);
    }
  }

  lemma ExtendSplit(atoms: seq<Atom>, name: Name, k: nat, cuts: seq<nat>, i: nat)
    requires atoms != [] && k <= i <= |name| && IsSplit(atoms[..|atoms| - 1], name, k, cuts)
    requires Accepts(atoms[|atoms| - 1], name[k..i])
    ensures IsSplit(atoms, name, i, cuts + [i])
  {
    var front := atoms[..|atoms| - 1];
    assert forall j :: 0 <= j < |front| ==> atoms[j] == front[j];
  }

  lemma ShortenSplit(atoms: seq<Atom>, name: Name, i: nat, cuts: seq<nat>)
    requires atoms != [] && i <= |name| && IsSplit(atoms, name, i, cuts)
    ensures var k := cuts[|atoms| - 1];
      && k <= i && Accepts(atoms[|atoms| - 1], name[k..i])
      && IsSplit(atoms[..|atoms| - 1], name, k, cuts[..|atoms|])
  {
    CutsAscend(atoms, name, i, cuts, |atoms| - 1);
  }

  lemma {:induction false} CutsAscend(atoms: seq<Atom>, name: Name, i: nat, cuts: seq<nat>, n: nat)
    requires i <= |name| && IsSplit(atoms, name, i, cuts) && n <= |atoms|
    ensures forall j :: 0 <= j <= n ==> cuts[j] <= cuts[n]
  {
    if n > 0 {
      CutsAscend(atoms, name, i, cuts, n - 1);
    }
  }

  // ---------- The loops ----------

  function ItemsAfter(items: seq<Item>, width: nat, later: Result<(seq<Item>, nat), GlobError>): Result<(seq<Item>, nat), GlobError> {
    if later.Success? then Success((items + later.value.0, width + later.value.1)) else later
  }

  lemma ItemsEnds(items: seq<Item>, width: nat, later: Result<(seq<Item>, nat), GlobError>)
    ensures ItemsAfter([], 0, later) == later
    ensures ItemsAfter(items, width, Success(([], 1))) == Success((items, width + 1))
  {
    assert items + [] == items;
    assert later.Success? ==> [] + later.value.0 == later.value.0;
  }

  lemma ItemsStep(items: seq<Item>, width: nat, item: Item, own: nat, later: Result<(seq<Item>, nat), GlobError>)
    ensures ItemsAfter(items, width, MoreItems(item, own, later)) == ItemsAfter(items + [item], width + own, later)
  {
    if later.Success? {
      assert items + ([item] + later.value.0) == items + [item] + later.value.0;
    }
  }

  method ParseItems(chars: Name) returns (r: Result<(seq<Item>, nat), GlobError>)
    ensures r == Items(chars)
  {
    var items, index := [], 0;
    assert chars[0..] == chars;
    ItemsEnds(items, index, Items(chars));
    while index < |chars|
      invariant 0 <= index <= |chars|
      invariant Items(chars) == ItemsAfter(items, index, Items(chars[index..]))
    {
      ghost var later := chars[index..];
      if chars[index] == Unicode(']') {
        ItemsEnds(items, index, Items(later));
        return Success((items, index + 1));
      }
      if chars[index] == Unicode('\\') {
        if index + 1 == |chars| {
          return Failure(ClassEscape);
        }
        ItemsStep(items, index, (chars[index + 1], true), 2, Items(chars[index + 2..]));
        assert later[2..] == chars[index + 2..];
        items, index := items + [(chars[index + 1], true)], index + 2;
      } else {
        ItemsStep(items, index, (chars[index], false), 1, Items(chars[index + 1..]));
        assert later[1..] == chars[index + 1..];
        items, index := items + [(chars[index], false)], index + 1;
      }
    }
    r := Failure(ClassUnclosed);
  }

  function RangesAfter(ranges: seq<(NativeChar, NativeChar)>, later: Result<seq<(NativeChar, NativeChar)>, GlobError>)
    : Result<seq<(NativeChar, NativeChar)>, GlobError>
  {
    if later.Success? then Success(ranges + later.value) else later
  }

  lemma RangesEnds(ranges: seq<(NativeChar, NativeChar)>, later: Result<seq<(NativeChar, NativeChar)>, GlobError>)
    ensures RangesAfter([], later) == later
    ensures RangesAfter(ranges, Success([])) == Success(ranges)
  {
    assert ranges + [] == ranges;
    assert later.Success? ==> [] + later.value == later.value;
  }

  lemma RangesStep(ranges: seq<(NativeChar, NativeChar)>, range: (NativeChar, NativeChar), later: Result<seq<(NativeChar, NativeChar)>, GlobError>)
    ensures RangesAfter(ranges, MoreRanges(range, later)) == RangesAfter(ranges + [range], later)
  {
    if later.Success? {
      assert ranges + ([range] + later.value) == ranges + [range] + later.value;
    }
  }

  method ParseRanges(items: seq<Item>) returns (r: Result<seq<(NativeChar, NativeChar)>, GlobError>)
    ensures r == Ranges(items)
  {
    var ranges, item := [], 0;
    assert items[0..] == items;
    RangesEnds(ranges, Ranges(items));
    while item < |items|
      invariant 0 <= item <= |items|
      invariant Ranges(items) == RangesAfter(ranges, Ranges(items[item..]))
    {
      ghost var later := items[item..];
      var start := items[item].0;
      if item + 2 < |items| && items[item + 1] == HYPHEN {
        var end := items[item + 2].0;
        if NativeOrder(start) > NativeOrder(end) {
          return Failure(RangeDescends);
        }
        RangesStep(ranges, (start, end), Ranges(items[item + 3..]));
        assert later[3..] == items[item + 3..];
        ranges, item := ranges + [(start, end)], item + 3;
      } else {
        RangesStep(ranges, (start, start), Ranges(items[item + 1..]));
        assert later[1..] == items[item + 1..];
        ranges, item := ranges + [(start, start)], item + 1;
      }
    }
    RangesEnds(ranges, Ranges(items[item..]));
    r := Success(ranges);
  }

  method ParseClass(chars: Name) returns (r: Result<(Class, nat), GlobError>)
    ensures r == ClassOf(chars)
  {
    var negated := Negates(chars);
    var skipped := if negated then 1 else 0;
    var items := ParseItems(chars[skipped..]);
    if items.Failure? {
      return Failure(items.error);
    }
    if items.value.0 == [] {
      return Failure(ClassEmpty);
    }
    var ranges := ParseRanges(items.value.0);
    if ranges.Failure? {
      return Failure(ranges.error);
    }
    r := Success((Class(negated, ranges.value), skipped + items.value.1));
  }

  /** The atom at an index and the index after it. */
  method ParseAtom(chars: Name, index: nat) returns (r: Result<(Atom, nat), GlobError>)
    requires index < |chars|
    ensures r.Failure? ==> Atoms(chars[index..]) == Failure(r.error)
    ensures r.Success? ==> index < r.value.1 <= |chars|
    ensures r.Success? ==> Atoms(chars[index..]) == MoreAtoms([r.value.0], Atoms(chars[r.value.1..]))
  {
    ghost var later := chars[index..];
    assert later[1..] == chars[index + 1..];
    if chars[index] == Unicode('\\') {
      if index + 1 == |chars| {
        return Failure(TrailingEscape);
      }
      assert later[2..] == chars[index + 2..];
      r := Success((Literal(chars[index + 1]), index + 2));
    } else if chars[index] == Unicode('*') {
      r := Success((AnyMany, index + 1));
    } else if chars[index] == Unicode('?') {
      r := Success((AnyOne, index + 1));
    } else if chars[index] == Unicode('[') {
      var class_ := ParseClass(chars[index + 1..]);
      if class_.Failure? {
        return Failure(class_.error);
      }
      assert later[1 + class_.value.1..] == chars[index + 1 + class_.value.1..];
      r := Success((OneOf(class_.value.0), index + 1 + class_.value.1));
    } else {
      r := Success((Literal(chars[index]), index + 1));
    }
  }

  lemma AtomsStep(raw: seq<Atom>, atom: Atom, later: Result<seq<Atom>, GlobError>)
    ensures MoreAtoms(raw, MoreAtoms([atom], later)) == MoreAtoms(raw + [atom], later)
    ensures Collapsed(raw + [atom]) == Push(Collapsed(raw), atom)
  {
    if later.Success? {
      assert raw + ([atom] + later.value) == raw + [atom] + later.value;
    }
    assert (raw + [atom])[..|raw|] == raw;
  }

  lemma AtomsEnds(raw: seq<Atom>, later: Result<seq<Atom>, GlobError>)
    ensures MoreAtoms([], later) == later
    ensures MoreAtoms(raw, Success([])) == Success(raw)
  {
    assert raw + [] == raw;
    assert later.Success? ==> [] + later.value == later.value;
  }

  /** Parses one component, keeping only the first of adjacent stars. */
  method ParseComponent(chars: Name) returns (r: Result<Component, GlobError>)
    ensures r == ComponentOf(chars)
  {
    var atoms: seq<Atom>, index := [], 0;
    ghost var raw: seq<Atom> := [];
    assert chars[0..] == chars;
    AtomsEnds(raw, Atoms(chars));
    while index < |chars|
      invariant 0 <= index <= |chars|
      invariant atoms == Collapsed(raw)
      invariant Atoms(chars) == MoreAtoms(raw, Atoms(chars[index..]))
    {
      var atom := ParseAtom(chars, index);
      if atom.Failure? {
        return Failure(atom.error);
      }
      AtomsStep(raw, atom.value.0, Atoms(chars[atom.value.1..]));
      raw := raw + [atom.value.0];
      if !(atom.value.0.AnyMany? && atoms != [] && atoms[|atoms| - 1].AnyMany?) {
        atoms := atoms + [atom.value.0];
      }
      index := atom.value.1;
    }
    AtomsEnds(raw, Atoms(chars[index..]));
    r := Success(Component(atoms, atoms != [] && atoms[0] == Literal(Unicode('.'))));
  }

  /** How a cell of a row follows from the row before it and its own left neighbour. */
  predicate Cell(atom: Atom, name: Name, current: seq<bool>, next: seq<bool>, i: nat)
    requires i <= |name| && |current| == |name| + 1 && i < |next|
  {
    next[i] <==>
      if atom.AnyMany? then current[i] || (i > 0 && next[i - 1])
      else i > 0 && Accepts(atom, name[i - 1..i]) && current[i - 1]
  }

  /** One row of the table from the row before it. */
  method Advance(atom: Atom, name: Name, current: seq<bool>) returns (next: seq<bool>)
    requires |current| == |name| + 1
    ensures |next| == |name| + 1 && forall i :: 0 <= i <= |name| ==> Cell(atom, name, current, next, i)
  {
    next := seq(|name| + 1, _ => false);
    if atom.AnyMany? {
      next := next[0 := current[0]];
      for index := 1 to |name| + 1
        invariant |next| == |name| + 1 && forall i :: 0 <= i < index ==> Cell(atom, name, current, next, i)
      {
        ghost var before := next;
        next := next[index := current[index] || next[index - 1]];
        assert forall i :: 0 <= i < index ==> Cell(atom, name, current, before, i) ==> Cell(atom, name, current, next, i);
      }
    } else {
      for index := 0 to |name|
        invariant |next| == |name| + 1 && forall i :: 0 <= i <= index ==> Cell(atom, name, current, next, i)
        invariant forall i :: index < i <= |name| ==> !next[i]
      {
        ghost var before := next;
        next := next[index + 1 := next[index + 1] || (current[index] && Accepts(atom, name[index..index + 1]))];
        assert forall i :: 0 <= i <= index ==> Cell(atom, name, current, before, i) ==> Cell(atom, name, current, next, i);
      }
    }
  }

  lemma RowStep(atoms: seq<Atom>, j: nat, name: Name, i: nat)
    requires j < |atoms| && i <= |name|
    ensures Entry(atoms[..j + 1], name, i) <==>
      if atoms[j].AnyMany? then Entry(atoms[..j], name, i) || (i > 0 && Entry(atoms[..j + 1], name, i - 1))
      else i > 0 && Accepts(atoms[j], name[i - 1..i]) && Entry(atoms[..j], name, i - 1)
  {
    assert atoms[..j + 1][..j] == atoms[..j];
  }

  predicate IsRow(row: seq<bool>, atoms: seq<Atom>, name: Name) {
    |row| == |name| + 1 && forall i :: 0 <= i <= |name| ==> (row[i] <==> Entry(atoms, name, i))
  }

  lemma {:induction false} NextRow(atoms: seq<Atom>, j: nat, name: Name, current: seq<bool>, next: seq<bool>, n: nat)
    requires j < |atoms| && IsRow(current, atoms[..j], name) && |next| == |name| + 1 && n <= |name| + 1
    requires forall i :: 0 <= i <= |name| ==> Cell(atoms[j], name, current, next, i)
    ensures forall i :: 0 <= i < n ==> (next[i] <==> Entry(atoms[..j + 1], name, i))
  {
    if n > 0 {
      NextRow(atoms, j, name, current, next, n - 1);
      RowStep(atoms, j, name, n - 1);
      assert Cell(atoms[j], name, current, next, n - 1);
    }
  }

  /** The table decides the declarative meaning. */
  method MatchComponent(component: Component, name: Name) returns (found: bool)
    ensures found <==> Selects(component, name)
  {
    if StartsWithDot(name) && !component.explicitHidden {
      return false;
    }
    var atoms := component.atoms;
    var current := seq(|name| + 1, i => i == 0);
    for j := 0 to |atoms|
      invariant IsRow(current, atoms[..j], name)
    {
      var next := Advance(atoms[j], name, current);
      NextRow(atoms, j, name, current, next, |name| + 1);
      current := next;
    }
    assert atoms[..|atoms|] == atoms;
    EntryMeansSplit(atoms, name, |name|);
    found := current[|name|];
  }

  // ---------- Adjacent stars ----------

  /** Keeping one star of several keeps the meaning. */
  lemma {:induction false} CollapseKeepsEntries(atoms: seq<Atom>, name: Name, i: nat)
    requires i <= |name|
    ensures Entry(Collapsed(atoms), name, i) <==> Entry(atoms, name, i)
    decreases |atoms|, i
  {
    if atoms != [] {
      var front, last := atoms[..|atoms| - 1], atoms[|atoms| - 1];
      var kept := Collapsed(front);
      CollapseKeepsEntries(front, name, i);
      if i > 0 {
        CollapseKeepsEntries(front, name, i - 1);
        CollapseKeepsEntries(atoms, name, i - 1);
      }
      assert (kept + [last])[..|kept|] == kept;
    }
  }

  lemma CollapseKeepsMeaning(atoms: seq<Atom>, name: Name)
    ensures Denotes(Collapsed(atoms), name) <==> Denotes(atoms, name)
  {
    CollapseKeepsEntries(atoms, name, |name|);
    EntryMeansSplit(atoms, name, |name|);
    EntryMeansSplit(Collapsed(atoms), name, |name|);
  }

  // ---------- A name as its own pattern ----------

  predicate IsSpecial(c: NativeChar) {
    c == Unicode('*') || c == Unicode('?') || c == Unicode('[') || c == Unicode('\\')
  }

  predicate HasSpecial(name: Name) { exists c <- name :: IsSpecial(c) }

  /** The atom of a character that stands for itself or is a wildcard. */
  function AtomOf(c: NativeChar): Atom {
    if c == Unicode('*') then AnyMany else if c == Unicode('?') then AnyOne else Literal(c)
  }

  function AtomsOf(name: Name): (atoms: seq<Atom>)
    ensures |atoms| == |name| && forall k :: 0 <= k < |name| ==> atoms[k] == AtomOf(name[k])
  {
    if name == [] then [] else [AtomOf(name[0])] + AtomsOf(name[1..])
  }

  predicate HasBracketOrBackslash(name: Name) { Unicode('[') in name || Unicode('\\') in name }

  /** Escapes and classes take more characters than the one they match. */
  lemma {:induction false} AtomsAreFewer(chars: Name)
    requires Atoms(chars).Success?
    ensures |Atoms(chars).value| <= |chars|
    ensures |Atoms(chars).value| == |chars| <==> !HasBracketOrBackslash(chars)
    ensures !HasBracketOrBackslash(chars) ==> Atoms(chars).value == AtomsOf(chars)
    decreases |chars|
  {
    if chars != [] {
      assert chars == [chars[0]] + chars[1..];
      if chars[0] == Unicode('\\') {
        AtomsAreFewer(chars[2..]);
      } else if chars[0] == Unicode('[') {
        AtomsAreFewer(chars[1 + ClassOf(chars[1..]).value.1..]);
      } else {
        AtomsAreFewer(chars[1..]);
      }
    }
  }

  lemma {:induction false} WithoutBracketsParses(chars: Name)
    requires !HasBracketOrBackslash(chars)
    ensures Atoms(chars) == Success(AtomsOf(chars))
  {
    if chars != [] {
      assert chars == [chars[0]] + chars[1..];
      WithoutBracketsParses(chars[1..]);
    }
  }

  lemma {:induction false} CollapsedKeepsFirst(atoms: seq<Atom>)
    ensures (Collapsed(atoms) == [] <==> atoms == []) && (atoms != [] ==> Collapsed(atoms)[0] == atoms[0])
  {
    if atoms != [] {
      CollapsedKeepsFirst(atoms[..|atoms| - 1]);
    }
  }

  /** What a parsed component selects, in terms of the atoms before stars are merged. */
  lemma ComponentMeans(chars: Name, name: Name)
    requires Atoms(chars).Success?
    ensures var atoms := Atoms(chars).value;
      Selects(ComponentOf(chars).value, name) <==>
        (StartsWithDot(name) ==> atoms != [] && atoms[0] == Literal(Unicode('.'))) && Entry(atoms, name, |name|)
  {
    var atoms := Atoms(chars).value;
    CollapseKeepsMeaning(atoms, name);
    CollapsedKeepsFirst(atoms);
    EntryMeansSplit(atoms, name, |name|);
  }

  lemma {:induction false} EntryOfPrefix(atoms: seq<Atom>, name: Name, other: Name, i: nat)
    requires i <= |name| && i <= |other| && name[..i] == other[..i]
    ensures Entry(atoms, name, i) <==> Entry(atoms, other, i)
    decreases |atoms|, i
  {
    if atoms != [] {
      var front := atoms[..|atoms| - 1];
      EntryOfPrefix(front, name, other, i);
      if i > 0 {
        assert name[..i - 1] == name[..i][..i - 1] && other[..i - 1] == other[..i][..i - 1];
        assert name[i - 1] == name[..i][i - 1] && other[i - 1] == other[..i][i - 1];
        assert name[i - 1..i] == other[i - 1..i];
        EntryOfPrefix(front, name, other, i - 1);
        EntryOfPrefix(atoms, name, other, i - 1);
      }
    }
  }

  function WithB(name: Name, k: nat): Name
    requires k <= |name|
  {
    name[..k] + [Unicode('b')] + name[k..]
  }

  /** Where there is a star, one more character can be taken. */
  lemma {:induction false} StarTakesMore(atoms: seq<Atom>, name: Name) returns (k: nat)
    requires AnyMany in atoms && Entry(atoms, name, |name|)
    ensures k <= |name| && Entry(atoms, WithB(name, k), |name| + 1)
    decreases |atoms|
  {
    var n := |name|;
    var front, last := atoms[..|atoms| - 1], atoms[|atoms| - 1];
    if last.AnyMany? {
      k := n;
      EntryOfPrefix(atoms, name, WithB(name, n), n);
    } else {
      assert atoms == front + [last];
      var shorter := name[..n - 1];
      EntryOfPrefix(front, name, shorter, n - 1);
      k := StarTakesMore(front, shorter);
      var longer := WithB(name, k);
      assert longer[..n] == WithB(shorter, k)[..n];
      EntryOfPrefix(front, WithB(shorter, k), longer, n);
      assert longer[n] == name[n - 1];
      assert longer[n..n + 1] == name[n - 1..n];
    }
  }

  /** Without a star, the names that match are as long as the list of atoms. */
  lemma {:induction false} WithoutStarLengthIsFixed(atoms: seq<Atom>, name: Name, i: nat)
    requires AnyMany !in atoms && i <= |name| && Entry(atoms, name, i)
    ensures i == |atoms|
    decreases |atoms|
  {
    if atoms != [] {
      WithoutStarLengthIsFixed(atoms[..|atoms| - 1], name, i - 1);
    }
  }

  /** Position by position, each atom accepts one character. */
  lemma {:induction false} PointwiseMatch(atoms: seq<Atom>, name: Name, n: nat)
    requires |atoms| == |name| && n <= |name| && forall k :: 0 <= k < n ==> Accepts(atoms[k], name[k..k + 1])
    ensures Entry(atoms[..n], name, n)
  {
    if n > 0 {
      PointwiseMatch(atoms, name, n - 1);
      RowStep(atoms, n - 1, name, n);
      RowStep(atoms, n - 1, name, n - 1);
      if atoms[n - 1].AnyMany? {
        StarAfter(atoms, n - 1, name, n);
      }
    }
  }

  lemma StarAfter(atoms: seq<Atom>, j: nat, name: Name, i: nat)
    requires j < |atoms| && atoms[j].AnyMany? && 0 < i <= |name| && Entry(atoms[..j], name, i - 1)
    ensures Entry(atoms[..j + 1], name, i)
  {
    RowStep(atoms, j, name, i);
    RowStep(atoms, j, name, i - 1);
  }

  /** A list of literals matches the characters it lists and nothing else. */
  lemma {:induction false} LiteralsFixTheName(atoms: seq<Atom>, name: Name, i: nat)
    requires i <= |name| && (forall atom <- atoms :: atom.Literal?) && Entry(atoms, name, i)
    ensures i == |atoms| && forall k :: 0 <= k < i ==> atoms[k] == Literal(name[k])
  {
    if atoms != [] {
      assert atoms[|atoms| - 1].Literal?;
      LiteralsFixTheName(atoms[..|atoms| - 1], name, i - 1);
      assert name[i - 1..i][0] == name[i - 1];
    }
  }

  predicate AgreesOutsideQuestionMarks(name: Name, other: Name) {
    |other| == |name| && forall k :: 0 <= k < |name| ==> other[k] == name[k] || name[k] == Unicode('?')
  }

  /** Read character by character, a name matches whatever differs only where it has a question mark. */
  lemma CharactersDenote(name: Name, other: Name)
    requires AgreesOutsideQuestionMarks(name, other)
    ensures Denotes(AtomsOf(name), other)
  {
    var atoms := AtomsOf(name);
    forall k | 0 <= k < |name| ensures Accepts(atoms[k], other[k..k + 1]) {
      assert other[k..k + 1] == [other[k]];
    }
    PointwiseMatch(atoms, other, |name|);
    assert atoms[..|name|] == atoms;
    EntryMeansSplit(atoms, other, |other|);
  }

  // ---------- Selecting oneself ----------

  ghost predicate SelectsItself(name: Name) {
    ComponentOf(name).Success? && Selects(ComponentOf(name).value, name)
  }

  ghost predicate SelectsExactlyItself(name: Name) {
    ComponentOf(name).Success? && forall other :: Selects(ComponentOf(name).value, other) <==> other == name
  }

  /** A name without brackets and backslashes matches itself: wildcards match themselves too. */
  lemma WithoutBracketsSelectsItself(name: Name)
    requires !HasBracketOrBackslash(name)
    ensures SelectsItself(name)
  {
    WithoutBracketsParses(name);
    CharactersDenote(name, name);
    EntryMeansSplit(AtomsOf(name), name, |name|);
    ComponentMeans(name, name);
  }

  /**
    Without a star, a name selects itself exactly when it has no bracket and no backslash; without these,
    it always does. With a star and one of these, both outcomes occur.
   */
  lemma SelectsItselfExactlyWhen(name: Name)
    requires Unicode('*') !in name || !HasBracketOrBackslash(name)
    ensures SelectsItself(name) <==> !HasBracketOrBackslash(name)
  {
    if !HasBracketOrBackslash(name) {
      WithoutBracketsSelectsItself(name);
    } else if SelectsItself(name) {
      AtomsAreFewer(name);
      StarsAreWritten(name);
      ComponentMeans(name, name);
      WithoutStarLengthIsFixed(Atoms(name).value, name, |name|);
    }
  }

  /** Stars in the atoms come from stars in the text. */
  lemma {:induction false} StarsAreWritten(chars: Name)
    requires Atoms(chars).Success? && Unicode('*') !in chars
    ensures AnyMany !in Atoms(chars).value
    decreases |chars|
  {
    if chars != [] {
      if chars[0] == Unicode('\\') {
        StarsAreWritten(chars[2..]);
      } else if chars[0] == Unicode('[') {
        StarsAreWritten(chars[1 + ClassOf(chars[1..]).value.1..]);
      } else {
        StarsAreWritten(chars[1..]);
      }
    }
  }

  lemma PlainSelectsNothingElse(name: Name, other: Name)
    requires !HasSpecial(name) && ComponentOf(name).Success? && Selects(ComponentOf(name).value, other)
    ensures other == name
  {
    WithoutBracketsParses(name);
    ComponentMeans(name, other);
    assert forall k :: 0 <= k < |name| ==> name[k] in name;
    LiteralsFixTheName(AtomsOf(name), other, |other|);
  }

  /** A starred name that selects itself selects a longer name as well. */
  lemma StarSelectsAnother(name: Name) returns (other: Name)
    requires SelectsItself(name) && AnyMany in Atoms(name).value
    ensures other != name && Selects(ComponentOf(name).value, other)
  {
    ComponentMeans(name, name);
    var k := StarTakesMore(Atoms(name).value, name);
    other := WithB(name, k);
    ComponentMeans(name, other);
  }

  /** A name that selects itself without a star is made of literals and question marks. */
  lemma StarlessIsPlain(name: Name)
    requires SelectsItself(name) && AnyMany !in Atoms(name).value
    ensures !HasBracketOrBackslash(name) && Atoms(name) == Success(AtomsOf(name))
  {
    ComponentMeans(name, name);
    AtomsAreFewer(name);
    WithoutStarLengthIsFixed(Atoms(name).value, name, |name|);
  }

  /** A special name that selects itself selects another name as well. */
  lemma SpecialSelectsAnother(name: Name) returns (other: Name)
    requires HasSpecial(name) && SelectsItself(name)
    ensures other != name && Selects(ComponentOf(name).value, other)
  {
    if AnyMany in Atoms(name).value {
      other := StarSelectsAnother(name);
    } else {
      StarlessIsPlain(name);
      var k := QuestionMarkIn(name);
      other := name[k := Unicode('b')];
      QuestionMarkTakesAnother(name, k);
    }
  }

  lemma QuestionMarkIn(name: Name) returns (k: nat)
    requires HasSpecial(name) && !HasBracketOrBackslash(name) && AnyMany !in AtomsOf(name)
    ensures k < |name| && name[k] == Unicode('?')
  {
    var c :| c in name && IsSpecial(c);
    k :| 0 <= k < |name| && name[k] == c;
    assert AtomsOf(name)[k] in AtomsOf(name);
  }

  lemma QuestionMarkTakesAnother(name: Name, k: nat)
    requires k < |name| && name[k] == Unicode('?') && !HasBracketOrBackslash(name)
    ensures ComponentOf(name).Success?
    ensures var other := name[k := Unicode('b')]; other != name && Selects(ComponentOf(name).value, other)
  {
    var other := name[k := Unicode('b')];
    WithoutBracketsParses(name);
    CharactersDenote(name, other);
    EntryMeansSplit(AtomsOf(name), other, |other|);
    ComponentMeans(name, other);
    assert other[k] != name[k];
    assert StartsWithDot(other) ==> AtomsOf(name)[0] == Literal(Unicode('.'));
  }

  /** Used as a pattern, a file name selects that file and nothing else exactly when it has none of `*?[\`. */
  lemma SelectsExactlyItselfExactlyWhen(name: Name)
    ensures SelectsExactlyItself(name) <==> !HasSpecial(name)
  {
    if HasSpecial(name) {
      if SelectsItself(name) {
        var other := SpecialSelectsAnother(name);
      }
    } else {
      WithoutBracketsSelectsItself(name);
      forall other | Selects(ComponentOf(name).value, other)
        ensures other == name
      {
        PlainSelectsNothingElse(name, other);
      }
    }
  }

  // ---------- Whole paths ----------

  datatype Segment = Parent | Recursive | Plain(component: Component)

  const DOT_DOT: Name := [Unicode('.'), Unicode('.')]

  ghost predicate MatchSegments(pattern: seq<Segment>, candidate: seq<Name>)
    decreases |pattern| + |candidate|
  {
    if pattern == [] then candidate == []
    else
      match pattern[0]
      case Parent => candidate != [] && candidate[0] == DOT_DOT && MatchSegments(pattern[1..], candidate[1..])
      case Recursive =>
        || MatchSegments(pattern[1..], candidate)
        || (candidate != [] && !StartsWithDot(candidate[0]) && MatchSegments(pattern, candidate[1..]))
      case Plain(component) => candidate != [] && Selects(component, candidate[0]) && MatchSegments(pattern[1..], candidate[1..])
  }

  ghost predicate SkipsTo(pattern: seq<Segment>, candidate: seq<Name>, k: nat) {
    && k <= |candidate| && (forall i :: 0 <= i < k ==> !StartsWithDot(candidate[i]))
    && MatchSegments(pattern, candidate[k..])
  }

  /** A double star stands for any number of components none of which is hidden. */
  lemma {:induction false} DoubleStarSkipsVisibleComponents(pattern: seq<Segment>, candidate: seq<Name>)
    ensures MatchSegments([Recursive] + pattern, candidate) <==> exists k: nat :: SkipsTo(pattern, candidate, k)
    decreases |candidate|
  {
    var stars := [Recursive] + pattern;
    assert stars[1..] == pattern && candidate[0..] == candidate;
    if MatchSegments(pattern, candidate) {
      assert SkipsTo(pattern, candidate, 0);
    }
    if candidate != [] {
      var rest := candidate[1..];
      DoubleStarSkipsVisibleComponents(pattern, rest);
      if !StartsWithDot(candidate[0]) && MatchSegments(stars, rest) {
        var k: nat :| SkipsTo(pattern, rest, k);
        assert candidate[k + 1..] == rest[k..];
        assert SkipsTo(pattern, candidate, k + 1);
      }
      if exists k: nat :: SkipsTo(pattern, candidate, k) {
        var k: nat :| SkipsTo(pattern, candidate, k);
        if k > 0 {
          assert candidate[k..] == rest[k - 1..];
          assert SkipsTo(pattern, rest, k - 1);
        }
      }
    }
  }

  /** The segment of one component of a path. */
  function SegmentOf(component: Name): Result<Segment, GlobError> {
    if component == DOT_DOT then Success(Parent)
    else if component == [Unicode('*'), Unicode('*')] then Success(Recursive)
    else if ComponentOf(component).Success? then Success(Plain(ComponentOf(component).value))
    else Failure(ComponentOf(component).error)
  }

  function SegmentsOf(components: seq<Name>): Result<seq<Segment>, GlobError> {
    if components == [] then Success([])
    else
      var first := SegmentOf(components[0]);
      if first.Failure? then Failure(first.error)
      else
        var rest := SegmentsOf(components[1..]);
        if rest.Failure? then rest else Success([first.value] + rest.value)
  }

  lemma {:induction false} SegmentsAre(components: seq<Name>)
    ensures SegmentsOf(components).Success? <==> forall i :: 0 <= i < |components| ==> SegmentOf(components[i]).Success?
    ensures SegmentsOf(components).Success? ==> var pattern := SegmentsOf(components).value;
      |pattern| == |components| && forall i :: 0 <= i < |components| ==> pattern[i] == SegmentOf(components[i]).value
  {
    if components != [] {
      SegmentsAre(components[1..]);
      assert components == [components[0]] + components[1..];
    }
  }

  ghost predicate SegmentSelects(segment: Segment, name: Name)
    requires !segment.Recursive?
  {
    match segment
    case Parent => name == DOT_DOT
    case Plain(component) => Selects(component, name)
  }

  lemma {:induction false} WithoutDoubleStarPointwise(pattern: seq<Segment>, candidate: seq<Name>)
    requires Recursive !in pattern
    ensures MatchSegments(pattern, candidate) <==>
      |candidate| == |pattern| && forall i :: 0 <= i < |pattern| ==> SegmentSelects(pattern[i], candidate[i])
  {
    if pattern != [] {
      assert pattern == [pattern[0]] + pattern[1..];
      if candidate != [] {
        WithoutDoubleStarPointwise(pattern[1..], candidate[1..]);
        assert candidate == [candidate[0]] + candidate[1..];
      }
    }
  }

  /** Where there is a double star, one more directory can be passed. */
  lemma {:induction false} DoubleStarTakesMore(pattern: seq<Segment>, candidate: seq<Name>) returns (longer: seq<Name>)
    requires Recursive in pattern && MatchSegments(pattern, candidate)
    ensures |longer| == |candidate| + 1 && MatchSegments(pattern, longer)
    decreases |pattern|
  {
    if pattern[0].Recursive? {
      longer := [[Unicode('b')]] + candidate;
      assert longer[1..] == candidate;
    } else {
      assert pattern == [pattern[0]] + pattern[1..];
      var rest := DoubleStarTakesMore(pattern[1..], candidate[1..]);
      longer := [candidate[0]] + rest;
      assert longer[1..] == rest;
    }
  }

  ghost predicate PathSelectsExactlyItself(components: seq<Name>) {
    SegmentsOf(components).Success?
    && forall candidate :: MatchSegments(SegmentsOf(components).value, candidate) <==> candidate == components
  }

  predicate PathHasSpecial(components: seq<Name>) {
    exists i :: 0 <= i < |components| && HasSpecial(components[i])
  }

  lemma DoubleStarIsSpecial()
    ensures HasSpecial([Unicode('*'), Unicode('*')])
  {
    var stars := [Unicode('*'), Unicode('*')];
    assert stars[0] in stars && IsSpecial(stars[0]);
  }

  lemma PlainPathSelectsExactlyItself(components: seq<Name>)
    requires !PathHasSpecial(components)
    ensures PathSelectsExactlyItself(components)
  {
    forall i | 0 <= i < |components|
      ensures SegmentOf(components[i]).Success? && !SegmentOf(components[i]).value.Recursive?
      ensures forall name :: SegmentSelects(SegmentOf(components[i]).value, name) <==> name == components[i]
    {
      SelectsExactlyItselfExactlyWhen(components[i]);
      DoubleStarIsSpecial();
    }
    SegmentsAre(components);
    forall candidate
      ensures MatchSegments(SegmentsOf(components).value, candidate) <==> candidate == components
    {
      WithoutDoubleStarPointwise(SegmentsOf(components).value, candidate);
    }
  }

  lemma SpecialPathSelectsAnother(components: seq<Name>, i: nat) returns (other: seq<Name>)
    requires i < |components| && HasSpecial(components[i])
    requires SegmentsOf(components).Success? && MatchSegments(SegmentsOf(components).value, components)
    ensures other != components && MatchSegments(SegmentsOf(components).value, other)
  {
    var pattern := SegmentsOf(components).value;
    SegmentsAre(components);
    if Recursive in pattern {
      other := DoubleStarTakesMore(pattern, components);
    } else {
      WithoutDoubleStarPointwise(pattern, components);
      assert components[i] != DOT_DOT;
      assert pattern[i] in pattern && SegmentSelects(pattern[i], components[i]);
      var name := SpecialSelectsAnother(components[i]);
      other := components[i := name];
      WithoutDoubleStarPointwise(pattern, other);
      assert other[i] != components[i];
    }
  }

  /**
    A path used as a pattern selects that path and nothing else exactly when no component has one of `*?[\`.
    This is what completing a literal path into the argument of `glob` relies on.
   */
  lemma PathSelectsExactlyItselfExactlyWhen(components: seq<Name>)
    ensures PathSelectsExactlyItself(components) <==> !PathHasSpecial(components)
  {
    if PathHasSpecial(components) {
      var i :| 0 <= i < |components| && HasSpecial(components[i]);
      if SegmentsOf(components).Success? && MatchSegments(SegmentsOf(components).value, components) {
        var other := SpecialPathSelectsAnother(components, i);
      }
    } else {
      PlainPathSelectsExactlyItself(components);
    }
  }

  /** A completed class-like name, such as `[b]`, is a pattern that misses its own file. */
  lemma BracketNameMissesItself()
    ensures !SelectsItself(Spelled("[b]"))
  {
    var name := Spelled("[b]");
    assert name[0] == Unicode('[');
    SelectsItselfExactlyWhen(name);
  }

  /** With a star, a name with a backslash may still select itself. */
  lemma StarredBackslashSelectsItself()
    ensures SelectsItself([Unicode('*'), Unicode('\\'), Unicode('*')])
  {
    var name := [Unicode('*'), Unicode('\\'), Unicode('*')];
    var literal := Literal(Unicode('*'));
    var atoms := [AnyMany, literal];
    assert name[1..] == [Unicode('\\'), Unicode('*')] && name[1..][2..] == [];
    assert [literal] + [] == [literal] && [AnyMany] + [literal] == atoms;
    assert Atoms([]) == Success([]);
    assert Atoms(name[1..]) == MoreAtoms([literal], Atoms(name[1..][2..]));
    assert Atoms(name) == MoreAtoms([AnyMany], Atoms(name[1..]));
    assert Entry(atoms[..0], name, 0);
    RowStep(atoms, 0, name, 0);
    StarAfter2(atoms, name);
    RowStep(atoms, 1, name, 3);
    assert atoms[..2] == atoms;
    ComponentMeans(name, name);
  }

  lemma StarAfter2(atoms: seq<Atom>, name: Name)
    requires |atoms| > 0 && atoms[0].AnyMany? && |name| >= 2 && Entry(atoms[..1], name, 0)
    ensures Entry(atoms[..1], name, 2)
  {
    RowStep(atoms, 0, name, 1);
    RowStep(atoms, 0, name, 2);
  }

  /** The first part of a split is a prefix of the name. */
  lemma FirstAtomAcceptsPrefix(atoms: seq<Atom>, name: Name)
    requires atoms != []
    ensures Entry(atoms, name, |name|) ==> exists k: nat :: k <= |name| && Accepts(atoms[0], name[..k])
  {
    EntryMeansSplit(atoms, name, |name|);
    if Splits(atoms, name, |name|) {
      var cuts :| IsSplit(atoms, name, |name|, cuts);
      assert cuts[1] <= |name| && Accepts(atoms[0], name[cuts[0]..cuts[1]]);
      assert name[cuts[0]..cuts[1]] == name[..cuts[1]];
    }
  }

  const JUST_B: Class := Class(false, [(Unicode('b'), Unicode('b'))])

  lemma ClassOfB()
    ensures ClassOf([Unicode('b'), Unicode(']'), Unicode('*')]) == Success((JUST_B, 2))
  {
    var chars := [Unicode('b'), Unicode(']'), Unicode('*')];
    assert chars[0..] == chars && chars[1..] == [Unicode(']'), Unicode('*')];
    assert Items(chars[1..]) == Success(([], 1));
    var items: seq<Item> := [(Unicode('b'), false)];
    assert items + [] == items && items[1..] == [];
    assert Items(chars) == Success((items, 2));
    assert Ranges([]) == Success([]);
    assert Ranges(items) == MoreRanges((Unicode('b'), Unicode('b')), Ranges(items[1..]));
    assert [(Unicode('b'), Unicode('b'))] + [] == JUST_B.ranges;
  }

  /** With a star, a name with a bracket may miss itself. */
  lemma StarredBracketMissesItself()
    ensures !SelectsItself([Unicode('['), Unicode('b'), Unicode(']'), Unicode('*')])
  {
    var name := [Unicode('['), Unicode('b'), Unicode(']'), Unicode('*')];
    ClassOfB();
    assert name[1..] == [Unicode('b'), Unicode(']'), Unicode('*')] && name[3..] == [Unicode('*')];
    assert Atoms(name) == MoreAtoms([OneOf(JUST_B)], Atoms(name[3..]));
    assert Atoms(name).Success?;
    ComponentMeans(name, name);
    FirstAtomAcceptsPrefix(Atoms(name).value, name);
    forall k: nat | k <= |name|
      ensures !Accepts(OneOf(JUST_B), name[..k])
    {
      assert k == 1 ==> name[..k][0] == Unicode('[');
    }
  }
}

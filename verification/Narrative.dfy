/**
 * Reading the `narrative` field out of JSON text that is still being written.
 * Text is a sequence of UTF-16 code units, so surrogates and cuts between them are ordinary values.
 */
module Narrative {
  import opened Prelude

  type Unit = u: int | 0 <= u < 0x10000
  type Text = seq<Unit>

  const QUOTE: Unit := 34
  const BACKSLASH: Unit := 92
  const COLON: Unit := 58
  const LETTER_U: Unit := 117

  /** The eleven units of `"narrative"`, quotes included. */
  const KEY: Text := [34, 110, 97, 114, 114, 97, 116, 105, 118, 101, 34]

  lemma KeyIsNarrative()
    ensures |KEY| == |"\"narrative\""| && forall i :: 0 <= i < |KEY| ==> KEY[i] == "\"narrative\""[i] as int
  {
  }

  // ---------- the field opening: "narrative" \s* : \s* " ----------

  function SkipSpaces(s: Text, i: nat): (j: nat)
    requires i <= |s|
    ensures i <= j <= |s|
    ensures forall k :: i <= k < j ==> IsSpaceCode(s[k])
    ensures j < |s| ==> !IsSpaceCode(s[j])
    decreases |s| - i
  {
    if i < |s| && IsSpaceCode(s[i]) then SkipSpaces(s, i + 1) else i
  }

  /** Where the value starts, when the field opening stands at `i`. */
  function OpensAt(s: Text, i: nat): (e: Option<nat>)
    ensures e.Some? ==> i + 13 <= e.value <= |s|
  {
    if i + |KEY| > |s| || s[i..i + |KEY|] != KEY then None
    else
      var c := SkipSpaces(s, i + |KEY|);
      if c == |s| || s[c] != COLON then None
      else
        var q := SkipSpaces(s, c + 1);
        if q == |s| || s[q] != QUOTE then None else Some(q + 1)
  }

  /** The leftmost opening at or after `i`. */
  function FindOpening(s: Text, i: nat): (e: Option<nat>)
    ensures e.Some? ==> e.value <= |s|
    decreases |s| - i
  {
    if i >= |s| then None
    else if OpensAt(s, i).Some? then OpensAt(s, i)
    else FindOpening(s, i + 1)
  }

  /** The pattern itself: the key, spaces, a colon at `c`, spaces, a quote at `e - 1`. */
  ghost predicate Opening(s: Text, i: int, c: int, e: int)
  {
    && 0 <= i && i + |KEY| <= c && c + 2 <= e <= |s|
    && s[i..i + |KEY|] == KEY && s[c] == COLON && s[e - 1] == QUOTE
    && (forall k :: i + |KEY| <= k < c ==> IsSpaceCode(s[k]))
    && (forall k :: c < k < e - 1 ==> IsSpaceCode(s[k]))
  }

  /** Scanning greedily finds the pattern whenever it is there, and at one end only. */
  lemma OpensAtIsPattern(s: Text, i: nat, e: nat)
    ensures OpensAt(s, i) == Some(e) <==> exists c :: Opening(s, i, c, e)
  {
    if OpensAt(s, i) == Some(e) {
      var c := SkipSpaces(s, i + |KEY|);
      assert e - 1 == SkipSpaces(s, c + 1);
      assert Opening(s, i, c, e);
    }
    if exists c :: Opening(s, i, c, e) {
      var c :| Opening(s, i, c, e);
      SkipSpacesStops(s, i + |KEY|, c);
      SkipSpacesStops(s, c + 1, e - 1);
    }
  }

  lemma {:induction false} SkipSpacesStops(s: Text, i: nat, j: nat)
    requires i <= j < |s| && !IsSpaceCode(s[j]) && forall k :: i <= k < j ==> IsSpaceCode(s[k])
    ensures SkipSpaces(s, i) == j
    decreases j - i
  {
    if i < j { SkipSpacesStops(s, i + 1, j); }
  }

  lemma OpeningExtends(p: Text, q: Text, i: nat, e: nat)
    requires e <= |p|
    ensures OpensAt(p, i) == Some(e) <==> OpensAt(p + q, i) == Some(e)
  {
    OpensAtIsPattern(p, i, e);
    OpensAtIsPattern(p + q, i, e);
    forall c ensures Opening(p, i, c, e) <==> Opening(p + q, i, c, e) {
      SamePattern(p, p + q, i, c, e);
    }
  }

  lemma SamePattern(p: Text, s: Text, i: nat, c: int, e: nat)
    requires e <= |p| <= |s| && forall k :: 0 <= k < |p| ==> s[k] == p[k]
    ensures Opening(p, i, c, e) <==> Opening(s, i, c, e)
  {
    if i + |KEY| <= e {
      assert s[i..i + |KEY|] == p[i..i + |KEY|];
    }
  }

  /** An opening holds four quotes: its first unit, the one ten later, and the last. */
  lemma QuotesOfOpening(s: Text, i: nat, e: nat)
    requires OpensAt(s, i) == Some(e)
    ensures s[i] == QUOTE && s[i + 10] == QUOTE && s[e - 1] == QUOTE
    ensures forall k :: i < k < e - 1 && s[k] == QUOTE ==> k == i + 10
  {
    OpensAtIsPattern(s, i, e);
    var c :| Opening(s, i, c, e);
    var key := s[i..i + |KEY|];
    assert s[i] == key[0] && s[i + 10] == key[10];
    forall k | i < k < e - 1 && k != i + 10 ensures s[k] != QUOTE {
      if k < i + |KEY| {
        assert s[k] == key[k - i];
      } else if k != c {
        assert IsSpaceCode(s[k]);
      }
    }
  }

  lemma {:induction false} FoundOpening(s: Text, from: nat, e: nat)
    requires FindOpening(s, from) == Some(e)
    ensures exists i :: from <= i < |s| && OpensAt(s, i) == Some(e)
    decreases |s| - from
  {
    if OpensAt(s, from).None? {
      FoundOpening(s, from + 1, e);
    }
  }

  /** The search finds an opening wherever there is one at or after `from`. */
  lemma {:induction false} OpeningIsFound(s: Text, from: nat, i: nat)
    requires from <= i < |s| && OpensAt(s, i).Some?
    ensures FindOpening(s, from).Some?
    decreases i - from
  {
    if OpensAt(s, from).None? { OpeningIsFound(s, from + 1, i); }
  }

  /** And what it finds is the leftmost one. */
  lemma {:induction false} FoundIsLeftmost(s: Text, from: nat) returns (i: nat, c: int)
    requires FindOpening(s, from).Some?
    ensures from <= i && Opening(s, i, c, FindOpening(s, from).value)
    ensures forall j, c', e' :: from <= j && Opening(s, j, c', e') ==> i <= j
    decreases |s| - from
  {
    var e := FindOpening(s, from).value;
    if OpensAt(s, from).Some? {
      OpensAtIsPattern(s, from, e);
      i := from;
      c :| Opening(s, i, c, e);
    } else {
      i, c := FoundIsLeftmost(s, from + 1);
      forall j, c', e' | from <= j && Opening(s, j, c', e') ensures i <= j {
        if j == from { OpensAtIsPattern(s, from, e'); }
      }
    }
  }

  /** No opening of the longer text can start before an opening of the shorter one and end after it. */
  lemma NoOpeningAcross(p: Text, q: Text, i: nat, j: nat, e: nat, e': nat)
    requires i < j && OpensAt(p, j) == Some(e) && OpensAt(p + q, i) == Some(e')
    ensures e' <= |p|
  {
    OpeningExtends(p, q, j, e);
    QuotesOfOpening(p + q, j, e);
    QuotesOfOpening(p + q, i, e');
  }

  /** The leftmost opening stays the leftmost one when text is added. */
  lemma {:induction false} LeftmostStays(p: Text, q: Text, from: nat, e: nat)
    requires FindOpening(p, from) == Some(e)
    ensures FindOpening(p + q, from) == Some(e)
    decreases |p| - from
  {
    if OpensAt(p, from).Some? {
      OpeningExtends(p, q, from, e);
    } else {
      FoundOpening(p, from + 1, e);
      var j :| from + 1 <= j < |p| && OpensAt(p, j) == Some(e);
      if OpensAt(p + q, from).Some? {
        var e' := OpensAt(p + q, from).value;
        NoOpeningAcross(p, q, from, j, e, e');
        OpeningExtends(p, q, from, e');
      }
      LeftmostStays(p, q, from + 1, e);
    }
  }

  // ---------- the value ----------

  predicate IsHex(u: Unit)
  {
    48 <= u <= 57 || 65 <= u <= 70 || 97 <= u <= 102
  }

  function HexDigit(u: Unit): (d: nat)
    requires IsHex(u)
    ensures d < 16
  {
    if u <= 57 then u - 48 else if u <= 70 then u - 55 else u - 87
  }

  function HexValue(a: Unit, b: Unit, c: Unit, d: Unit): Unit
    requires IsHex(a) && IsHex(b) && IsHex(c) && IsHex(d)
  {
    HexDigit(a) * 4096 + HexDigit(b) * 256 + HexDigit(c) * 16 + HexDigit(d)
  }

  /** What a two-unit escape is shown as. */
  function Shown(next: Unit): Text
  {
    if next == 110 then [10]
    else if next == 116 then [9]
    else if next == 114 || next == 98 || next == 102 then []
    else [next]
  }

  predicate FourHex(s: Text)
  {
    |s| >= 4 && IsHex(s[0]) && IsHex(s[1]) && IsHex(s[2]) && IsHex(s[3])
  }

  /** The shown text of a value that starts at the front of `s`. */
  function Decode(s: Text): Text
  {
    if s == [] || s[0] == QUOTE then []
    else if s[0] != BACKSLASH then [s[0]] + Decode(s[1..])
    else if |s| == 1 then []
    else if s[1] == LETTER_U then
      if FourHex(s[2..]) then [HexValue(s[2], s[3], s[4], s[5])] + Decode(s[6..]) else []
    else Shown(s[1]) + Decode(s[2..])
  }

  function Narrative(buffer: Text): Option<Text>
  {
    var start := FindOpening(buffer, 0);
    if start.None? then None else Some(Decode(buffer[start.value..]))
  }

  /** How much of `s` one turn of the loop takes, or None when it returns there. */
  function Turn(s: Text): (step: Option<(nat, Text)>)
    ensures step.Some? ==> 0 < step.value.0 <= |s|
  {
    if s == [] || s[0] == QUOTE then None
    else if s[0] != BACKSLASH then Some((1, [s[0]]))
    else if |s| == 1 then None
    else if s[1] == LETTER_U then
      if FourHex(s[2..]) then Some((6, [HexValue(s[2], s[3], s[4], s[5])])) else None
    else Some((2, Shown(s[1])))
  }

  lemma TurnDecodes(out: Text, s: Text)
    ensures Turn(s).None? ==> out + Decode(s) == out
    ensures Turn(s).Some? ==> (out + Turn(s).value.1) + Decode(s[Turn(s).value.0..]) == out + Decode(s)
  {
    if Turn(s).Some? {
      var (n, shown) := Turn(s).value;
      assert Decode(s) == shown + Decode(s[n..]);
      assert (out + shown) + Decode(s[n..]) == out + (shown + Decode(s[n..]));
    }
  }

  /** `e` is where the value of the leftmost field opening starts. */
  ghost predicate ValueAt(s: Text, e: int)
  {
    exists i, c :: Opening(s, i, c, e) && forall j, c', e' :: Opening(s, j, c', e') ==> i <= j
  }

  /** There is an answer exactly when the field's opening is somewhere in the buffer, and it reads the value of the leftmost. */
  lemma AnswersExactlyWithTheField(source: Text)
    ensures Narrative(source).Some? <==> exists i, c, e :: Opening(source, i, c, e)
    ensures Narrative(source).Some? ==> exists e :: 0 <= e <= |source| && ValueAt(source, e) && Narrative(source) == Some(Decode(source[e..]))
  {
    hide Decode;
    if exists i, c, e :: Opening(source, i, c, e) {
      var i, c, e :| Opening(source, i, c, e);
      OpensAtIsPattern(source, i, e);
      OpeningIsFound(source, 0, i);
    }
    if Narrative(source).Some? {
      var i, c := FoundIsLeftmost(source, 0);
      var e := FindOpening(source, 0).value;
      assert Opening(source, i, c, e);
      assert forall j, c', e' :: Opening(source, j, c', e') ==> 0 <= j;
      assert ValueAt(source, e);
    }
  }

  method StreamingNarrative(source: Text) returns (r: Option<Text>)
    ensures r == Narrative(source)
    ensures r.Some? <==> exists i, c, e :: Opening(source, i, c, e)
    ensures r.Some? ==> exists e :: 0 <= e <= |source| && ValueAt(source, e) && r == Some(Decode(source[e..]))
  {
    hide Decode;
    AnswersExactlyWithTheField(source);
    hide Opening, ValueAt, OpensAt;
    var key := FindOpening(source, 0);
    if key.None? { return None; }
    var out: Text := [];
    var index := key.value;
    ghost var whole := Decode(source[index..]);
    while index < |source|
      invariant index <= |source|
      invariant out + Decode(source[index..]) == whole
    {
      ghost var rest := source[index..];
      TurnDecodes(out, rest);
      var unit := source[index];
      if unit == QUOTE { return Some(out); }
      if unit != BACKSLASH {
        assert rest[1..] == source[index + 1..];
        out := out + [unit];
        index := index + 1;
        continue;
      }
      // an escape cut at the end of the buffer waits for the next increment
      if index + 1 == |source| { return Some(out); }
      var next := source[index + 1];
      if next == LETTER_U {
        var hex := source[index + 2..if index + 6 <= |source| then index + 6 else |source|];
        assert forall k :: 0 <= k < |hex| ==> hex[k] == rest[2..][k];
        if |hex| != 4 || !FourHex(hex) { return Some(out); }
        assert rest[6..] == source[index + 6..];
        out := out + [HexValue(hex[0], hex[1], hex[2], hex[3])];
        index := index + 6;
        continue;
      }
      assert rest[2..] == source[index + 2..];
      out := out + Shown(next);
      index := index + 2;
    }
    assert source[index..] == [];
    TurnDecodes(out, []);
    r := Some(out);
  }

  // ---------- what is shown is never taken back ----------

  lemma {:induction false} DecodeGrows(a: Text, b: Text)
    ensures Decode(a) <= Decode(a + b)
    decreases |a|
  {
    if a != [] && a[0] != QUOTE {
      if a[0] != BACKSLASH {
        assert (a + b)[1..] == a[1..] + b;
        DecodeGrows(a[1..], b);
      } else if |a| > 1 {
        if a[1] == LETTER_U {
          if FourHex(a[2..]) {
            assert (a + b)[6..] == a[6..] + b;
            DecodeGrows(a[6..], b);
          }
        } else {
          assert (a + b)[2..] == a[2..] + b;
          DecodeGrows(a[2..], b);
        }
      }
    }
  }

  /** However the buffer grows, and wherever it was cut, the text shown before is a prefix of the text shown after. */
  lemma NarrativeGrows(p: Text, q: Text)
    requires Narrative(p).Some?
    ensures Narrative(p + q).Some? && Narrative(p).value <= Narrative(p + q).value
  {
    var e := FindOpening(p, 0).value;
    LeftmostStays(p, q, 0, e);
    assert (p + q)[e..] == p[e..] + q;
    DecodeGrows(p[e..], q);
  }

  // ---------- any JSON string, section 7 of RFC 8259 ----------

  /** One character of a JSON string: written as itself, as a two-unit escape, or as \uXXXX. */
  datatype Piece = Literal(u: Unit) | Short(c: Unit) | Hex(a: Unit, b: Unit, c: Unit, d: Unit)

  predicate WellFormed(piece: Piece)
  {
    match piece
    case Literal(u) => u >= 0x20 && u != QUOTE && u != BACKSLASH
    case Short(c) => c in {34, 92, 47, 98, 102, 110, 114, 116}
    case Hex(a, b, c, d) => IsHex(a) && IsHex(b) && IsHex(c) && IsHex(d)
  }

  function Spell(piece: Piece): Text
  {
    match piece
    case Literal(u) => [u]
    case Short(c) => [BACKSLASH, c]
    case Hex(a, b, c, d) => [BACKSLASH, LETTER_U, a, b, c, d]
  }

  /** The character it stands for. */
  function Meaning(piece: Piece): Unit
    requires WellFormed(piece)
  {
    match piece
    case Literal(u) => u
    case Short(c) => if c == 98 then 8 else if c == 102 then 12 else if c == 110 then 10 else if c == 114 then 13 else if c == 116 then 9 else c
    case Hex(a, b, c, d) => HexValue(a, b, c, d)
  }

  /** Carriage return, backspace and form feed written as \r, \b and \f are not shown. */
  predicate Dropped(piece: Piece)
  {
    piece.Short? && piece.c in {114, 98, 102}
  }

  ghost predicate AllWellFormed(pieces: seq<Piece>)
  {
    forall i :: 0 <= i < |pieces| ==> WellFormed(pieces[i])
  }

  ghost function Spelled(pieces: seq<Piece>): Text
  {
    if pieces == [] then [] else Spell(pieces[0]) + Spelled(pieces[1..])
  }

  ghost function Value(pieces: seq<Piece>): Text
    requires AllWellFormed(pieces)
  {
    if pieces == [] then [] else [Meaning(pieces[0])] + Value(pieces[1..])
  }

  ghost function ShownValue(pieces: seq<Piece>): Text
    requires AllWellFormed(pieces)
  {
    if pieces == [] then []
    else (if Dropped(pieces[0]) then [] else [Meaning(pieces[0])]) + ShownValue(pieces[1..])
  }

  /** A closed JSON string decodes to its value without the dropped escapes, whatever follows the quote. */
  lemma {:induction false} DecodesJsonString(pieces: seq<Piece>, rest: Text)
    requires AllWellFormed(pieces)
    ensures Decode(Spelled(pieces) + [QUOTE] + rest) == ShownValue(pieces)
  {
    var s := Spelled(pieces) + [QUOTE] + rest;
    if pieces == [] {
      assert s[0] == QUOTE;
    } else {
      var piece := pieces[0];
      var tail := Spelled(pieces[1..]) + [QUOTE] + rest;
      DecodesJsonString(pieces[1..], rest);
      assert s == Spell(piece) + tail;
      DecodesPiece(piece, tail);
    }
  }

  lemma DecodesPiece(piece: Piece, tail: Text)
    requires WellFormed(piece)
    ensures Decode(Spell(piece) + tail) == (if Dropped(piece) then [] else [Meaning(piece)]) + Decode(tail)
  {
    var s := Spell(piece) + tail;
    assert s[|Spell(piece)|..] == tail;
    match piece {
      case Literal(u) => assert s[0] == u;
      case Short(c) => assert s[0] == BACKSLASH && s[1] == c;
      case Hex(a, b, c, d) =>
        assert s[0] == BACKSLASH && s[1] == LETTER_U && s[2] == a && s[3] == b && s[4] == c && s[5] == d;
        assert s[2..][0] == a && s[2..][1] == b && s[2..][2] == c && s[2..][3] == d;
    }
  }

  lemma {:induction false} ShownIsShorter(pieces: seq<Piece>)
    requires AllWellFormed(pieces)
    ensures |ShownValue(pieces)| <= |Value(pieces)| == |pieces|
    ensures |ShownValue(pieces)| == |pieces| <==> forall i :: 0 <= i < |pieces| ==> !Dropped(pieces[i])
  {
    if pieces != [] {
      ShownIsShorter(pieces[1..]);
      assert forall i :: 0 < i < |pieces| ==> pieces[i] == pieces[1..][i - 1];
      if forall i :: 0 <= i < |pieces[1..]| ==> !Dropped(pieces[1..][i]) {
        assert !Dropped(pieces[0]) ==> forall i :: 0 <= i < |pieces| ==> !Dropped(pieces[i]);
      } else {
        var i :| 0 <= i < |pieces[1..]| && Dropped(pieces[1..][i]);
        assert Dropped(pieces[i + 1]);
      }
    }
  }

  /** The text shown is the JSON value exactly when the string holds no \r, \b or \f escape. */
  lemma {:induction false} ShownExactly(pieces: seq<Piece>)
    requires AllWellFormed(pieces)
    ensures ShownValue(pieces) == Value(pieces) <==> forall i :: 0 <= i < |pieces| ==> !Dropped(pieces[i])
  {
    ShownIsShorter(pieces);
    if forall i :: 0 <= i < |pieces| ==> !Dropped(pieces[i]) {
      if pieces != [] {
        assert forall i :: 0 <= i < |pieces[1..]| ==> pieces[1..][i] == pieces[i + 1];
        ShownExactly(pieces[1..]);
      }
    }
  }

  // ---------- any text at all ----------

  /** A character of the value as the reader takes it: any escape but an unfinished one, valid JSON or not. */
  predicate Readable(piece: Piece)
  {
    match piece
    case Literal(u) => u != QUOTE && u != BACKSLASH
    case Short(c) => c != LETTER_U
    case Hex(a, b, c, d) => IsHex(a) && IsHex(b) && IsHex(c) && IsHex(d)
  }

  ghost predicate AllReadable(pieces: seq<Piece>)
  {
    forall i :: 0 <= i < |pieces| ==> Readable(pieces[i])
  }

  /** Where the reader stops: at the end, at a closing quote, or at an escape that is not there in full. */
  predicate Stops(s: Text)
  {
    s == [] || s[0] == QUOTE || s == [BACKSLASH] || (|s| >= 2 && s[0] == BACKSLASH && s[1] == LETTER_U && !FourHex(s[2..]))
  }

  /** \n and \t are the line feed and the tab, \r, \b and \f nothing, any other escaped character itself. */
  ghost function Read(piece: Piece): Text
    requires Readable(piece)
  {
    match piece
    case Literal(u) => [u]
    case Short(c) => if c == 110 then [10] else if c == 116 then [9] else if c in {114, 98, 102} then [] else [c]
    case Hex(a, b, c, d) => [HexValue(a, b, c, d)]
  }

  ghost function ReadAll(pieces: seq<Piece>): Text
    requires AllReadable(pieces)
  {
    if pieces == [] then [] else Read(pieces[0]) + ReadAll(pieces[1..])
  }

  /** Whatever stands before the place where the reader stops is shown, closed or not: nothing is held back. */
  lemma {:induction false} EverythingReadIsShown(pieces: seq<Piece>, stop: Text)
    requires AllReadable(pieces) && Stops(stop)
    ensures Decode(Spelled(pieces) + stop) == ReadAll(pieces)
  {
    var s := Spelled(pieces) + stop;
    if pieces == [] {
      assert s == stop;
    } else {
      var tail := Spelled(pieces[1..]) + stop;
      EverythingReadIsShown(pieces[1..], stop);
      assert s == Spell(pieces[0]) + tail;
      ReadsPiece(pieces[0], tail);
    }
  }

  lemma ReadsPiece(piece: Piece, tail: Text)
    requires Readable(piece)
    ensures Decode(Spell(piece) + tail) == Read(piece) + Decode(tail)
  {
    var s := Spell(piece) + tail;
    assert s[|Spell(piece)|..] == tail;
    match piece {
      case Literal(u) => assert s[0] == u;
      case Short(c) => assert s[0] == BACKSLASH && s[1] == c;
      case Hex(a, b, c, d) =>
        assert s[0] == BACKSLASH && s[1] == LETTER_U && s[2] == a && s[3] == b && s[4] == c && s[5] == d;
        assert s[2..][0] == a && s[2..][1] == b && s[2..][2] == c && s[2..][3] == d;
    }
  }

  /** And every text is such pieces and a place to stop, so the result above speaks of every buffer. */
  lemma {:induction false} EveryTextIsRead(s: Text) returns (pieces: seq<Piece>, stop: Text)
    ensures AllReadable(pieces) && Stops(stop) && s == Spelled(pieces) + stop
    decreases |s|
  {
    if Stops(s) {
      pieces, stop := [], s;
    } else {
      var piece := FirstPiece(s);
      hide Spell, Readable, Stops;
      var n := |Spell(piece)|;
      var rest;
      rest, stop := EveryTextIsRead(s[n..]);
      pieces := [piece] + rest;
      assert pieces[1..] == rest;
      assert Spelled(pieces) + stop == Spell(piece) + (Spelled(rest) + stop);
    }
  }

  lemma FirstPiece(s: Text) returns (piece: Piece)
    requires !Stops(s)
    ensures Readable(piece) && 0 < |Spell(piece)| <= |s| && s == Spell(piece) + s[|Spell(piece)|..]
  {
    if s[0] == BACKSLASH && s[1] == LETTER_U {
      assert s[2..][0] == s[2] && s[2..][1] == s[3] && s[2..][2] == s[4] && s[2..][3] == s[5];
    }
    piece := if s[0] != BACKSLASH then Literal(s[0]) else if s[1] == LETTER_U then Hex(s[2], s[3], s[4], s[5]) else Short(s[1]);
  }

  /** The hexadecimal digit of a number below 16, in either case. */
  function HexUnit(d: nat, upper: bool): Unit
    requires d < 16
  {
    if d < 10 then 48 + d else if upper then 55 + d else 87 + d
  }

  /** Four hexadecimal digits, each in either case, are read as the number they write. */
  lemma HexIsRead(a: nat, b: nat, c: nat, d: nat, upperA: bool, upperB: bool, upperC: bool, upperD: bool)
    requires a < 16 && b < 16 && c < 16 && d < 16
    ensures
      var (p, q, r, s) := (HexUnit(a, upperA), HexUnit(b, upperB), HexUnit(c, upperC), HexUnit(d, upperD));
      IsHex(p) && IsHex(q) && IsHex(r) && IsHex(s) && HexValue(p, q, r, s) == ((a * 16 + b) * 16 + c) * 16 + d
  {
    HexDigitIsRead(a, upperA);
    HexDigitIsRead(b, upperB);
    HexDigitIsRead(c, upperC);
    HexDigitIsRead(d, upperD);
    hide HexUnit, HexDigit, IsHex;
  }

  lemma HexDigitIsRead(d: nat, upper: bool)
    requires d < 16
    ensures IsHex(HexUnit(d, upper)) && HexDigit(HexUnit(d, upper)) == d
  {
  }

  /** No other unit is taken for a hexadecimal digit. */
  lemma HexDigits(u: Unit)
    ensures IsHex(u) <==> exists i :: 0 <= i < 22 && "0123456789abcdefABCDEF"[i] as int == u
  {
    var digits := "0123456789abcdefABCDEF";
    if IsHex(u) {
      var i := if u <= 57 then u - 48 else if u <= 70 then u - 65 + 16 else u - 97 + 10;
      assert digits[i] as int == u;
    }
  }

  /** A character escaped as writers do: a short escape where there is one, \u00XX for other controls. */
  function Escape(u: Unit): (piece: Piece)
    ensures WellFormed(piece) && Meaning(piece) == u
    ensures Dropped(piece) <==> u in {13, 8, 12}
  {
    if u == 34 || u == 92 then Short(u)
    else if u == 8 then Short(98) else if u == 12 then Short(102)
    else if u == 10 then Short(110) else if u == 13 then Short(114) else if u == 9 then Short(116)
    else if u < 0x20 then Hex(48, 48, 48 + u / 16, if u % 16 < 10 then 48 + u % 16 else 87 + u % 16)
    else Literal(u)
  }

  ghost function Escaped(text: Text): (pieces: seq<Piece>)
    ensures AllWellFormed(pieces)
  {
    if text == [] then [] else [Escape(text[0])] + Escaped(text[1..])
  }

  function Filtered(text: Text): Text
  {
    if text == [] then [] else (if text[0] in {13, 8, 12} then [] else [text[0]]) + Filtered(text[1..])
  }

  lemma {:induction false} EscapedShown(text: Text)
    ensures ShownValue(Escaped(text)) == Filtered(text)
    ensures Value(Escaped(text)) == text
  {
    if text != [] {
      EscapedShown(text[1..]);
      assert Escaped(text)[1..] == Escaped(text[1..]);
    }
  }

  // ---------- the field inside its document ----------

  ghost predicate Spaces(s: Text)
  {
    forall i :: 0 <= i < |s| ==> IsSpaceCode(s[i])
  }

  ghost function Field(before: Text, s1: Text, s2: Text): Text
  {
    before + KEY + s1 + [COLON] + s2 + [QUOTE]
  }

  lemma FieldOpens(before: Text, s1: Text, s2: Text)
    requires Spaces(s1) && Spaces(s2)
    ensures OpensAt(Field(before, s1, s2), |before|) == Some(|Field(before, s1, s2)|)
  {
    var s := Field(before, s1, s2);
    var c := |before| + |KEY| + |s1|;
    assert s[|before|..|before| + |KEY|] == KEY;
    assert forall k :: 0 <= k < |s1| ==> s[|before| + |KEY| + k] == s1[k];
    assert forall k :: 0 <= k < |s2| ==> s[c + 1 + k] == s2[k];
    forall k | |before| + |KEY| <= k < c ensures IsSpaceCode(s[k]) { assert s[k] == s1[k - |before| - |KEY|]; }
    forall k | c < k < |s| - 1 ensures IsSpaceCode(s[k]) { assert s[k] == s2[k - c - 1]; }
    assert Opening(s, |before|, c, |s|);
    OpensAtIsPattern(s, |before|, |s|);
  }

  /** Nothing before the field can be mistaken for it when it holds no quote, as in `{`. */
  lemma {:induction false} FirstFieldWithoutQuotes(before: Text, s1: Text, s2: Text, i: nat)
    requires Spaces(s1) && Spaces(s2) && QUOTE !in before && i <= |before|
    ensures FindOpening(Field(before, s1, s2), i) == Some(|Field(before, s1, s2)|)
    decreases |before| - i
  {
    var s := Field(before, s1, s2);
    if i == |before| {
      FieldOpens(before, s1, s2);
    } else {
      assert s[i] == before[i];
      if OpensAt(s, i).Some? { QuotesOfOpening(s, i, OpensAt(s, i).value); }
      FirstFieldWithoutQuotes(before, s1, s2, i + 1);
    }
  }

  /** The first narrative field of a document is read back without the dropped escapes, whatever follows it. */
  lemma FirstFieldIsRead(before: Text, s1: Text, s2: Text, pieces: seq<Piece>, rest: Text)
    requires AllWellFormed(pieces)
    requires FindOpening(Field(before, s1, s2), 0) == Some(|Field(before, s1, s2)|)
    ensures Narrative(Field(before, s1, s2) + (Spelled(pieces) + [QUOTE] + rest)) == Some(ShownValue(pieces))
  {
    var open := Field(before, s1, s2);
    var body := Spelled(pieces) + [QUOTE] + rest;
    LeftmostStays(open, body, 0, |open|);
    assert (open + body)[|open|..] == body;
    DecodesJsonString(pieces, rest);
  }

  /** Any text, escaped and placed as the first field, is shown without its carriage returns, backspaces and form feeds. */
  lemma RoundTrip(before: Text, s1: Text, s2: Text, text: Text, rest: Text)
    requires FindOpening(Field(before, s1, s2), 0) == Some(|Field(before, s1, s2)|)
    ensures Narrative(Field(before, s1, s2) + (Spelled(Escaped(text)) + [QUOTE] + rest)) == Some(Filtered(text))
  {
    FirstFieldIsRead(before, s1, s2, Escaped(text), rest);
    EscapedShown(text);
  }

  /** While such a document streams in, every cut shows nothing yet or a prefix of the final text. */
  lemma EveryCutShowsPrefix(before: Text, s1: Text, s2: Text, text: Text, rest: Text, n: nat)
    requires FindOpening(Field(before, s1, s2), 0) == Some(|Field(before, s1, s2)|)
    requires n <= |Field(before, s1, s2) + (Spelled(Escaped(text)) + [QUOTE] + rest)|
    ensures
      var cut := Narrative((Field(before, s1, s2) + (Spelled(Escaped(text)) + [QUOTE] + rest))[..n]);
      cut.None? || cut.value <= Filtered(text)
  {
    var document := Field(before, s1, s2) + (Spelled(Escaped(text)) + [QUOTE] + rest);
    RoundTrip(before, s1, s2, text, rest);
    assert document == document[..n] + document[n..];
    if Narrative(document[..n]).Some? {
      NarrativeGrows(document[..n], document[n..]);
    }
  }
}

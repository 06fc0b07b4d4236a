/** The options a person is shown when confirming a stage, and the order they are shown in. */
module StageOptions {
  import opened Prelude
  import opened Stages

  datatype Track = MainTrack | BranchTrack | ExceptionTrack

  datatype Kind = Adjacent | Skip | Return | Correct | Exceptional

  datatype Note = NextInLine | WithoutSamples | Skipping(codes: seq<Code>) | Correcting | BackFromBypass | NoWayBack | WayBack

  datatype Choice = Choice(code: Code, track: Track, kind: Kind, note: Note)

  function KindOrder(kind: Kind): nat
  {
    match kind case Adjacent => 0 case Skip => 1 case Return => 2 case Correct => 3 case Exceptional => 4
  }

  predicate IsSampleStage(code: Code)
  {
    code.SamplePending? || code.Shipped? || code.Testing?
  }

  function SkipNote(cat: Catalog, from: nat, to: nat): Note
    requires from < to < |cat.main|
  {
    var skipped := cat.main[from + 1..to];
    if skipped == [] then NextInLine
    else if forall code :: code in skipped ==> IsSampleStage(code) then WithoutSamples
    else Skipping(skipped)
  }

  /** The sort's comparator; not positive means that `a` may stay in front of `b`. */
  function Compare(cat: Catalog, a: Choice, b: Choice): int
  {
    var kind := KindOrder(a.kind) - KindOrder(b.kind);
    var track := (if a.track.ExceptionTrack? then 1 else 0) - (if b.track.ExceptionTrack? then 1 else 0);
    if kind != 0 then kind else if track != 0 then track else IndexOf(cat.main, a.code) - IndexOf(cat.main, b.code)
  }

  /** The library's stable sort. */
  function Sorted(cat: Catalog, s: seq<Choice>): seq<Choice>
  {
    if s == [] then [] else Insert(cat, Sorted(cat, s[..|s| - 1]), s[|s| - 1])
  }

  function Insert(cat: Catalog, s: seq<Choice>, x: Choice): seq<Choice>
  {
    if s == [] || Compare(cat, s[|s| - 1], x) <= 0 then s + [x]
    else Insert(cat, s[..|s| - 1], x) + [s[|s| - 1]]
  }

  lemma {:induction false} InsertBetween(cat: Catalog, a: seq<Choice>, b: seq<Choice>, x: Choice)
    requires forall y :: y in a ==> Compare(cat, y, x) <= 0
    requires forall y :: y in b ==> Compare(cat, y, x) > 0
    ensures Insert(cat, a + b, x) == a + [x] + b
  {
    if b == [] {
      assert a + b == a;
    } else {
      var n := |b| - 1;
      assert (a + b)[..|a + b| - 1] == a + b[..n];
      assert b == b[..n] + [b[n]];
      InsertBetween(cat, a, b[..n], x);
    }
  }

  // ---------- the options by kind ----------

  function AdjacentTo(code: Code): Choice
  {
    Choice(code, MainTrack, Adjacent, NextInLine)
  }

  function SkipTo(cat: Catalog, from: nat, to: nat): Choice
    requires from < to < |cat.main|
  {
    Choice(cat.main[to], BranchTrack, Skip, SkipNote(cat, from, to))
  }

  function CorrectTo(code: Code): Choice
  {
    Choice(code, MainTrack, Correct, Correcting)
  }

  function ExceptionTo(code: Code): Choice
  {
    Choice(code, ExceptionTrack, Exceptional, if IsTerminal(code) then NoWayBack else WayBack)
  }

  function ReturnTo(code: Code): Choice
  {
    Choice(code, MainTrack, Return, BackFromBypass)
  }

  /** Corrections to each of the first `n` main stages. */
  function Corrections(cat: Catalog, n: nat): seq<Choice>
    requires n <= |cat.main|
  {
    seq(n, k requires 0 <= k < n => CorrectTo(cat.main[k]))
  }

  /** Skips from `from` to each main stage between the one after next and `end`. */
  function Skips(cat: Catalog, from: nat, end: nat): seq<Choice>
    requires from + 2 <= end <= |cat.main|
  {
    seq(end - from - 2, k requires 0 <= k < end - from - 2 => SkipTo(cat, from, from + 2 + k))
  }

  function Returns(cat: Catalog): seq<Choice>
  {
    seq(|cat.main|, k requires 0 <= k < |cat.main| => ReturnTo(cat.main[k]))
  }

  const EXCEPTION_CODES := [Paused, Disputed, Lost, Rejected, Cancelled]

  function Exceptions(n: nat): seq<Choice>
    requires n <= |EXCEPTION_CODES|
  {
    seq(n, k requires 0 <= k < n => ExceptionTo(EXCEPTION_CODES[k]))
  }

  /** The options of main stage `from` among the first `end` main stages, as they are shown. */
  function LineShown(cat: Catalog, from: nat, end: nat): seq<Choice>
    requires from < |cat.main| && end <= |cat.main|
  {
    if end <= from + 1 then Corrections(cat, if end <= from then end else from)
    else [AdjacentTo(cat.main[from + 1])] + Skips(cat, from, end) + Corrections(cat, from)
  }

  /** What a person is shown: the step ahead, the skips in line order, the corrections in line order, the exceptions. */
  function ConfirmChoices(cat: Catalog, current: Code): seq<Choice>
  {
    var here := Normalize(cat, current);
    var from := IndexOf(cat.main, here);
    if !Known(cat, here) || IsTerminal(here) then []
    else if IsBypass(here) then Returns(cat)
    else BeforeExceptions(cat, from) + Exceptions(5)
  }

  function BeforeExceptions(cat: Catalog, from: int): seq<Choice>
    requires from < |cat.main|
  {
    if from < 0 then []
    else if from + 1 < |cat.main| then LineShown(cat, from, |cat.main|)
    else [AdjacentTo(Completed)] + LineShown(cat, from, |cat.main|)
  }

  // ---------- how the loop and the sort come to that ----------

  lemma CompareOnLine(cat: Catalog, j: nat, k: nat)
    requires WellFormed(cat) && j < |cat.main| && k < |cat.main|
    ensures IndexOf(cat.main, cat.main[j]) - IndexOf(cat.main, cat.main[k]) == j - k
  {
    assert IndexOf(cat.main, cat.main[j]) == j;
    assert IndexOf(cat.main, cat.main[k]) == k;
  }

  lemma CorrectionComesLast(cat: Catalog, from: nat, end: nat)
    requires WellFormed(cat) && end < from < |cat.main|
    ensures Insert(cat, LineShown(cat, from, end), CorrectTo(cat.main[end])) == LineShown(cat, from, end + 1)
  {
    hide IndexOf, WellFormed;
    var x := CorrectTo(cat.main[end]);
    var a := Corrections(cat, end);
    forall y | y in a ensures Compare(cat, y, x) <= 0 {
      var k :| 0 <= k < |a| && a[k] == y;
      CompareOnLine(cat, k, end);
    }
    InsertBetween(cat, a, [], x);
    assert a + [] == a;
    assert a + [x] + [] == Corrections(cat, end + 1);
  }

  /** Something of an earlier kind goes in front of the corrections. */
  lemma InFrontOfCorrections(cat: Catalog, n: nat, x: Choice)
    requires n <= |cat.main| && x.kind.Adjacent?
    ensures Insert(cat, Corrections(cat, n), x) == [x] + Corrections(cat, n)
  {
    hide IndexOf;
    var b := Corrections(cat, n);
    forall y | y in b ensures Compare(cat, y, x) > 0 {
      var k :| 0 <= k < |b| && b[k] == y;
    }
    InsertBetween(cat, [], b, x);
    assert [] + b == b && [] + [x] == [x];
  }

  lemma AdjacentComesFirst(cat: Catalog, from: nat)
    requires from + 1 < |cat.main|
    ensures Insert(cat, LineShown(cat, from, from + 1), AdjacentTo(cat.main[from + 1])) == LineShown(cat, from, from + 2)
  {
    InFrontOfCorrections(cat, from, AdjacentTo(cat.main[from + 1]));
    hide Insert, Corrections, SkipTo;
    assert Skips(cat, from, from + 2) == [];
    assert [AdjacentTo(cat.main[from + 1])] + [] == [AdjacentTo(cat.main[from + 1])];
  }

  lemma SkipGoesBehindSkips(cat: Catalog, from: nat, end: nat)
    requires WellFormed(cat) && from + 2 <= end < |cat.main|
    ensures Insert(cat, LineShown(cat, from, end), SkipTo(cat, from, end)) == LineShown(cat, from, end + 1)
  {
    hide IndexOf, SkipNote, WellFormed;
    var x := SkipTo(cat, from, end);
    var skips, b := Skips(cat, from, end), Corrections(cat, from);
    var a := [AdjacentTo(cat.main[from + 1])] + skips;
    forall y | y in a ensures Compare(cat, y, x) <= 0 {
      var m :| 0 <= m < |a| && a[m] == y;
      if m > 0 {
        assert skips[m - 1] == y == SkipTo(cat, from, from + 1 + m);
        CompareOnLine(cat, from + 1 + m, end);
      }
    }
    forall y | y in b ensures Compare(cat, y, x) > 0 {
      var k :| 0 <= k < |b| && b[k] == y;
    }
    InsertBetween(cat, a, b, x);
    hide Insert, Compare, Corrections, SkipTo;
    SkipsGrow(cat, from, end);
    assert a + [x] == [AdjacentTo(cat.main[from + 1])] + Skips(cat, from, end + 1);
  }

  lemma SkipsGrow(cat: Catalog, from: nat, end: nat)
    requires from + 2 <= end < |cat.main|
    ensures Skips(cat, from, end + 1) == Skips(cat, from, end) + [SkipTo(cat, from, end)]
  {
    hide SkipTo;
  }

  lemma ExceptionComesLast(cat: Catalog, a: seq<Choice>, n: nat)
    requires WellFormed(cat) && n < 5 && Plain(a)
    ensures Insert(cat, a + Exceptions(n), ExceptionTo(EXCEPTION_CODES[n])) == a + Exceptions(n + 1)
  {
    var x := ExceptionTo(EXCEPTION_CODES[n]);
    forall y | y in a + Exceptions(n) ensures Compare(cat, y, x) <= 0 {
      if y in Exceptions(n) { ExceptionsAreEqual(cat, y.code, EXCEPTION_CODES[n]); }
    }
    InsertBetween(cat, a + Exceptions(n), [], x);
    assert a + Exceptions(n) + [] == a + Exceptions(n);
    assert a + Exceptions(n) + [x] + [] == a + Exceptions(n + 1);
  }

  lemma ExceptionsAreEqual(cat: Catalog, a: Code, b: Code)
    requires WellFormed(cat) && IsSide(a) && IsSide(b)
    ensures IndexOf(cat.main, a) == IndexOf(cat.main, b)
  {
  }

  lemma SortedAppend(cat: Catalog, s: seq<Choice>, x: Choice)
    ensures Sorted(cat, s + [x]) == Insert(cat, Sorted(cat, s), x)
  {
    assert (s + [x])[..|s + [x]| - 1] == s;
  }

  method StageConfirmOptions(cat: Catalog, current: Code) returns (out: seq<Choice>)
    requires WellFormed(cat)
    ensures out == ConfirmChoices(cat, current)
  {
    hide IndexOf;
    var here := Normalize(cat, current);
    if !Known(cat, here) || IsTerminal(here) { return []; }
    if IsBypass(here) { return Returns(cat); }
    var from := IndexOf(cat.main, here);
    out := [];
    if from >= 0 {
      out := LineOptions(cat, from);
      NextOnLine(cat, from);
      var next := Next(cat, here);
      if next.Some? && next.value !in cat.main && (forall k :: 0 <= k < |out| ==> out[k].code != next.value) {
        InFrontOfCorrections(cat, from, AdjacentTo(next.value));
        SortedAppend(cat, out, AdjacentTo(next.value));
        out := out + [AdjacentTo(next.value)];
      }
    }
    PlainBeforeExceptions(cat, from);
    out := AddExceptions(cat, out, BeforeExceptions(cat, from));
    out := Sorted(cat, out);
  }

  ghost predicate Plain(s: seq<Choice>)
  {
    forall y :: y in s ==> !y.kind.Exceptional? && !y.track.ExceptionTrack?
  }

  lemma PlainBeforeExceptions(cat: Catalog, from: int)
    requires from < |cat.main|
    ensures Plain(BeforeExceptions(cat, from))
  {
    hide SkipNote, IndexOf;
    if from >= 0 {
      var b := Corrections(cat, from);
      assert Plain(b) by {
        forall y | y in b ensures !y.kind.Exceptional? && !y.track.ExceptionTrack? {
          var k :| 0 <= k < |b| && b[k] == y;
        }
      }
      if from + 1 < |cat.main| {
        var skips := Skips(cat, from, |cat.main|);
        assert Plain(skips) by {
          forall y | y in skips ensures !y.kind.Exceptional? && !y.track.ExceptionTrack? {
            var k :| 0 <= k < |skips| && skips[k] == y;
            assert y == SkipTo(cat, from, from + 2 + k);
          }
        }
        assert Plain([AdjacentTo(cat.main[from + 1])] + skips);
      }
    }
  }

  /** The loop over the exception codes; `shown` is how the options so far are shown. */
  method AddExceptions(cat: Catalog, options: seq<Choice>, ghost shown: seq<Choice>) returns (out: seq<Choice>)
    requires WellFormed(cat) && Sorted(cat, options) == shown
    requires Plain(shown)
    ensures Sorted(cat, out) == shown + Exceptions(5)
  {
    hide IndexOf, Sorted, Insert, Compare;
    out := options;
    for i := 0 to |EXCEPTION_CODES|
      invariant Sorted(cat, out) == shown + Exceptions(i)
    {
      ExceptionComesLast(cat, shown, i);
      SortedAppend(cat, out, ExceptionTo(EXCEPTION_CODES[i]));
      out := out + [ExceptionTo(EXCEPTION_CODES[i])];
    }
  }

  /** The loop over the main line, in its own order. */
  method LineOptions(cat: Catalog, from: nat) returns (out: seq<Choice>)
    requires WellFormed(cat) && from < |cat.main|
    ensures Sorted(cat, out) == LineShown(cat, from, |cat.main|)
    ensures forall k :: 0 <= k < |out| ==> out[k].code in cat.main
  {
    out := [];
    assert Sorted(cat, []) == [];
    hide IndexOf, Sorted, Insert, Compare;
    for i := 0 to |cat.main|
      invariant Sorted(cat, out) == LineShown(cat, from, i)
      invariant forall k :: 0 <= k < |out| ==> out[k].code in cat.main
    {
      if i == from { continue; }
      if i == from + 1 {
        AdjacentComesFirst(cat, from);
        SortedAppend(cat, out, AdjacentTo(cat.main[i]));
        out := out + [AdjacentTo(cat.main[i])];
        continue;
      }
      if i > from + 1 {
        SkipGoesBehindSkips(cat, from, i);
        SortedAppend(cat, out, SkipTo(cat, from, i));
        out := out + [SkipTo(cat, from, i)];
        continue;
      }
      CorrectionComesLast(cat, from, i);
      SortedAppend(cat, out, CorrectTo(cat.main[i]));
      out := out + [CorrectTo(cat.main[i])];
    }
  }

  // ---------- which stages are offered, by their place ----------

  ghost predicate Has(s: seq<Choice>, code: Code, kind: Kind)
  {
    exists y :: y in s && y.code == code && y.kind == kind
  }

  lemma HasEither(a: seq<Choice>, b: seq<Choice>, code: Code, kind: Kind)
    ensures Has(a + b, code, kind) <==> Has(a, code, kind) || Has(b, code, kind)
  {
    assert forall y :: y in a + b <==> y in a || y in b;
  }

  ghost predicate Offers(cat: Catalog, current: Code, code: Code, kind: Kind)
  {
    Has(ConfirmChoices(cat, current), code, kind)
  }

  /** The kind of confirmation a stage needs, read off the places of the two stages; none where it is not offered. */
  function OfferedKind(cat: Catalog, current: Code, code: Code): Option<Kind>
  {
    var here := Normalize(cat, current);
    if here in cat.main then
      if code in EXCEPTION_CODES then Some(Exceptional)
      else if code.Completed? then
        if Position(cat, here) + 1 == |cat.main| then Some(Adjacent) else None
      else if code !in cat.main then None
      else if Position(cat, code) == Position(cat, here) + 1 then Some(Adjacent)
      else if Position(cat, code) > Position(cat, here) then Some(Skip)
      else if Position(cat, code) < Position(cat, here) then Some(Correct)
      else None
    else if IsBypass(here) && code in cat.main then Some(Return)
    else None
  }

  /** The list shown offers exactly the stages the places allow, with their kinds. */
  lemma OffersByPlace(cat: Catalog, current: Code, code: Code, kind: Kind)
    requires WellFormed(cat)
    ensures Offers(cat, current, code, kind) <==> OfferedKind(cat, current, code) == Some(kind)
  {
    var here := Normalize(cat, current);
    if here in cat.main {
      var from := MainStage(cat, current);
      hide WellFormed, Offers, OfferedKind;
      MainOffers(cat, current, from, code, kind);
      MainExpects(cat, current, from, code, kind);
    } else {
      BypassOffers(cat, current, code, kind);
    }
  }

  lemma BypassOffers(cat: Catalog, current: Code, code: Code, kind: Kind)
    requires WellFormed(cat) && Normalize(cat, current) !in cat.main
    ensures Offers(cat, current, code, kind) <==> OfferedKind(cat, current, code) == Some(kind)
  {
    hide Normalize, IndexOf, BeforeExceptions, Exceptions, Returns, Has;
    ReturnsHave(cat, code, kind);
    HasNone(code, kind);
  }

  lemma HasNone(code: Code, kind: Kind)
    ensures !Has([], code, kind)
  {
  }

  lemma ReturnsHave(cat: Catalog, code: Code, kind: Kind)
    ensures Has(Returns(cat), code, kind) <==> kind.Return? && code in cat.main
  {
    if kind.Return? && code in cat.main {
      var k :| 0 <= k < |cat.main| && cat.main[k] == code;
      assert Returns(cat)[k] == ReturnTo(code);
    }
  }

  /** Where a code is among the options of main stage `from`. */
  ghost predicate OffersOnLine(cat: Catalog, from: nat, code: Code, kind: Kind)
    requires from < |cat.main|
  {
    match kind
    case Adjacent => if from + 1 < |cat.main| then cat.main[from + 1] == code else code.Completed?
    case Skip => code in cat.main && from + 2 <= Position(cat, code)
    case Correct => code in cat.main && Position(cat, code) < from
    case Exceptional => code in EXCEPTION_CODES
    case Return => false
  }

  lemma PlaceOf(cat: Catalog, code: Code)
    requires WellFormed(cat)
    ensures forall j :: 0 <= j < |cat.main| ==> (cat.main[j] == code <==> code in cat.main && Position(cat, code) == j)
    ensures code in cat.main ==> !IsSide(code) && Position(cat, code) < |cat.main|
  {
  }

  lemma MainExpects(cat: Catalog, current: Code, from: nat, code: Code, kind: Kind)
    requires WellFormed(cat) && from < |cat.main| && cat.main[from] == Normalize(cat, current)
    ensures OffersOnLine(cat, from, code, kind) <==> OfferedKind(cat, current, code) == Some(kind)
  {
    PlaceOf(cat, code);
    PlaceOf(cat, cat.main[from]);
    hide WellFormed, IndexOf, Normalize, Position;
  }

  lemma MainOffers(cat: Catalog, current: Code, from: nat, code: Code, kind: Kind)
    requires WellFormed(cat) && from < |cat.main| && cat.main[from] == Normalize(cat, current)
    ensures Offers(cat, current, code, kind) <==> OffersOnLine(cat, from, code, kind)
  {
    hide BeforeExceptions, Exceptions, IndexOf, Has, Position;
    assert cat.main[from] in cat.main && IndexOf(cat.main, cat.main[from]) == from;
    HasEither(BeforeExceptions(cat, from), Exceptions(5), code, kind);
    LineHas(cat, from, code, kind);
    ExceptionsHave(code, kind);
  }

  lemma ExceptionsHave(code: Code, kind: Kind)
    ensures Has(Exceptions(5), code, kind) <==> kind.Exceptional? && code in EXCEPTION_CODES
  {
    if kind.Exceptional? && code in EXCEPTION_CODES {
      var k :| 0 <= k < 5 && EXCEPTION_CODES[k] == code;
      assert Exceptions(5)[k] == ExceptionTo(code);
    }
  }

  lemma CorrectionsHave(cat: Catalog, n: nat, code: Code, kind: Kind)
    requires n <= |cat.main|
    ensures Has(Corrections(cat, n), code, kind) <==> kind.Correct? && exists j :: 0 <= j < n && cat.main[j] == code
  {
    if kind.Correct? && exists j :: 0 <= j < n && cat.main[j] == code {
      var j :| 0 <= j < n && cat.main[j] == code;
      assert Corrections(cat, n)[j] == CorrectTo(code);
    }
  }

  lemma SkipsHave(cat: Catalog, from: nat, code: Code, kind: Kind)
    requires from + 2 <= |cat.main|
    ensures Has(Skips(cat, from, |cat.main|), code, kind) <==> kind.Skip? && exists j :: from + 2 <= j < |cat.main| && cat.main[j] == code
  {
    hide SkipNote;
    var skips := Skips(cat, from, |cat.main|);
    if kind.Skip? && exists j :: from + 2 <= j < |cat.main| && cat.main[j] == code {
      var j :| from + 2 <= j < |cat.main| && cat.main[j] == code;
      assert skips[j - from - 2] == SkipTo(cat, from, j);
    }
    if y :| y in skips && y.code == code && y.kind == kind {
      var k :| 0 <= k < |skips| && skips[k] == y;
      assert y == SkipTo(cat, from, from + 2 + k);
    }
  }

  lemma LineHas(cat: Catalog, from: nat, code: Code, kind: Kind)
    requires WellFormed(cat) && from < |cat.main|
    ensures Has(BeforeExceptions(cat, from), code, kind) <==> !kind.Exceptional? && OffersOnLine(cat, from, code, kind)
  {
    if from + 1 < |cat.main| {
      InnerLineHas(cat, from, code, kind);
    } else {
      PlaceOf(cat, code);
      hide WellFormed, Position, Corrections, Has;
      CorrectionsHave(cat, from, code, kind);
      HasEither([AdjacentTo(Completed)], Corrections(cat, from), code, kind);
      HasOne(AdjacentTo(Completed), code, kind);
    }
  }

  lemma InnerLineHas(cat: Catalog, from: nat, code: Code, kind: Kind)
    requires WellFormed(cat) && from + 1 < |cat.main|
    ensures Has(BeforeExceptions(cat, from), code, kind) <==> !kind.Exceptional? && OffersOnLine(cat, from, code, kind)
  {
    PlaceOf(cat, code);
    hide WellFormed, Position, Corrections, Skips, Has;
    var ahead := [AdjacentTo(cat.main[from + 1])];
    CorrectionsHave(cat, from, code, kind);
    SkipsHave(cat, from, code, kind);
    HasEither(ahead + Skips(cat, from, |cat.main|), Corrections(cat, from), code, kind);
    HasEither(ahead, Skips(cat, from, |cat.main|), code, kind);
    HasOne(AdjacentTo(cat.main[from + 1]), code, kind);
  }

  lemma HasOne(y: Choice, code: Code, kind: Kind)
    ensures Has([y], code, kind) <==> y.code == code && y.kind == kind
  {
    assert [y][0] == y;
  }

  // ---------- the list as it is shown ----------

  function Codes(s: seq<Choice>): (codes: seq<Code>)
    ensures |codes| == |s| && forall i :: 0 <= i < |s| ==> codes[i] == s[i].code
  {
    seq(|s|, i requires 0 <= i < |s| => s[i].code)
  }

  lemma CodesOfParts(a: seq<Choice>, b: seq<Choice>)
    ensures Codes(a + b) == Codes(a) + Codes(b)
  {
  }

  /** From a main stage: the step ahead, the later stages, the earlier ones, the side stages. */
  lemma ShownInOrder(cat: Catalog, current: Code, from: nat)
    requires WellFormed(cat) && from < |cat.main| && cat.main[from] == Normalize(cat, current)
    ensures Codes(ConfirmChoices(cat, current)) ==
      (if from + 1 < |cat.main| then [cat.main[from + 1]] + cat.main[from + 2..] else [Completed])
      + cat.main[..from] + [Paused, Disputed, Lost, Rejected, Cancelled]
  {
    assert cat.main[from] in cat.main && IndexOf(cat.main, cat.main[from]) == from;
    LineCodes(cat, from);
    CodesOfParts(BeforeExceptions(cat, from), Exceptions(5));
    assert Codes(Exceptions(5)) == [Paused, Disputed, Lost, Rejected, Cancelled];
    hide IndexOf, WellFormed, BeforeExceptions, Exceptions, Codes, Normalize;
  }

  lemma LineCodes(cat: Catalog, from: nat)
    requires from < |cat.main|
    ensures Codes(BeforeExceptions(cat, from)) ==
      (if from + 1 < |cat.main| then [cat.main[from + 1]] + cat.main[from + 2..] else [Completed]) + cat.main[..from]
  {
    hide SkipNote;
    assert Codes(Corrections(cat, from)) == cat.main[..from];
    if from + 1 < |cat.main| {
      var skips := Skips(cat, from, |cat.main|);
      CodesOfParts([AdjacentTo(cat.main[from + 1])] + skips, Corrections(cat, from));
      CodesOfParts([AdjacentTo(cat.main[from + 1])], skips);
      assert Codes([AdjacentTo(cat.main[from + 1])]) == [cat.main[from + 1]];
      SkipCodes(cat, from);
    } else {
      CodesOfParts([AdjacentTo(Completed)], Corrections(cat, from));
      assert Codes([AdjacentTo(Completed)]) == [Completed];
    }
  }

  lemma SkipCodes(cat: Catalog, from: nat)
    requires from + 1 < |cat.main|
    ensures Codes(Skips(cat, from, |cat.main|)) == cat.main[from + 2..]
  {
    var codes := Codes(Skips(cat, from, |cat.main|));
    forall k | 0 <= k < |codes| ensures codes[k] == cat.main[from + 2..][k] {
      hide SkipNote;
      assert Skips(cat, from, |cat.main|)[k] == SkipTo(cat, from, from + 2 + k);
    }
  }

  /** From a side stage that can be left: the whole line, in order. From any other code off the line: nothing. */
  lemma ShownOffTheLine(cat: Catalog, current: Code)
    requires Normalize(cat, current) !in cat.main
    ensures Codes(ConfirmChoices(cat, current)) ==
              if Normalize(cat, current) == Paused || Normalize(cat, current) == Disputed then cat.main else []
  {
    hide Normalize;
    assert Codes(Returns(cat)) == cat.main;
  }

  /** What stands beside a skip from `from` to `to`: that only samples are passed over, or which stages are. */
  ghost predicate SkipIsNoted(cat: Catalog, from: nat, to: nat, note: Note)
    requires from < to < |cat.main|
  {
    if forall k :: from < k < to ==> cat.main[k] == SamplePending || cat.main[k] == Shipped || cat.main[k] == Testing
    then note == WithoutSamples
    else note.Skipping? && |note.codes| == to - from - 1 && forall k :: from < k < to ==> note.codes[k - from - 1] == cat.main[k]
  }

  /** The track and the note of an option follow from its kind, and a skip's note from the stages in between. */
  lemma OptionsAreDressed(cat: Catalog, current: Code, y: Choice)
    requires WellFormed(cat) && y in ConfirmChoices(cat, current)
    ensures y.track == (if y.kind.Skip? then BranchTrack else if y.kind.Exceptional? then ExceptionTrack else MainTrack)
    ensures y.kind.Adjacent? ==> y.note == NextInLine
    ensures y.kind.Correct? ==> y.note == Correcting
    ensures y.kind.Return? ==> y.note == BackFromBypass
    ensures y.kind.Exceptional? ==> y.note == if y.code == Paused || y.code == Disputed then WayBack else NoWayBack
    ensures y.kind.Skip? ==>
              && Position(cat, Normalize(cat, current)) < Position(cat, y.code) < |cat.main|
              && SkipIsNoted(cat, Position(cat, Normalize(cat, current)), Position(cat, y.code), y.note)
  {
    hide SkipNote, SkipIsNoted;
    var here := Normalize(cat, current);
    if here in cat.main {
      var from := MainStage(cat, current);
      assert y in BeforeExceptions(cat, from) || y in Exceptions(5);
      if y in Exceptions(5) {
        var k :| 0 <= k < 5 && Exceptions(5)[k] == y;
      } else {
        LineIsDressed(cat, from, y);
      }
    }
  }

  lemma LineIsDressed(cat: Catalog, from: nat, y: Choice)
    requires WellFormed(cat) && from < |cat.main| && y in BeforeExceptions(cat, from)
    ensures y.kind.Adjacent? || y.kind.Correct? || y.kind.Skip?
    ensures y.track == if y.kind.Skip? then BranchTrack else MainTrack
    ensures y.kind.Adjacent? ==> y.note == NextInLine
    ensures y.kind.Correct? ==> y.note == Correcting
    ensures y.kind.Skip? ==> from < Position(cat, y.code) < |cat.main| && SkipIsNoted(cat, from, Position(cat, y.code), y.note)
  {
    hide SkipNote, SkipIsNoted, IndexOf, WellFormed;
    if y in Corrections(cat, from) {
      var k :| 0 <= k < from && Corrections(cat, from)[k] == y;
    } else if from + 1 < |cat.main| && y in Skips(cat, from, |cat.main|) {
      var k :| 0 <= k < |Skips(cat, from, |cat.main|)| && Skips(cat, from, |cat.main|)[k] == y;
      assert y == SkipTo(cat, from, from + 2 + k);
      PlaceOf(cat, y.code);
      SkipNoteSays(cat, from, from + 2 + k);
    }
  }

  lemma SkipNoteSays(cat: Catalog, from: nat, to: nat)
    requires from + 1 < to < |cat.main|
    ensures SkipIsNoted(cat, from, to, SkipNote(cat, from, to))
  {
    var skipped := cat.main[from + 1..to];
    assert forall k :: from < k < to ==> skipped[k - from - 1] == cat.main[k] && skipped[k - from - 1] in skipped;
    assert forall code :: code in skipped ==> exists k :: from < k < to && cat.main[k] == code;
  }
}

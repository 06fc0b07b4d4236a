/** Newline framing of a chunked input stream, and the promise chain that handles its lines. */
module Stdio {
  import opened Prelude

  /** The position of the first newline, or |s|. */
  function IndexOfNewline(s: string): (i: nat)
    ensures i <= |s|
    ensures i < |s| ==> s[i] == '\n'
    ensures '\n' !in s[..i]
  {
    if s == "" then 0
    else if s[0] == '\n' then 0
    else
      var i := 1 + IndexOfNewline(s[1..]);
      assert s[..i] == [s[0]] + s[1..][..i - 1];
      i
  }

  /** The lines that a newline ends, without it. */
  function RawLines(s: string): seq<string>
  {
    var i := IndexOfNewline(s);
    if i == |s| then [] else [s[..i]] + RawLines(s[i + 1..])
  }

  /** What follows the last newline. */
  function Tail(s: string): string
  {
    var i := IndexOfNewline(s);
    if i == |s| then s else Tail(s[i + 1..])
  }

  /** What is handled: each line trimmed, the blank ones left out. */
  function Handled(lines: seq<string>): seq<string>
  {
    if lines == [] then []
    else (if Trim(lines[0]) == "" then [] else [Trim(lines[0])]) + Handled(lines[1..])
  }

  ghost function Rejoined(lines: seq<string>): string
  {
    if lines == [] then "" else lines[0] + "\n" + Rejoined(lines[1..])
  }

  ghost predicate NewlineFree(lines: seq<string>)
  {
    forall i :: 0 <= i < |lines| ==> '\n' !in lines[i]
  }

  /** The lines and the tail are the stream itself, cut at its newlines and nowhere else. */
  lemma {:induction false} CutAtNewlines(s: string)
    ensures Rejoined(RawLines(s)) + Tail(s) == s
    ensures NewlineFree(RawLines(s)) && '\n' !in Tail(s)
    decreases |s|
  {
    var i := IndexOfNewline(s);
    if i < |s| {
      CutAtNewlines(s[i + 1..]);
      CutJoins(s, i, RawLines(s[i + 1..]), Tail(s[i + 1..]));
    } else {
      assert s[..i] == s;
    }
  }

  lemma CutJoins(s: string, i: nat, lines: seq<string>, tail: string)
    requires i < |s| && s[i] == '\n' && '\n' !in s[..i]
    requires Rejoined(lines) + tail == s[i + 1..] && NewlineFree(lines)
    ensures Rejoined([s[..i]] + lines) + tail == s && NewlineFree([s[..i]] + lines)
  {
    assert ([s[..i]] + lines)[1..] == lines;
    calc {
      Rejoined([s[..i]] + lines) + tail;
      s[..i] + "\n" + Rejoined(lines) + tail;
      s[..i] + "\n" + (Rejoined(lines) + tail);
      s;
    }
  }

  lemma FirstNewline(s: string, i: nat)
    requires i < |s| && s[i] == '\n' && '\n' !in s[..i]
    ensures IndexOfNewline(s) == i
  {
    var j := IndexOfNewline(s);
    assert forall k :: 0 <= k < i ==> s[..i][k] == s[k];
    assert forall k :: 0 <= k < j ==> s[..j][k] == s[k];
  }

  /** There is only one such cut. */
  lemma {:induction false} CutIsUnique(lines: seq<string>, tail: string)
    requires NewlineFree(lines) && '\n' !in tail
    ensures RawLines(Rejoined(lines) + tail) == lines && Tail(Rejoined(lines) + tail) == tail
  {
    if lines == [] {
      assert Rejoined(lines) + tail == tail;
    } else {
      CutIsUnique(lines[1..], tail);
      var rest := Rejoined(lines[1..]) + tail;
      assert Rejoined(lines) + tail == lines[0] + "\n" + rest;
      FirstLine(lines[0], rest);
    }
  }

  lemma FirstLine(line: string, rest: string)
    requires '\n' !in line
    ensures RawLines(line + "\n" + rest) == [line] + RawLines(rest)
    ensures Tail(line + "\n" + rest) == Tail(rest)
  {
    var s := line + "\n" + rest;
    assert s[..|line|] == line && s[|line| + 1..] == rest;
    FirstNewline(s, |line|);
  }

  /** Framing the stream so far and then the rest gives the lines of the whole. */
  lemma {:induction false} FramesInPieces(a: string, b: string)
    ensures RawLines(a + b) == RawLines(a) + RawLines(Tail(a) + b)
    ensures Tail(a + b) == Tail(Tail(a) + b)
    decreases |a|
  {
    var i := IndexOfNewline(a);
    if i < |a| {
      assert (a + b)[..i] == a[..i];
      FirstNewline(a + b, i);
      assert (a + b)[i + 1..] == a[i + 1..] + b;
      FramesInPieces(a[i + 1..], b);
    }
  }

  lemma {:induction false} HandledAppends(a: seq<string>, b: seq<string>)
    ensures Handled(a + b) == Handled(a) + Handled(b)
  {
    if a == [] {
      assert a + b == b;
    } else {
      assert (a + b)[1..] == a[1..] + b;
      HandledAppends(a[1..], b);
    }
  }

  /** A line is handled unless it is all white space, and then trimmed; several lines one after the other. */
  lemma HandledMeans(line: string, lines: seq<string>)
    ensures Handled([line]) == if AllSpace(line) then [] else [Trim(line)]
    ensures Handled([line] + lines) == Handled([line]) + Handled(lines)
  {
    TrimIsEmpty(line);
    HandledAppends([line], lines);
    hide Trim, AllSpace;
    assert [line][1..] == [];
  }

  lemma NoCut(s: string)
    requires IndexOfNewline(s) == |s|
    ensures RawLines(s) == [] && Tail(s) == s
  {
  }

  lemma CutFirst(s: string, i: nat)
    requires i < |s| && IndexOfNewline(s) == i
    ensures RawLines(s) == [s[..i]] + RawLines(s[i + 1..])
    ensures Tail(s) == Tail(s[i + 1..])
  {
  }

  lemma NothingHandled(chained: seq<string>)
    ensures chained + Handled([]) == chained
  {
  }

  lemma HandlesFirst(chained: seq<string>, line: string, rest: seq<string>)
    ensures chained + Handled([line] + rest)
         == (if Trim(line) == "" then chained else chained + [Trim(line)]) + Handled(rest)
  {
    assert ([line] + rest)[1..] == rest;
  }

  function Concat(chunks: seq<string>): string
  {
    if chunks == [] then "" else Concat(chunks[..|chunks| - 1]) + chunks[|chunks| - 1]
  }

  /** The server's input side: the unfinished line, and the lines chained for handling so far. */
  class Framer {
    var buf: string
    var pending: seq<string>

    constructor ()
      ensures buf == "" && pending == []
    {
      buf := "";
      pending := [];
    }

    method OnData(chunk: string)
      modifies this
      ensures buf == Tail(old(buf) + chunk)
      ensures pending == old(pending) + Handled(RawLines(old(buf) + chunk))
    {
      hide Trim, Handled, RawLines, Tail, IndexOfNewline;
      buf := buf + chunk;
      ghost var whole := buf;
      var idx := IndexOfNewline(buf);
      while idx < |buf|
        invariant idx == IndexOfNewline(buf)
        invariant Tail(buf) == Tail(whole)
        invariant pending + Handled(RawLines(buf)) == old(pending) + Handled(RawLines(whole))
        decreases |buf|
      {
        var line := Trim(buf[..idx]);
        CutFirst(buf, idx);
        HandlesFirst(pending, buf[..idx], RawLines(buf[idx + 1..]));
        buf := buf[idx + 1..];
        if line != "" {
          pending := pending + [line];
        }
        idx := IndexOfNewline(buf);
      }
      NoCut(buf);
      NothingHandled(pending);
    }
  }

  /** However a stream is cut into chunks, its lines are handled in order and its tail stays in the buffer. */
  method Feed(chunks: seq<string>) returns (framer: Framer)
    ensures fresh(framer)
    ensures framer.buf == Tail(Concat(chunks))
    ensures framer.pending == Handled(RawLines(Concat(chunks)))
  {
    framer := new Framer();
    for i := 0 to |chunks|
      invariant fresh(framer)
      invariant framer.buf == Tail(Concat(chunks[..i]))
      invariant framer.pending == Handled(RawLines(Concat(chunks[..i])))
    {
      var before := Concat(chunks[..i]);
      FramesInPieces(before, chunks[i]);
      HandledAppends(RawLines(before), RawLines(Tail(before) + chunks[i]));
      assert chunks[..i + 1][..i] == chunks[..i];
      framer.OnData(chunks[i]);
    }
    assert chunks[..|chunks|] == chunks;
  }

  // ---------- one handler at a time ----------

  datatype Job = Waiting | Running | Settled

  /** The server while it runs: the unfinished line, the lines chained so far, and how far each line's handler is. */
  datatype Chain = Chain(buf: string, lines: seq<string>, jobs: seq<Job>)

  datatype Turn = Data(chunk: string) | Start(job: nat) | Settle(job: nat)

  /** A handler may start when the promise it was chained to has settled; a failure settles it too. */
  predicate Enabled(chain: Chain, turn: Turn)
  {
    match turn
    case Data(_) => true
    case Start(k) => k < |chain.jobs| && chain.jobs[k] == Waiting && (k == 0 || chain.jobs[k - 1] == Settled)
    case Settle(k) => k < |chain.jobs| && chain.jobs[k] == Running
  }

  function Take(chain: Chain, turn: Turn): Chain
    requires Enabled(chain, turn)
  {
    match turn
    case Data(chunk) =>
      var lines := Handled(RawLines(chain.buf + chunk));
      Chain(Tail(chain.buf + chunk), chain.lines + lines, chain.jobs + seq(|lines|, _ => Waiting))
    case Start(k) => chain.(jobs := chain.jobs[k := Running])
    case Settle(k) => chain.(jobs := chain.jobs[k := Settled])
  }

  /** The chain a run leaves, when each of its turns was enabled. */
  function RunOf(turns: seq<Turn>): Option<Chain>
  {
    if turns == [] then Some(Chain("", [], []))
    else
      var before := RunOf(turns[..|turns| - 1]);
      if before.None? || !Enabled(before.value, turns[|turns| - 1]) then None
      else Some(Take(before.value, turns[|turns| - 1]))
  }

  /** Everything a run has received. */
  function Received(turns: seq<Turn>): string
  {
    if turns == [] then ""
    else
      var last := turns[|turns| - 1];
      Received(turns[..|turns| - 1]) + if last.Data? then last.chunk else ""
  }

  /** Settled handlers first, then at most one that runs, then those that wait. */
  ghost predicate InOrder(chain: Chain)
  {
    forall i, j :: 0 <= i < j < |chain.jobs| ==> chain.jobs[i] == Settled || chain.jobs[j] == Waiting
  }

  /** The lines whose handlers a run started, in the order in which they started. */
  function Started(turns: seq<Turn>): seq<string>
    requires RunOf(turns).Some?
  {
    if turns == [] then []
    else
      var before, last := turns[..|turns| - 1], turns[|turns| - 1];
      assert RunOf(before).Some? && |RunOf(before).value.lines| == |RunOf(before).value.jobs| by { OneJobPerLine(before); }
      Started(before) + if last.Start? then [RunOf(before).value.lines[last.job]] else []
  }

  lemma {:induction false} OneJobPerLine(turns: seq<Turn>)
    requires RunOf(turns).Some?
    ensures |RunOf(turns).value.lines| == |RunOf(turns).value.jobs|
  {
    if turns != [] { OneJobPerLine(turns[..|turns| - 1]); }
  }

  /** The started handlers are the first ones, and their lines the first lines. */
  ghost predicate Begun(chain: Chain, started: seq<string>)
  {
    && |chain.lines| == |chain.jobs| && started <= chain.lines
    && (forall i :: 0 <= i < |chain.jobs| ==> (chain.jobs[i] == Waiting <==> |started| <= i))
  }

  lemma TurnKeepsOrder(before: Chain, turn: Turn, started: seq<string>)
    requires InOrder(before) && Begun(before, started) && Enabled(before, turn)
    ensures InOrder(Take(before, turn)) && Begun(Take(before, turn), started + if turn.Start? then [before.lines[turn.job]] else [])
  {
    hide Handled, RawLines, Tail;
    if turn.Start? {
      assert turn.job == |started| by {
        if turn.job > 0 { assert before.jobs[turn.job - 1] != Waiting; }
      }
    }
  }

  /** In every run, handlers start in arrival order, each once, and no two are ever running together. */
  lemma {:induction false} HandlersRunOneAtATime(turns: seq<Turn>)
    requires RunOf(turns).Some?
    ensures
      var chain := RunOf(turns).value;
      && InOrder(chain) && Begun(chain, Started(turns))
      && forall i, j :: 0 <= i < j < |chain.jobs| ==> !(chain.jobs[i] == Running && chain.jobs[j] == Running)
  {
    hide Take;
    if turns != [] {
      HandlersRunOneAtATime(turns[..|turns| - 1]);
      TurnKeepsOrder(RunOf(turns[..|turns| - 1]).value, turns[|turns| - 1], Started(turns[..|turns| - 1]));
    }
  }

  /** In every run the chained lines are those of the stream received, however it was cut and whatever ran meanwhile. */
  lemma {:induction false} ChainHoldsTheStream(turns: seq<Turn>)
    requires RunOf(turns).Some?
    ensures RunOf(turns).value.buf == Tail(Received(turns)) && RunOf(turns).value.lines == Handled(RawLines(Received(turns)))
  {
    hide Trim;
    if turns != [] {
      var before, last := turns[..|turns| - 1], turns[|turns| - 1];
      ChainHoldsTheStream(before);
      if last.Data? {
        FramesInPieces(Received(before), last.chunk);
        HandledAppends(RawLines(Received(before)), RawLines(Tail(Received(before)) + last.chunk));
        hide Handled, RawLines, Tail;
      } else {
        hide Handled, RawLines, Tail;
        assert Received(before) + "" == Received(before);
      }
    }
  }

  /** So the handlers started in any run take the trimmed non-blank lines of the stream in order, from the first one on. */
  lemma StartedLinesAreTheStreams(turns: seq<Turn>)
    requires RunOf(turns).Some?
    ensures Started(turns) <= Handled(RawLines(Received(turns)))
  {
    HandlersRunOneAtATime(turns);
    ChainHoldsTheStream(turns);
  }

  /** A run never gets stuck: while some handler is not settled, one can start or settle. */
  lemma SomeHandlerCanMove(chain: Chain, i: nat)
    requires i < |chain.jobs| && chain.jobs[i] != Settled
    ensures exists k: nat :: Enabled(chain, Start(k)) || Enabled(chain, Settle(k))
  {
    var k: nat := i;
    while k > 0 && chain.jobs[k - 1] != Settled
      invariant 0 <= k < |chain.jobs| && chain.jobs[k] != Settled
    {
      k := k - 1;
    }
    assert Enabled(chain, Start(k)) || Enabled(chain, Settle(k));
  }
}

/** The sudoku server with a solver that keeps the contract of SolveSudoku: what the responses say. */
module SudokuService {
  import opened Options
  import opened BigEndian
  import opened Buffers
  import opened Framing
  import opened SudokuTexts

  function Text(s: seq<Byte>): string { seq(|s|, i requires 0 <= i < |s| => s[i] as char) }

  ghost predicate RightAnswer(puzzle: seq<Byte>, answer: seq<Byte>) { Answers(Text(puzzle), Text(answer)) }

  /** The solver as a function, from bytes to bytes, that keeps SolveSudoku's contract. */
  ghost predicate SolvesSudoku(solve: Solver) {
    forall p :: |p| == CELL_COUNT ==> RightAnswer(p, solve(p))
  }

  /** Such a solver answers in the lengths the framing relies on. */
  lemma SolverHasShape(solve: Solver)
    requires SolvesSudoku(solve)
    ensures SolverShape(solve)
  {
    forall p | |p| == CELL_COUNT ensures |solve(p)| == 10 || |solve(p)| == CELL_COUNT {
      assert RightAnswer(p, solve(p));
    }
  }

  /** The i-th line of a stream. */
  function NthLine(s: seq<Byte>, i: nat): Option<seq<Byte>>
    decreases |s|
  {
    match LineEnd(s)
    case None => None
    case Some(e) => if i == 0 then Some(s[..e]) else NthLine(s[e + 2..], i - 1)
  }

  /** response is the id part, the right answer to the puzzle, and a line end. */
  ghost predicate AnsweredAfter(id: seq<Byte>, puzzle: seq<Byte>, response: seq<Byte>) {
    exists answer: seq<Byte> :: RightAnswer(puzzle, answer) && response == id + answer + [13, 10]
  }

  /** response answers a request: the id comes back with its colon, unless it is empty, followed by the right answer
      to the puzzle. */
  ghost predicate AnswersRequest(request: seq<Byte>, response: seq<Byte>) {
    || (|request| == 81 && 58 !in request && AnsweredAfter([], request, response))
    || (exists k :: FirstColon(request, k) && |request| == k + 82
                    && AnsweredAfter(if k == 0 then [] else request[..k + 1], request[k + 1..], response))
  }

  lemma RespondAnswers(solve: Solver, request: seq<Byte>)
    requires SolvesSudoku(solve) && Respond(solve, request).Some?
    ensures AnswersRequest(request, Respond(solve, request).value)
  {
    hide RightAnswer, Respond;
    RespondIff(solve, request);
    if |request| == 81 && 58 !in request {
      assert RightAnswer(request, solve(request));
      assert [] + solve(request) == solve(request);
    } else {
      var k :| FirstColon(request, k) && |request| == k + 82;
      var puzzle := request[k + 1..];
      assert |puzzle| == CELL_COUNT;
      assert RightAnswer(puzzle, solve(puzzle));
    }
  }

  /** Response i of a drain is the answer to line i of the stream, or the rejection that closes the connection. */
  lemma {:induction false} DrainResponds(solve: Solver, s: Session, i: nat)
    requires SolvesSudoku(solve) && s.open && |s.out| <= i < |Drain(solve, s).out|
    ensures var d, line := Drain(solve, s), NthLine(s.rest, i - |s.out|);
            || (line.Some? && AnswersRequest(line.value, d.out[i]))
            || (!d.open && i == |d.out| - 1 && (d.out[i] == BAD_REQUEST || d.out[i] == ID_TOO_LONG))
    decreases |s.rest|
  {
    hide Drain, LineEnd, Respond, AnswersRequest, SolvesSudoku, NthLine;
    DrainStep(solve, s);
    if |s.rest| >= CELL_COUNT + 2 && LineEnd(s.rest).Some? {
      var e := LineEnd(s.rest).value;
      LinesAfterFirst(s.rest, e, 0);
      var line := s.rest[..e];
      if Respond(solve, line).Some? {
        RespondAnswers(solve, line);
        var next := Say(s.(rest := s.rest[e + 2..]), Respond(solve, line).value);
        DrainKeeps(solve, next);
        if i > |s.out| {
          DrainResponds(solve, next, i);
        }
      }
    }
  }

  lemma DrainKeeps(solve: Solver, s: Session)
    ensures |s.out| <= |Drain(solve, s).out|
    ensures forall k :: 0 <= k < |s.out| ==> Drain(solve, s).out[k] == s.out[k]
  {
    DrainExtends(solve, s);
  }

  /** A stream with short lines, however it is cut: response i carries the id and a completion of the puzzle of
      line i, or "NoSolution" if there is none, or it is the rejection that closes the connection. */
  lemma ServedCorrectly(solve: Solver, chunks: seq<seq<Byte>>, i: nat)
    requires SolvesSudoku(solve) && ShortLines(solve, Join(chunks))
    requires i < |FeedAll(solve, NEW_SESSION, chunks).out|
    ensures var s, line := FeedAll(solve, NEW_SESSION, chunks), NthLine(Join(chunks), i);
            || (line.Some? && AnswersRequest(line.value, s.out[i]))
            || (!s.open && i == |s.out| - 1 && (s.out[i] == BAD_REQUEST || s.out[i] == ID_TOO_LONG))
  {
    hide Drain, ShortLines, AnswersRequest, SolvesSudoku, NthLine, Join, FeedAll;
    ChunkingIrrelevant(solve, chunks);
    assert [] + Join(chunks) == Join(chunks);
    DrainResponds(solve, NEW_SESSION.(rest := Join(chunks)), i);
  }

  // ---------- exactly which responses ----------

  /** What follows the first i lines of a stream. */
  function RestFrom(s: seq<Byte>, i: nat): seq<Byte>
    decreases i
  {
    if i == 0 then s else
    match LineEnd(s)
    case None => []
    case Some(e) => RestFrom(s[e + 2..], i - 1)
  }

  /** What is said at the end of the well-formed lines: a rejection of the next line, if it is there and 83 bytes are,
      or of more than 100 bytes without a line end; else nothing yet. */
  ghost function Ending(rest: seq<Byte>): seq<seq<Byte>> {
    if LineEnd(rest).Some? then (if |rest| >= 83 then [BAD_REQUEST] else [])
    else if |rest| > 100 then [ID_TOO_LONG] else []
  }

  /** The first k lines of a stream are well formed, and there is no other well-formed line right after them. */
  ghost predicate GoodLines(t: seq<Byte>, k: nat) {
    && (forall j: nat :: j < k ==> NthLine(t, j).Some? && WellFormed(NthLine(t, j).value))
    && (NthLine(t, k).Some? ==> !WellFormed(NthLine(t, k).value))
  }

  /** out is what was said before, an answer to each of the first k lines of t, and the ending. */
  ghost predicate Says(out: seq<seq<Byte>>, before: seq<seq<Byte>>, t: seq<Byte>, k: nat) {
    && |out| >= |before| + k && out[..|before|] == before
    && (forall j: nat :: j < k ==> NthLine(t, j).Some? && AnswersRequest(NthLine(t, j).value, out[|before| + j]))
    && out[|before| + k..] == Ending(RestFrom(t, k))
  }

  lemma LinesAfterFirst(t: seq<Byte>, e: nat, k: nat)
    requires LineEnd(t) == Some(e)
    ensures e + 2 <= |t| && NthLine(t, 0) == Some(t[..e])
    ensures forall j: nat :: j > 0 ==> NthLine(t, j) == NthLine(t[e + 2..], j - 1)
    ensures k > 0 ==> RestFrom(t, k) == RestFrom(t[e + 2..], k - 1)
  {
  }

  lemma GoodLinesAfterFirst(t: seq<Byte>, e: nat, k: nat)
    requires LineEnd(t) == Some(e) && GoodLines(t, k) && k > 0
    ensures e + 2 <= |t| && WellFormed(t[..e]) && GoodLines(t[e + 2..], k - 1) && |t| >= 83
  {
    hide NthLine, LineEnd, WellFormed, RestFrom;
    LinesAfterFirst(t, e, k);
    var next := t[e + 2..];
    assert NthLine(t, 0).Some?;
    forall j: nat | j < k - 1 ensures NthLine(next, j).Some? && WellFormed(NthLine(next, j).value) {
      assert NthLine(t, j + 1).Some?;
    }
    WellFormedLength(t[..e]);
  }

  lemma WellFormedLength(request: seq<Byte>)
    requires WellFormed(request)
    ensures |request| >= 81
  {
  }

  /** A drain answers each leading well-formed line, and then says what the ending is. */
  lemma {:induction false} DrainSays(solve: Solver, s: Session, k: nat)
    requires SolvesSudoku(solve) && s.open && GoodLines(s.rest, k)
    ensures Says(Drain(solve, s).out, s.out, s.rest, k)
    ensures Drain(solve, s).open <==> Ending(RestFrom(s.rest, k)) == []
    decreases k
  {
    hide Drain, LineEnd, Respond, WellFormed, AnswersRequest, SolvesSudoku, GoodLines, NthLine, Says;
    DrainStep(solve, s);
    if k == 0 {
      NoGoodLine(s.rest);
      if LineEnd(s.rest).Some? {
        LinesAfterFirst(s.rest, LineEnd(s.rest).value, 0);
        RespondIff(solve, s.rest[..LineEnd(s.rest).value]);
      }
      SaysEnding(Drain(solve, s).out, s.out, s.rest);
    } else {
      SomeGoodLine(s.rest, k);
      var e := LineEnd(s.rest).value;
      GoodLinesAfterFirst(s.rest, e, k);
      var line := s.rest[..e];
      RespondIff(solve, line);
      RespondAnswers(solve, line);
      var next := Say(s.(rest := s.rest[e + 2..]), Respond(solve, line).value);
      DrainSays(solve, next, k - 1);
      LinesAfterFirst(s.rest, e, k);
      SaysMore(Drain(solve, next).out, s.out, Respond(solve, line).value, s.rest, e, k);
    }
  }

  lemma NoGoodLine(t: seq<Byte>)
    requires GoodLines(t, 0)
    ensures LineEnd(t).Some? ==> LineEnd(t).value + 2 <= |t| && !WellFormed(t[..LineEnd(t).value])
    ensures RestFrom(t, 0) == t
  {
    hide LineEnd, WellFormed;
  }

  lemma SomeGoodLine(t: seq<Byte>, k: nat)
    requires GoodLines(t, k) && k > 0
    ensures LineEnd(t).Some?
  {
    hide LineEnd, WellFormed;
    assert NthLine(t, 0).Some?;
  }

  lemma SaysEnding(out: seq<seq<Byte>>, before: seq<seq<Byte>>, t: seq<Byte>)
    requires out == before + Ending(t)
    ensures Says(out, before, t, 0)
  {
    hide Ending, AnswersRequest;
    assert RestFrom(t, 0) == t;
  }

  lemma SaysMore(out: seq<seq<Byte>>, before: seq<seq<Byte>>, answer: seq<Byte>, t: seq<Byte>, e: nat, k: nat)
    requires LineEnd(t) == Some(e) && e + 2 <= |t| && k > 0
    requires Says(out, before + [answer], t[e + 2..], k - 1) && AnswersRequest(t[..e], answer)
    ensures Says(out, before, t, k)
  {
    hide Ending, AnswersRequest, LineEnd, NthLine, RestFrom;
    LinesAfterFirst(t, e, k);
    assert out[|before|] == (before + [answer])[|before|];
    assert out[..|before|] == (before + [answer])[..|before|] == before;
    forall j: nat | j < k ensures NthLine(t, j).Some? && AnswersRequest(NthLine(t, j).value, out[|before| + j]) {
      if j > 0 {
        assert NthLine(t, j) == NthLine(t[e + 2..], j - 1);
      }
    }
  }

  /** The responses to a stream with short lines, however it is cut: every leading well-formed line is answered, in
      order, and after them comes exactly the ending, a rejection or nothing. */
  lemma ServedExactly(solve: Solver, chunks: seq<seq<Byte>>, k: nat)
    requires SolvesSudoku(solve) && ShortLines(solve, Join(chunks)) && GoodLines(Join(chunks), k)
    ensures Says(FeedAll(solve, NEW_SESSION, chunks).out, [], Join(chunks), k)
    ensures FeedAll(solve, NEW_SESSION, chunks).open <==> Ending(RestFrom(Join(chunks), k)) == []
  {
    hide Drain, ShortLines, SolvesSudoku, GoodLines, NthLine, Join, FeedAll, Says, Ending, RestFrom;
    ChunkingIrrelevant(solve, chunks);
    assert [] + Join(chunks) == Join(chunks);
    DrainSays(solve, NEW_SESSION.(rest := Join(chunks)), k);
  }

  lemma MessageTexts()
    ensures Text(BAD_REQUEST) == "Bad Request!\r\n" && Text(ID_TOO_LONG) == "Id too long!\r\n"
  {
  }
}

/** Request framing in the sudoku server: an incremental parser over the input buffer, compared with parsing
    the whole stream at once. */
module Framing {
  import opened Options
  import opened BigEndian
  import opened Buffers

  const CELL_COUNT := 81
  const COLON: Byte := 58
  const CRLF: seq<Byte> := [CR, LF]

  /** "Bad Request!" and "Id too long!", each with its line end. */
  const BAD_REQUEST: seq<Byte> := [66, 97, 100, 32, 82, 101, 113, 117, 101, 115, 116, 33, 13, 10]
  const ID_TOO_LONG: seq<Byte> := [73, 100, 32, 116, 111, 111, 32, 108, 111, 110, 103, 33, 13, 10]

  // ---------- one request ----------

  /** The solver as the server sees it: text to text. */
  type Solver = seq<Byte> -> seq<Byte>

  /** To a puzzle of 81 characters it answers "NoSolution" or 81 digits. */
  ghost predicate SolverShape(solve: Solver) {
    forall p :: |p| == CELL_COUNT ==> |solve(p)| == 10 || |solve(p)| == CELL_COUNT
  }

  function ColonAt(request: seq<Byte>): (i: nat)
    ensures i <= |request| && (i < |request| ==> request[i] == COLON)
    ensures forall j :: 0 <= j < i ==> request[j] != COLON
  {
    if request == [] || request[0] == COLON then 0 else 1 + ColonAt(request[1..])
  }

  /** The answer to a request, or None if it is not [id:]puzzle with a puzzle of 81 characters. */
  function Respond(solve: Solver, request: seq<Byte>): Option<seq<Byte>> {
    var c := ColonAt(request);
    var id, puzzle := if c < |request| then (request[..c]) else [], if c < |request| then request[c + 1..] else request;
    if |puzzle| != CELL_COUNT then None
    else if id == [] then Some(solve(puzzle) + CRLF)
    else Some(id + [COLON] + solve(puzzle) + CRLF)
  }

  /** The first colon of a request. */
  ghost predicate FirstColon(request: seq<Byte>, k: int) {
    0 <= k < |request| && request[k] == 58 && forall j :: 0 <= j < k ==> request[j] != 58
  }

  /** 81 bytes without a colon, or an id, a colon and 81 bytes; the first colon ends the id, which may be empty. */
  ghost predicate WellFormed(request: seq<Byte>) {
    || (|request| == 81 && 58 !in request)
    || (exists k :: FirstColon(request, k) && |request| == k + 82)
  }

  /** Exactly the well-formed requests are answered: 81 bytes by the solver's answer to them, and an id before them
      comes back with its colon, unless it is empty. */
  lemma RespondIff(solve: Solver, request: seq<Byte>)
    ensures Respond(solve, request).Some? <==> WellFormed(request)
    ensures |request| == 81 && 58 !in request ==> Respond(solve, request) == Some(solve(request) + [13, 10])
    ensures forall k :: FirstColon(request, k) && |request| == k + 82 ==>
              Respond(solve, request) ==
              Some((if k == 0 then [] else request[..k + 1]) + solve(request[k + 1..]) + [13, 10])
  {
    var c := ColonAt(request);
    if c < |request| {
      assert FirstColon(request, c);
      assert 58 in request;
      assert request[..c] + [COLON] == request[..c + 1];
      assert [] + solve(request[c + 1..]) == solve(request[c + 1..]);
      forall k | FirstColon(request, k) ensures k == c {
        assert !(k < c) && !(c < k);
      }
    } else {
      assert 58 !in request;
      assert forall k :: !FirstColon(request, k);
    }
  }

  // ---------- the stream ----------

  /** The first CR LF of s. */
  function LineEnd(s: seq<Byte>): (r: Option<nat>)
    ensures r.Some? ==> CRLFAt(s, r.value) && forall j :: j < r.value ==> !CRLFAt(s, j)
    ensures r.None? ==> forall j :: !CRLFAt(s, j)
  {
    if |s| < 2 then None
    else if s[0] == CR && s[1] == LF then Some(0)
    else
      assert forall j :: j != 0 && CRLFAt(s, j) ==> CRLFAt(s[1..], j - 1);
      match LineEnd(s[1..])
      case None => None
      case Some(i) => assert CRLFAt(s, i + 1); Some(i + 1)
  }

  /** a is the first line of a stream if no CR LF comes before its own. */
  lemma FirstLine(a: seq<Byte>, b: seq<Byte>)
    requires forall j :: 0 <= j < |a| ==> (a + [13, 10])[j] != 13 || (a + [13, 10])[j + 1] != 10
    ensures LineEnd(a + [13, 10] + b) == Some(|a|)
  {
    var s := a + [13, 10] + b;
    forall j | j < |a| ensures !CRLFAt(s, j) {
      if 0 <= j {
        assert s[j] == (a + [13, 10])[j] && s[j + 1] == (a + [13, 10])[j + 1];
      }
    }
    assert s[|a|] == 13 && s[|a| + 1] == 10;
    LineEndUnique(s, |a|);
  }

  lemma NoLineIff(s: seq<Byte>)
    ensures LineEnd(s).None? <==> forall j :: 0 <= j < |s| - 1 ==> s[j] != 13 || s[j + 1] != 10
  {
    if LineEnd(s).None? {
      forall j | 0 <= j < |s| - 1 ensures s[j] != 13 || s[j + 1] != 10 {
        assert !CRLFAt(s, j);
      }
    } else {
      assert CRLFAt(s, LineEnd(s).value);
    }
  }

  /** A connection: the bytes not yet consumed, the responses sent, and whether it still sends. */
  datatype Session = Session(rest: seq<Byte>, out: seq<seq<Byte>>, open: bool)

  /** A send; dropped after the shutdown that follows the first rejection. */
  function Say(s: Session, message: seq<Byte>): Session {
    if s.open then s.(out := s.out + [message]) else s
  }

  function Reject(s: Session, message: seq<Byte>): Session { Say(s, message).(open := false) }

  /** What the handler makes of the bytes at hand. */
  function Drain(solve: Solver, s: Session): Session
    decreases |s.rest|
  {
    if |s.rest| < CELL_COUNT + 2 then s else
    match LineEnd(s.rest)
    case None => if |s.rest| > 100 then Reject(s, ID_TOO_LONG) else s
    case Some(i) =>
      var line, next := s.rest[..i], s.(rest := s.rest[i + 2..]);
      match Respond(solve, line)
      case None => Reject(next, BAD_REQUEST)
      case Some(answer) => Drain(solve, Say(next, answer))
  }

  lemma DrainStep(solve: Solver, s: Session)
    ensures Drain(solve, s) ==
            if |s.rest| < CELL_COUNT + 2 then s else
            match LineEnd(s.rest)
            case None => if |s.rest| > 100 then Reject(s, ID_TOO_LONG) else s
            case Some(i) =>
              match Respond(solve, s.rest[..i])
              case None => Reject(s.(rest := s.rest[i + 2..]), BAD_REQUEST)
              case Some(answer) => Drain(solve, Say(s.(rest := s.rest[i + 2..]), answer))
  {
  }

  function Feed(solve: Solver, s: Session, chunk: seq<Byte>): Session {
    Drain(solve, s.(rest := s.rest + chunk))
  }

  function FeedAll(solve: Solver, s: Session, chunks: seq<seq<Byte>>): Session {
    if chunks == [] then s else Feed(solve, FeedAll(solve, s, chunks[..|chunks| - 1]), chunks[|chunks| - 1])
  }

  function Join(chunks: seq<seq<Byte>>): seq<Byte> {
    if chunks == [] then [] else Join(chunks[..|chunks| - 1]) + chunks[|chunks| - 1]
  }

  const NEW_SESSION := Session([], [], true)

  // ---------- when chunking does not matter ----------

  /** Up to and including the first rejected request, no line is longer than 99 bytes. */
  predicate ShortLines(solve: Solver, s: seq<Byte>)
    decreases |s|
  {
    match LineEnd(s)
    case None => true
    case Some(i) => i <= 99 && (Respond(solve, s[..i]).Some? ==> ShortLines(solve, s[i + 2..]))
  }

  lemma LineEndUnique(s: seq<Byte>, i: nat)
    requires CRLFAt(s, i) && forall j :: j < i ==> !CRLFAt(s, j)
    ensures LineEnd(s) == Some(i)
  {
    var r := LineEnd(s);
    assert r.Some?;
    assert !(r.value < i) && !(i < r.value);
  }

  /** A search for the first CR LF finds the end of the line. */
  lemma FoundLine(s: seq<Byte>, r: Option<nat>)
    requires match r
             case None => forall j :: !CRLFAt(s, j)
             case Some(i) => CRLFAt(s, i) && forall j :: j < i ==> !CRLFAt(s, j)
    ensures LineEnd(s) == r && (r.Some? ==> r.value + 2 <= |s|)
  {
    if r.Some? {
      LineEndUnique(s, r.value);
    }
  }

  lemma LineEndExtends(a: seq<Byte>, b: seq<Byte>)
    ensures LineEnd(a).Some? ==> LineEnd(a + b) == LineEnd(a)
    ensures LineEnd(a).None? && LineEnd(a + b).Some? ==> LineEnd(a + b).value >= |a| - 1
  {
    forall j ensures j + 1 < |a| ==> (CRLFAt(a + b, j) <==> CRLFAt(a, j)) {
    }
    if LineEnd(a).Some? {
      LineEndUnique(a + b, LineEnd(a).value);
    }
  }

  lemma {:induction false} ClosedStays(solve: Solver, s: Session)
    requires !s.open
    ensures !Drain(solve, s).open && Drain(solve, s).out == s.out
    decreases |s.rest|
  {
    if |s.rest| >= CELL_COUNT + 2 && LineEnd(s.rest).Some? {
      var i := LineEnd(s.rest).value;
      if Respond(solve, s.rest[..i]).Some? {
        ClosedStays(solve, s.(rest := s.rest[i + 2..]));
      }
    }
  }

  /** Same responses and, while the connection is open, the same bytes left. */
  ghost predicate Agree(s: Session, t: Session) {
    s.out == t.out && s.open == t.open && (s.open ==> s.rest == t.rest)
  }

  /** Draining a prefix first makes no difference if the lines are short. */
  lemma {:induction false} DrainPrefix(solve: Solver, s: Session, a: seq<Byte>, b: seq<Byte>)
    requires s.open && s.rest == a && ShortLines(solve, a + b)
    ensures Agree(Feed(solve, Drain(solve, s), b), Drain(solve, s.(rest := a + b)))
    decreases |a|
  {
    hide LineEnd, Respond;
    LineEndExtends(a, b);
    var d := Drain(solve, s);
    if |a| < CELL_COUNT + 2 {
    } else if LineEnd(a).None? {
      if |a| > 100 {
        assert LineEnd(a + b).None?;
        ClosedStays(solve, d.(rest := d.rest + b));
      }
    } else {
      var i := LineEnd(a).value;
      assert (a + b)[..i] == a[..i] && (a + b)[i + 2..] == a[i + 2..] + b;
      match Respond(solve, a[..i])
      case None =>
        ClosedStays(solve, d.(rest := d.rest + b));
      case Some(answer) =>
        DrainPrefix(solve, Say(s.(rest := a[i + 2..]), answer), a[i + 2..], b);
    }
  }

  lemma {:induction false} ShortPrefix(solve: Solver, a: seq<Byte>, b: seq<Byte>)
    requires ShortLines(solve, a + b)
    ensures ShortLines(solve, a)
    decreases |a|
  {
    LineEndExtends(a, b);
    if LineEnd(a).Some? {
      var i := LineEnd(a).value;
      assert (a + b)[..i] == a[..i] && (a + b)[i + 2..] == a[i + 2..] + b;
      if Respond(solve, a[..i]).Some? {
        ShortPrefix(solve, a[i + 2..], b);
      }
    }
  }

  /** With short lines the responses do not depend on how the stream is cut. */
  lemma {:induction false} ChunkingIrrelevant(solve: Solver, chunks: seq<seq<Byte>>)
    requires ShortLines(solve, Join(chunks))
    ensures Agree(FeedAll(solve, NEW_SESSION, chunks), Feed(solve, NEW_SESSION, Join(chunks)))
  {
    assert [] + Join(chunks) == Join(chunks);
    if chunks != [] {
      var n := |chunks| - 1;
      var a, b := Join(chunks[..n]), chunks[n];
      ShortPrefix(solve, a, b);
      ChunkingIrrelevant(solve, chunks[..n]);
      assert [] + a == a;
      var before, whole := FeedAll(solve, NEW_SESSION, chunks[..n]), Feed(solve, NEW_SESSION, a);
      DrainPrefix(solve, NEW_SESSION.(rest := a), a, b);
      if !before.open {
        ClosedStays(solve, before.(rest := before.rest + b));
        ClosedStays(solve, whole.(rest := whole.rest + b));
      }
    }
  }

  // ---------- and when it does ----------

  lemma {:induction false} DrainExtends(solve: Solver, s: Session)
    ensures s.out <= Drain(solve, s).out
    decreases |s.rest|
  {
    if |s.rest| >= CELL_COUNT + 2 && LineEnd(s.rest).Some? {
      var i := LineEnd(s.rest).value;
      match Respond(solve, s.rest[..i])
      case None =>
      case Some(answer) => DrainExtends(solve, Say(s.(rest := s.rest[i + 2..]), answer));
    }
  }

  /** No answer reads like a rejection of either kind. */
  lemma AnswerIsNotBadRequest(solve: Solver, request: seq<Byte>)
    requires SolverShape(solve)
    ensures Respond(solve, request) != Some(BAD_REQUEST)
  {
    var c := ColonAt(request);
    if c < |request| && c > 0 && Respond(solve, request).Some? {
      assert Respond(solve, request).value[c] == COLON;
      assert forall j :: 0 <= j < |BAD_REQUEST| ==> BAD_REQUEST[j] != COLON;
    }
  }

  lemma AnswerIsNotRejection(solve: Solver, request: seq<Byte>)
    requires SolverShape(solve)
    ensures Respond(solve, request) != Some(ID_TOO_LONG)
  {
    var c := ColonAt(request);
    if c < |request| && c > 0 && Respond(solve, request).Some? {
      assert Respond(solve, request).value[c] == COLON;
      assert forall j :: 0 <= j < |ID_TOO_LONG| ==> ID_TOO_LONG[j] != COLON;
    }
  }

  /** A long line cut between CR and LF is rejected; whole, it is answered or rejected differently. */
  lemma LongLineCut(solve: Solver, s: Session, t: seq<Byte>, i: nat)
    requires SolverShape(solve) && s.open && s.rest == t && LineEnd(t) == Some(i) && i > 99
    ensures Feed(solve, Drain(solve, s.(rest := t[..i + 1])), t[i + 1..]).out != Drain(solve, s).out
  {
    var a := t[..i + 1];
    forall j ensures !CRLFAt(a, j) {
      assert CRLFAt(a, j) ==> CRLFAt(t, j) && j < i;
    }
    assert LineEnd(a).None?;
    var d := Drain(solve, s.(rest := a));
    assert d == Reject(s.(rest := a), ID_TOO_LONG);
    ClosedStays(solve, d.(rest := d.rest + t[i + 1..]));
    AnswerIsNotRejection(solve, t[..i]);
    match Respond(solve, t[..i])
    case None => assert (s.out + [BAD_REQUEST])[|s.out|] != (s.out + [ID_TOO_LONG])[|s.out|];
    case Some(answer) =>
      DrainExtends(solve, Say(s.(rest := t[i + 2..]), answer));
      assert Drain(solve, s).out[|s.out|] == answer;
      assert (s.out + [ID_TOO_LONG])[|s.out|] == ID_TOO_LONG;
  }

  /** One answered line. */
  lemma DrainLine(solve: Solver, s: Session, i: nat)
    requires LineEnd(s.rest) == Some(i) && |s.rest| >= CELL_COUNT + 2 && Respond(solve, s.rest[..i]).Some?
    ensures i + 2 <= |s.rest|
    ensures Drain(solve, s) == Drain(solve, Say(s.(rest := s.rest[i + 2..]), Respond(solve, s.rest[..i]).value))
  {
  }

  lemma LineEndPrefix(t: seq<Byte>, i: nat, a: seq<Byte>)
    requires LineEnd(t) == Some(i)
    ensures i + 2 <= |t| && LineEnd(t[..i + 2] + a) == Some(i)
  {
    assert CRLFAt(t, i);
    var p := t[..i + 2];
    LineEndExtends(p, a);
    forall j | j < i ensures !CRLFAt(p, j) {
      assert CRLFAt(p, j) ==> CRLFAt(t, j);
    }
    assert CRLFAt(p, i);
    LineEndUnique(p, i);
  }

  lemma {:induction false} LongLineDiffers(solve: Solver, s: Session, t: seq<Byte>) returns (a: seq<Byte>, b: seq<Byte>)
    requires SolverShape(solve) && s.open && s.rest == t && !ShortLines(solve, t)
    ensures t == a + b && |a| > 100
    ensures Feed(solve, Drain(solve, s.(rest := a)), b).out != Drain(solve, s).out
    decreases |t|
  {
    hide Drain, LineEnd, Respond, SolverShape;
    var i := LineEnd(t).value;
    if i > 99 {
      a, b := t[..i + 1], t[i + 1..];
      LongLineCut(solve, s, t, i);
    } else {
      var answer := Respond(solve, t[..i]).value;
      var a', b' := LongLineDiffers(solve, Say(s.(rest := t[i + 2..]), answer), t[i + 2..]);
      LongLineFurther(solve, s, t, i, a', b');
      a, b := t[..i + 2] + a', b';
    }
  }

  /** A difference after an answered line is a difference before it. */
  lemma LongLineFurther(solve: Solver, s: Session, t: seq<Byte>, i: nat, a: seq<Byte>, b: seq<Byte>)
    requires s.open && s.rest == t && LineEnd(t) == Some(i) && i + 2 <= |t| && t[i + 2..] == a + b && |a| > 100
    requires Respond(solve, t[..i]).Some?
    requires var next := Say(s.(rest := t[i + 2..]), Respond(solve, t[..i]).value);
             Feed(solve, Drain(solve, next.(rest := a)), b).out != Drain(solve, next).out
    ensures t == t[..i + 2] + a + b
    ensures Feed(solve, Drain(solve, s.(rest := t[..i + 2] + a)), b).out != Drain(solve, s).out
  {
    hide Drain, LineEnd, Respond;
    LineEndPrefix(t, i, a);
    var front := t[..i + 2] + a;
    assert front[..i] == t[..i] && front[i + 2..] == a;
    DrainLine(solve, s, i);
    DrainLine(solve, s.(rest := front), i);
  }

  /** The responses are the same for every cutting of the stream exactly when, up to and including the first
      rejected request, no line is longer than 99 bytes. */
  lemma ChunkingIrrelevantIff(solve: Solver, t: seq<Byte>)
    requires SolverShape(solve)
    ensures ShortLines(solve, t) <==>
            forall chunks :: Join(chunks) == t ==>
              FeedAll(solve, NEW_SESSION, chunks).out == Feed(solve, NEW_SESSION, t).out
  {
    hide Drain, ShortLines, LineEnd, Join, FeedAll, SolverShape;
    if ShortLines(solve, t) {
      forall chunks | Join(chunks) == t
        ensures FeedAll(solve, NEW_SESSION, chunks).out == Feed(solve, NEW_SESSION, t).out
      {
        ChunkingIrrelevant(solve, chunks);
      }
    } else {
      assert [] + t == t;
      var a, b := LongLineDiffers(solve, NEW_SESSION.(rest := t), t);
      TwoChunks(solve, a, b);
    }
  }

  lemma TwoChunks(solve: Solver, a: seq<Byte>, b: seq<Byte>)
    ensures Join([a, b]) == a + b
    ensures FeedAll(solve, NEW_SESSION, [a, b]) == Feed(solve, Drain(solve, NEW_SESSION.(rest := a)), b)
  {
    assert [a, b][..1] == [a] && [a][..0] == [];
    assert Join([a]) == [] + a == a;
    assert FeedAll(solve, NEW_SESSION, [a]) == Feed(solve, NEW_SESSION, a);
    assert NEW_SESSION.rest + a == a;
  }

  /** A well-formed request of 100 bytes: 18 of id, a colon, 81 zeros. */
  const LONG_LINE: seq<Byte> := LONG_LINE_ID + [COLON] + ZEROS

  const LONG_LINE_ID: seq<Byte> := seq(18, i => 65)
  const ZEROS: seq<Byte> := seq(81, i => 48)

  lemma LongLineEnd()
    ensures var t := LONG_LINE + CRLF;
            |t| == 102 && LineEnd(t) == Some(100) && t[..100] == LONG_LINE && LineEnd(t[..101]) == None
  {
    var t := LONG_LINE + CRLF;
    assert forall j :: 0 <= j < 100 ==> t[j] != CR;
    assert t[100] == CR && t[101] == LF;
    LineEndUnique(t, 100);
    FoundLine(t[..101], None);
  }

  lemma LongLineAnswered(solve: Solver)
    ensures Respond(solve, LONG_LINE) == Some(LONG_LINE_ID + [COLON] + solve(ZEROS) + CRLF)
  {
    var c := ColonAt(LONG_LINE);
    assert LONG_LINE[18] == COLON && forall j :: 0 <= j < 18 ==> LONG_LINE[j] != COLON;
    assert c == 18;
    assert LONG_LINE[..18] == LONG_LINE_ID && LONG_LINE[19..] == ZEROS;
  }

  /** It is answered when it arrives whole, and rejected when its last byte comes later. */
  lemma LongLineExample(solve: Solver)
    ensures var t, answer := LONG_LINE + CRLF, LONG_LINE_ID + [COLON] + solve(ZEROS) + CRLF;
            && !ShortLines(solve, t) && Feed(solve, NEW_SESSION, t).out == [answer]
            && FeedAll(solve, NEW_SESSION, [t[..101], t[101..]]).out == [ID_TOO_LONG]
  {
    hide LineEnd, Respond, Drain;
    var t := LONG_LINE + CRLF;
    LongLineEnd();
    LongLineAnswered(solve);
    assert [] + t == t;
    var whole, front := NEW_SESSION.(rest := t), NEW_SESSION.(rest := t[..101]);
    DrainStep(solve, whole);
    DrainStep(solve, Say(whole.(rest := t[102..]), Respond(solve, LONG_LINE).value));
    TwoChunks(solve, t[..101], t[101..]);
    DrainStep(solve, front);
    var d := Drain(solve, front);
    ClosedStays(solve, d.(rest := d.rest + t[101..]));
  }

  // ---------- the handler itself ----------

  class SudokuServer {
    const solve: Solver
    var out: seq<seq<Byte>>    // what the connection sent
    var open: bool             // connected, that is not shut down yet

    constructor (solve: Solver)
      ensures this.solve == solve && out == [] && open
    {
      this.solve := solve;
      out, open := [], true;
    }

    method Send(message: seq<Byte>)
      modifies this`out
      ensures out == if open then old(out) + [message] else old(out)
    {
      if open {
        out := out + [message];
      }
    }

    /** The session the server and its input buffer stand for. */
    ghost function Current(buf: Buffer): Session
      requires buf.Valid()
      reads this, buf
    {
      Session(buf.Contents(), out, open)
    }

    /** A request is good exactly if it is well formed, and then, on an open connection, its answer is sent. */
    ghost predicate Replied(request: seq<Byte>, before: seq<seq<Byte>>, after: seq<seq<Byte>>, good: bool)
      reads this`open
    {
      && (good <==> WellFormed(request)) && (!open || !good ==> after == before)
      && (open && |request| == 81 && 58 !in request ==> after == before + [solve(request) + [13, 10]])
      && (forall k :: open && FirstColon(request, k) && |request| == k + 82 ==>
            after == before + [(if k == 0 then [] else request[..k + 1]) + solve(request[k + 1..]) + [13, 10]])
    }

    /** Handles all complete requests in the buffer. */
    method OnMessage(buf: Buffer)
      requires buf.Valid()
      modifies this, buf
      ensures buf.Valid() && Current(buf) == Drain(solve, old(Current(buf)))
    {
      hide LineEnd, Respond, Drain, Buffer.Valid, Buffer.Contents, Replied, Say, Reject;
      ghost var start := Current(buf);
      var len := buf.ReadableBytes();
      while len >= CELL_COUNT + 2
        invariant buf.Valid() && len == |buf.Contents()|
        invariant Drain(solve, Current(buf)) == Drain(solve, start)
        decreases len
      {
        DrainStep(solve, Current(buf));
        var crlf := buf.FindCRLF();
        FoundLine(buf.Contents(), if crlf.Some? then Some(crlf.value - buf.readerIndex) else None);
        if crlf.Some? {
          var good := ServeLine(buf, crlf.value);
          len := buf.ReadableBytes();
          if !good {
            return;
          }
        } else if len > 100 {
          RejectLong(buf);
          return;
        } else {
          return;
        }
      }
      DrainStep(solve, Current(buf));
    }

    /** Rejects an unterminated request and shuts the connection. */
    method RejectLong(ghost buf: Buffer)
      requires buf.Valid()
      modifies this
      ensures buf.Valid() && Current(buf) == Reject(old(Current(buf)), ID_TOO_LONG)
    {
      hide Buffer.Valid, Buffer.Contents;
      Send(ID_TOO_LONG);
      open := false;
    }

    /** Handles the request before place end of the buffer: answers it, or rejects it and shuts the connection. */
    method ServeLine(buf: Buffer, end: nat) returns (good: bool)
      requires buf.Valid() && buf.readerIndex <= end && end - buf.readerIndex + 2 <= |buf.Contents()|
      modifies this, buf
      ensures buf.Valid() && |buf.Contents()| < |old(buf.Contents())|
      ensures var s, i := old(Current(buf)), end - old(buf.readerIndex);
              var next := s.(rest := s.rest[i + 2..]);
              match Respond(solve, s.rest[..i])
              case None => !good && Current(buf) == Reject(next, BAD_REQUEST)
              case Some(answer) => good && Current(buf) == Say(next, answer)
    {
      hide LineEnd, Respond, Drain, Buffer.Valid, Buffer.Contents, Replied;
      var request := TakeLine(buf, end);
      good := ProcessRequest(request);
      if !good {
        Send(BAD_REQUEST);
        open := false;
      }
    }

    /** Takes the line before place end, and its CR LF, out of the buffer. */
    method TakeLine(buf: Buffer, end: nat) returns (request: seq<Byte>)
      requires buf.Valid() && buf.readerIndex <= end && end - buf.readerIndex + 2 <= |buf.Contents()|
      modifies buf
      ensures buf.Valid() && request == old(buf.Contents())[..end - old(buf.readerIndex)]
      ensures buf.Contents() == old(buf.Contents())[end - old(buf.readerIndex) + 2..]
    {
      hide Buffer.Valid, Buffer.Contents;
      buf.ContentsBefore(end);
      buf.ContentsBefore(end + 2);
      request := buf.buffer[buf.readerIndex..end];
      buf.RetrieveUntil(end + 2);
    }

    /** Answers a request if it is well formed. */
    method ProcessRequest(request: seq<Byte>) returns (good: bool)
      modifies this`out
      ensures good == Respond(solve, request).Some?
      ensures Replied(request, old(out), out, good)
      ensures out == if good && open then old(out) + [Respond(solve, request).value] else old(out)
    {
      var id: seq<Byte>, puzzle := [], request;
      var colon := 0;
      while colon < |request| && request[colon] != COLON
        invariant 0 <= colon <= |request| && forall j :: 0 <= j < colon ==> request[j] != COLON
      {
        colon := colon + 1;
      }
      assert colon == ColonAt(request);
      RespondIff(solve, request);
      if colon < |request| {
        id, puzzle := request[..colon], request[colon + 1..];
      }
      good := true;
      if |puzzle| == CELL_COUNT {
        var result := solve(puzzle);
        if id == [] {
          Send(result + CRLF);
        } else {
          Send(id + [COLON] + result + CRLF);
        }
      } else {
        good := false;
      }
    }
  }

  /** A connection served chunk by chunk, each appended to the input buffer before the handler runs: buffer,
      responses and connection are what the chunks make of a new session; with short lines the responses are
      those to the whole stream. */
  method Serve(solve: Solver, chunks: seq<seq<Byte>>) returns (server: SudokuServer, buf: Buffer)
    ensures server.solve == solve && buf.Valid() && server.Current(buf) == FeedAll(solve, NEW_SESSION, chunks)
    ensures ShortLines(solve, Join(chunks)) ==> server.out == Feed(solve, NEW_SESSION, Join(chunks)).out
  {
    hide Drain, ShortLines, LineEnd, Join;
    server := new SudokuServer(solve);
    buf := new Buffer();
    for i := 0 to |chunks|
      invariant fresh(server) && fresh(buf) && server.solve == solve && buf.Valid()
      invariant server.Current(buf) == FeedAll(solve, NEW_SESSION, chunks[..i])
    {
      assert chunks[..i + 1][..i] == chunks[..i];
      buf.Append(chunks[i]);
      server.OnMessage(buf);
    }
    assert chunks[..|chunks|] == chunks;
    if ShortLines(solve, Join(chunks)) {
      ChunkingIrrelevant(solve, chunks);
    }
  }
}

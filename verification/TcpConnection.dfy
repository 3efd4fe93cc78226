/** The output side of a connection: every payload goes to the kernel or waits, in order, in the buffer. */
module TcpConnections {
  import opened BigEndian
  import opened Buffers
  import opened Options
  import opened Prefixes

  datatype Status = Connecting | Connected | Disconnecting | Disconnected

  /** What write() answers: a number of bytes taken, or an error. */
  datatype WriteResult = Wrote(n: nat) | WouldBlock | BrokenPipe | OtherError

  datatype Callback = WriteComplete | HighWaterMark(size: nat)

  /** Which callbacks the user set, and the high-water mark. */
  datatype Setup = Setup(writeComplete: bool, highWater: bool, mark: nat)

  /** What another thread has handed to the loop thread. */
  datatype Posted = PostedSend(data: seq<Byte>) | PostedShutdown

  class TcpConnection {
    var status: Status
    const outputBuffer: Buffer
    const setup: Setup
    var queued: seq<Callback>            // callbacks handed to the loop
    var posted: seq<Posted>              // sends and shutdowns of other threads, waiting for their turn
    var writeShut: bool

    ghost var kernel: seq<Byte>          // the bytes the kernel took
    ghost var accepted: seq<Byte>        // the payloads of all sends neither refused nor dropped

    /** Nothing is lost, repeated or reordered between the sender and the kernel. */
    ghost predicate Valid()
      reads this, outputBuffer
    {
      outputBuffer.Valid() && kernel + outputBuffer.Contents() == accepted
    }

    ghost function View(): Stream
      requires outputBuffer.Valid()
      reads this, outputBuffer
    {
      Stream(status, outputBuffer.Contents(), kernel, posted, writeShut)
    }

    lemma ValidIs()
      ensures Valid() <==> outputBuffer.Valid() && kernel + outputBuffer.Contents() == accepted
      ensures outputBuffer.Valid() ==> View() == Stream(status, outputBuffer.Contents(), kernel, posted, writeShut)
    {
    }

    constructor (setup: Setup)
      ensures Valid() && this.setup == setup && fresh(outputBuffer) && View() == NEW_STREAM && accepted == []
              && queued == []
    {
      status := Connecting;
      outputBuffer := new Buffer();
      this.setup := setup;
      queued, posted := [], [];
      writeShut := false;
      kernel, accepted := [], [];
    }

    method ConnectEstablished()
      requires Valid() && status == Connecting
      modifies this`status
      ensures Valid() && status == Connected
    {
      status := Connected;
    }

    method HandleClose()
      requires Valid() && (status == Connected || status == Disconnecting)
      modifies this`status
      ensures Valid() && status == Disconnected
    {
      status := Disconnected;
    }

    /** Sends; refused unless the connection is up. Another thread hands its payload to the loop thread. */
    method Send(data: seq<Byte>, inLoop: bool, isWriting: bool, result: WriteResult)
      requires Valid() && (result.Wrote? ==> result.n <= |data|)
      modifies this`queued, this`posted, this`kernel, this`accepted, outputBuffer
      ensures Valid()
      ensures View() == if status != Connected then old(View())
                        else if inLoop then Sent(old(View()), data, isWriting, result)
                        else old(View()).(posted := old(posted) + [PostedSend(data)])
      ensures accepted == old(accepted) +
                if status == Connected && inLoop
                then Taken(status, isWriting, old(outputBuffer.Contents()), data, result) else []
      ensures queued == old(queued) +
                if status == Connected && inLoop
                then Announced(setup, status, isWriting, old(outputBuffer.Contents()), data, result) else []
    {
      if status == Connected {
        if inLoop {
          SendInLoop(data, isWriting, result);
        } else {
          posted := posted + [PostedSend(data)];
        }
      }
    }

    /** The loop thread runs what another thread handed over first. */
    method RunPosted(isWriting: bool, result: WriteResult)
      requires Valid() && posted != []
      requires posted[0].PostedSend? && result.Wrote? ==> result.n <= |posted[0].data|
      modifies this`queued, this`posted, this`kernel, this`accepted, this`writeShut, outputBuffer
      ensures Valid()
      ensures View() == Turn(old(View()), isWriting, result) && posted == old(posted)[1..]
      ensures old(posted)[0].PostedShutdown? ==> writeShut == (old(writeShut) || !isWriting)
      ensures accepted == old(accepted) +
                match old(posted[0])
                case PostedSend(data) => Taken(status, isWriting, old(outputBuffer.Contents()), data, result)
                case PostedShutdown => []
      ensures queued == old(queued) +
                match old(posted[0])
                case PostedSend(data) => Announced(setup, status, isWriting, old(outputBuffer.Contents()), data, result)
                case PostedShutdown => []
    {
      var first := posted[0];
      posted := posted[1..];
      match first {
        case PostedSend(data) =>
          SendInLoop(data, isWriting, result);
        case PostedShutdown =>
          ShutdownInLoop(isWriting);
      }
    }

    /** Writes what the kernel takes at once, if nothing is waiting, and queues the rest. isWriting is the
        channel's flag, which may be anything. */
    method SendInLoop(data: seq<Byte>, isWriting: bool, result: WriteResult)
      requires Valid() && (result.Wrote? ==> result.n <= |data|)
      modifies this`queued, this`kernel, this`accepted, outputBuffer
      ensures Valid()
      ensures accepted == old(accepted) + Taken(status, isWriting, old(outputBuffer.Contents()), data, result)
      ensures View() == Sent(old(View()), data, isWriting, result)
      ensures var direct := !isWriting && old(outputBuffer.Contents()) == [];
              var n := if direct && result.Wrote? then result.n else 0;
              if status == Disconnected || (direct && result.BrokenPipe?)
              then kernel == old(kernel) && outputBuffer.Contents() == old(outputBuffer.Contents())
              else kernel == old(kernel) + data[..n]
                   && outputBuffer.Contents() == old(outputBuffer.Contents()) + data[n..]
      ensures queued == old(queued) + Announced(setup, status, isWriting, old(outputBuffer.Contents()), data, result)
    {
      hide *;
      ValidIs();
      ghost var s, q := View(), queued;
      if status == Disconnected {
        NothingSent(setup, s, data, isWriting, result);
        return;
      }
      var nwrote, error := WriteNow(data, isWriting, result);
      BufferRest(data, nwrote, error);
      accepted := accepted + if error then [] else data;
      SentOutcome(setup, s, data, isWriting, result, nwrote, error, q, queued);
      ValidIs();
    }

    /** The first write, made when nothing is waiting: only a broken pipe drops the payload. */
    method WriteNow(data: seq<Byte>, isWriting: bool, result: WriteResult) returns (nwrote: nat, error: bool)
      requires outputBuffer.Valid() && (result.Wrote? ==> result.n <= |data|)
      modifies this`queued, this`kernel
      ensures var direct := !isWriting && outputBuffer.Contents() == [];
              && error == (direct && result.BrokenPipe?) && nwrote == (if direct && result.Wrote? then result.n else 0)
              && kernel == old(kernel) + data[..nwrote]
              && queued == old(queued) + Completion(setup, direct && result == Wrote(|data|))
    {
      hide Buffer.Valid, Buffer.Contents;
      nwrote, error := 0, false;
      if !isWriting && outputBuffer.ReadableBytes() == 0 {
        match result {
          case Wrote(n) =>
            nwrote := n;
            kernel := kernel + data[..n];
            if |data| - nwrote == 0 && setup.writeComplete {
              queued := queued + [WriteComplete];
            }
          case WouldBlock =>
          case BrokenPipe =>
            error := true;
          case OtherError =>
        }
      }
    }

    /** Queues what the kernel did not take, and announces when the queue reaches its high-water mark. */
    method BufferRest(data: seq<Byte>, nwrote: nat, error: bool)
      requires outputBuffer.Valid() && nwrote <= |data|
      modifies this`queued, outputBuffer
      ensures outputBuffer.Valid()
      ensures outputBuffer.Contents() == old(outputBuffer.Contents()) + if error then [] else data[nwrote..]
      ensures queued == old(queued) +
                var before := |old(outputBuffer.Contents())|;
                Crossing(setup, before, before + Rest(data, nwrote, error))
    {
      hide Buffer.Valid, Buffer.Contents;
      var remaining := |data| - nwrote;
      if !error && remaining > 0 {
        var oldLen := outputBuffer.ReadableBytes();
        if oldLen + remaining >= setup.mark && oldLen < setup.mark && setup.highWater {
          queued := queued + [HighWaterMark(oldLen + remaining)];
        }
        outputBuffer.Append(data[nwrote..]);
      }
    }

    /** Drains the buffer as far as the kernel takes it; once it is empty the channel stops writing, and a shutdown
        that had to wait is carried out. */
    method HandleWrite(isWriting: bool, result: WriteResult)
      requires Valid() && (result.Wrote? ==> result.n <= |outputBuffer.Contents()|)
      modifies this`queued, this`kernel, this`writeShut, outputBuffer
      ensures Valid()
      ensures View() == Drained(old(View()), isWriting, result)
      ensures if isWriting && result.Wrote? && result.n > 0
              then kernel == old(kernel) + old(outputBuffer.Contents())[..result.n]
                   && outputBuffer.Contents() == old(outputBuffer.Contents())[result.n..]
              else kernel == old(kernel) && outputBuffer.Contents() == old(outputBuffer.Contents())
      ensures var drained := isWriting && result.Wrote? && result.n > 0 && outputBuffer.Contents() == [];
              && queued == old(queued) + (if drained && setup.writeComplete then [WriteComplete] else [])
              && writeShut == (old(writeShut) || (drained && status == Disconnecting))
    {
      if isWriting {
        if result.Wrote? && result.n > 0 {
          kernel := kernel + outputBuffer.Contents()[..result.n];
          outputBuffer.Retrieve(result.n);
          if outputBuffer.ReadableBytes() == 0 {
            if setup.writeComplete {
              queued := queued + [WriteComplete];
            }
            if status == Disconnecting {
              ShutdownInLoop(false);
            }
          }
        }
      }
    }

    /** Ends sending; the write side is shut unless the channel is still writing. Another thread leaves that to the
        loop thread. */
    method Shutdown(inLoop: bool, isWriting: bool)
      requires Valid()
      modifies this`status, this`posted, this`writeShut
      ensures Valid()
      ensures View() == if old(status) != Connected then old(View())
                        else if inLoop then ShutStream(old(View()).(status := Disconnecting), isWriting)
                        else old(View()).(status := Disconnecting, posted := old(posted) + [PostedShutdown])
    {
      if status == Connected {
        status := Disconnecting;
        if inLoop {
          ShutdownInLoop(isWriting);
        } else {
          posted := posted + [PostedShutdown];
        }
      }
    }

    method ShutdownInLoop(isWriting: bool)
      modifies this`writeShut
      ensures writeShut == (old(writeShut) || !isWriting)
    {
      if !isWriting {
        writeShut := true;
      }
    }
  }

  // ---------- the stream ----------

  /** The part of a payload that will reach the kernel sooner or later: all of it, unless the connection is
      down or the first write finds the pipe broken. */
  ghost function Taken(status: Status, isWriting: bool, waiting: seq<Byte>, data: seq<Byte>,
                       result: WriteResult): seq<Byte> {
    if status == Disconnected || (!isWriting && waiting == [] && result.BrokenPipe?) then [] else data
  }

  /** The part of it that reaches the kernel at once. */
  ghost function Written(status: Status, isWriting: bool, waiting: seq<Byte>, data: seq<Byte>,
                         result: WriteResult): (w: seq<Byte>)
    requires result.Wrote? ==> result.n <= |data|
    ensures w <= Taken(status, isWriting, waiting, data, result)
  {
    if status != Disconnected && !isWriting && waiting == [] && result.Wrote? then data[..result.n] else []
  }

  lemma StreamStep(kernel: seq<Byte>, waiting: seq<Byte>, data: seq<Byte>, n: nat)
    requires n <= |data| && (waiting == [] || n == 0)
    ensures (kernel + data[..n]) + (waiting + data[n..]) == (kernel + waiting) + data
    ensures n == 0 ==> kernel + data[..n] == kernel
    ensures n == |data| ==> waiting + data[n..] == waiting
  {
  }

  /** The kernel took the whole payload at once. */
  ghost predicate AllTaken(status: Status, isWriting: bool, waiting: seq<Byte>, data: seq<Byte>, result: WriteResult) {
    status != Disconnected && !isWriting && waiting == [] && result == Wrote(|data|)
  }

  /** How many bytes are left after the first write. */
  function Rest(data: seq<Byte>, nwrote: nat, error: bool): nat
    requires nwrote <= |data|
  {
    if error then 0 else |data| - nwrote
  }

  ghost function Completion(u: Setup, all: bool): seq<Callback> {
    if all && u.writeComplete then [WriteComplete] else []
  }

  lemma NothingSent(u: Setup, s: Stream, data: seq<Byte>, isWriting: bool, result: WriteResult)
    requires s.status == Disconnected && (result.Wrote? ==> result.n <= |data|)
    ensures Sent(s, data, isWriting, result) == s && Taken(s.status, isWriting, s.waiting, data, result) == []
    ensures Announced(u, s.status, isWriting, s.waiting, data, result) == []
  {
  }

  /** The first write and the buffering of the rest together send a payload. */
  lemma SentOutcome(u: Setup, s: Stream, data: seq<Byte>, isWriting: bool, result: WriteResult,
                    nwrote: nat, error: bool, before: seq<Callback>, after: seq<Callback>)
    requires s.status != Disconnected && nwrote <= |data| && (result.Wrote? ==> result.n <= |data|)
    requires var direct := !isWriting && s.waiting == [];
             && error == (direct && result.BrokenPipe?) && nwrote == (if direct && result.Wrote? then result.n else 0)
             && after == before + Completion(u, direct && result == Wrote(|data|))
                                + Crossing(u, |s.waiting|, |s.waiting| + Rest(data, nwrote, error))
    ensures var taken := Taken(s.status, isWriting, s.waiting, data, result);
            && taken == (if error then [] else data)
            && Sent(s, data, isWriting, result) ==
                 s.(kernel := s.kernel + data[..nwrote], waiting := s.waiting + if error then [] else data[nwrote..])
            && Sent(s, data, isWriting, result).kernel + Sent(s, data, isWriting, result).waiting ==
                 (s.kernel + s.waiting) + taken
    ensures after == before + Announced(u, s.status, isWriting, s.waiting, data, result)
  {
    SentCases(s, data, isWriting, result);
    SentKeepsStream(s, data, isWriting, result);
    hide Sent, Taken;
  }

  /** What is announced when the queue grows from one length to another. */
  ghost function Crossing(u: Setup, before: nat, after: nat): seq<Callback> {
    if u.highWater && before < u.mark <= after then [HighWaterMark(after)] else []
  }

  /** What a send announces: that all is written if the kernel took all at once, else the crossing of the
      high-water mark by the bytes that now wait. */
  ghost function Announced(u: Setup, status: Status, isWriting: bool, waiting: seq<Byte>, data: seq<Byte>,
                           result: WriteResult): seq<Callback>
    requires result.Wrote? ==> result.n <= |data|
  {
    if AllTaken(status, isWriting, waiting, data, result) then (if u.writeComplete then [WriteComplete] else [])
    else Crossing(u, |waiting|, |waiting| + |Taken(status, isWriting, waiting, data, result)|
                                - |Written(status, isWriting, waiting, data, result)|)
  }

  lemma AnnouncedCases(u: Setup, status: Status, isWriting: bool, waiting: seq<Byte>, data: seq<Byte>,
                       result: WriteResult)
    requires result.Wrote? ==> result.n <= |data|
    ensures var direct, n := !isWriting && waiting == [], if result.Wrote? then result.n else 0;
            var first := if direct && result == Wrote(|data|) && u.writeComplete then [WriteComplete] else [];
            var rest := if direct then |data| - n else |data|;
            Announced(u, status, isWriting, waiting, data, result) ==
              if status == Disconnected then []
              else if (direct && result.BrokenPipe?) || rest == 0 then first
              else first + Crossing(u, |waiting|, |waiting| + rest)
    ensures WriteComplete in Announced(u, status, isWriting, waiting, data, result) <==>
              u.writeComplete && status != Disconnected && !isWriting && waiting == [] && result == Wrote(|data|)
  {
  }

  /** The output side as a value: what waits in the buffer, what the kernel took, what other threads handed over. */
  datatype Stream = Stream(
    status: Status, waiting: seq<Byte>, kernel: seq<Byte>, posted: seq<Posted>, writeShut: bool)

  const NEW_STREAM := Stream(Connecting, [], [], [], false)

  ghost function Sent(s: Stream, data: seq<Byte>, isWriting: bool, result: WriteResult): Stream
    requires result.Wrote? ==> result.n <= |data|
  {
    var taken := Taken(s.status, isWriting, s.waiting, data, result);
    var now := Written(s.status, isWriting, s.waiting, data, result);
    s.(kernel := s.kernel + now, waiting := s.waiting + taken[|now|..])
  }

  lemma SentCases(s: Stream, data: seq<Byte>, isWriting: bool, result: WriteResult)
    requires result.Wrote? ==> result.n <= |data|
    ensures var direct := !isWriting && s.waiting == [];
            var n := if direct && result.Wrote? then result.n else 0;
            var taken := Taken(s.status, isWriting, s.waiting, data, result);
            if s.status == Disconnected || (direct && result.BrokenPipe?)
            then taken == [] && Sent(s, data, isWriting, result) == s
            else taken == data
                 && Sent(s, data, isWriting, result) ==
                      s.(kernel := s.kernel + data[..n], waiting := s.waiting + data[n..])
  {
  }

  ghost function ShutStream(s: Stream, isWriting: bool): Stream {
    s.(writeShut := s.writeShut || !isWriting)
  }

  ghost function Turn(s: Stream, isWriting: bool, result: WriteResult): Stream
    requires s.posted != [] && (s.posted[0].PostedSend? && result.Wrote? ==> result.n <= |s.posted[0].data|)
  {
    var rest := s.(posted := s.posted[1..]);
    match s.posted[0]
    case PostedSend(data) => Sent(rest, data, isWriting, result)
    case PostedShutdown => ShutStream(rest, isWriting)
  }

  ghost function Drained(s: Stream, isWriting: bool, result: WriteResult): Stream
    requires result.Wrote? ==> result.n <= |s.waiting|
  {
    if isWriting && result.Wrote? && result.n > 0 then
      s.(kernel := s.kernel + s.waiting[..result.n], waiting := s.waiting[result.n..],
         writeShut := s.writeShut || (result.n == |s.waiting| && s.status == Disconnecting))
    else s
  }

  // ---------- all runs ----------

  /** What users, other threads, the loop and the network do to a connection. isWriting is the channel's flag at
      that moment, result what write() answers; both may be anything. */
  datatype Op =
    | OpEstablish
    | OpSend(data: seq<Byte>, inLoop: bool, isWriting: bool, result: WriteResult)
    | OpTurn(isWriting: bool, result: WriteResult)
    | OpWritable(isWriting: bool, result: WriteResult)
    | OpShutdown(inLoop: bool, isWriting: bool)
    | OpClose

  /** Whether an operation can come next: the assertions on the status hold, there is something to run, and write()
      takes no more than it is given. */
  ghost predicate Possible(s: Stream, op: Op) {
    match op
    case OpEstablish => s.status == Connecting
    case OpSend(data, _, _, result) => result.Wrote? ==> result.n <= |data|
    case OpTurn(_, result) =>
      s.posted != [] && (s.posted[0].PostedSend? && result.Wrote? ==> result.n <= |s.posted[0].data|)
    case OpWritable(_, result) => result.Wrote? ==> result.n <= |s.waiting|
    case OpShutdown(_, _) => true
    case OpClose => s.status == Connected || s.status == Disconnecting
  }

  ghost function Next(s: Stream, op: Op): Stream
    requires Possible(s, op)
  {
    match op
    case OpEstablish => s.(status := Connected)
    case OpSend(data, inLoop, isWriting, result) =>
      if s.status != Connected then s
      else if inLoop then Sent(s, data, isWriting, result)
      else s.(posted := s.posted + [PostedSend(data)])
    case OpTurn(isWriting, result) => Turn(s, isWriting, result)
    case OpWritable(isWriting, result) => Drained(s, isWriting, result)
    case OpShutdown(inLoop, isWriting) =>
      if s.status != Connected then s
      else if inLoop then ShutStream(s.(status := Disconnecting), isWriting)
      else s.(status := Disconnecting, posted := s.posted + [PostedShutdown])
    case OpClose => s.(status := Disconnected)
  }

  /** The state after a sequence of operations, if each of them was possible in turn. */
  ghost function After(ops: seq<Op>): Option<Stream> {
    if ops == [] then Some(NEW_STREAM) else
    match After(ops[..|ops| - 1])
    case None => None
    case Some(s) => if Possible(s, ops[|ops| - 1]) then Some(Next(s, ops[|ops| - 1])) else None
  }

  /** The payload an operation adds to the stream: that of a send whose turn it is, unless the send is refused (not
      connected when called, disconnected at its turn) or dropped whole (broken pipe on the direct write). */
  ghost function Payload(s: Stream, op: Op): seq<Byte>
    requires Possible(s, op)
  {
    match op
    case OpSend(data, inLoop, isWriting, result) =>
      if s.status == Connected && inLoop && !(!isWriting && s.waiting == [] && result.BrokenPipe?) then data else []
    case OpTurn(isWriting, result) =>
      if s.posted[0].PostedSend? && s.status != Disconnected && !(!isWriting && s.waiting == [] && result.BrokenPipe?)
      then s.posted[0].data else []
    case _ => []
  }

  ghost function Payloads(ops: seq<Op>): (parts: seq<seq<Byte>>)
    requires After(ops).Some?
    ensures |parts| == |ops|
  {
    if ops == [] then [] else
    Payloads(ops[..|ops| - 1]) + [Payload(After(ops[..|ops| - 1]).value, ops[|ops| - 1])]
  }

  /** The callbacks a step queues. */
  ghost function Announces(u: Setup, s: Stream, op: Op): seq<Callback>
    requires Possible(s, op)
  {
    match op
    case OpSend(data, inLoop, isWriting, result) =>
      if s.status == Connected && inLoop then Announced(u, s.status, isWriting, s.waiting, data, result) else []
    case OpTurn(isWriting, result) =>
      if s.posted[0].PostedSend? then Announced(u, s.status, isWriting, s.waiting, s.posted[0].data, result) else []
    case OpWritable(isWriting, result) =>
      if isWriting && result.Wrote? && result.n > 0 && result.n == |s.waiting| && u.writeComplete
          then [WriteComplete] else []
    case _ => []
  }

  ghost function Callbacks(u: Setup, ops: seq<Op>): seq<Callback>
    requires After(ops).Some?
  {
    if ops == [] then [] else
    Callbacks(u, ops[..|ops| - 1]) + Announces(u, After(ops[..|ops| - 1]).value, ops[|ops| - 1])
  }

  /** In every run, whenever write-complete is queued nothing waits in the buffer. */
  lemma CompleteOnlyWhenEmpty(u: Setup, ops: seq<Op>)
    requires After(ops).Some? && ops != []
    requires WriteComplete in Callbacks(u, ops)[|Callbacks(u, ops[..|ops| - 1])|..]
    ensures After(ops).value.waiting == []
  {
    hide *;
    AfterStep(u, ops);
    AnnouncesWhenEmpty(u, After(ops[..|ops| - 1]).value, ops[|ops| - 1]);
  }

  lemma AfterStep(u: Setup, ops: seq<Op>)
    requires After(ops).Some? && ops != []
    ensures var front, op := ops[..|ops| - 1], ops[|ops| - 1];
            && After(front).Some? && Possible(After(front).value, op)
            && After(ops) == Some(Next(After(front).value, op))
            && Callbacks(u, ops) == Callbacks(u, front) + Announces(u, After(front).value, op)
            && Callbacks(u, ops)[|Callbacks(u, front)|..] == Announces(u, After(front).value, op)
  {
    hide Next, Possible, Announces;
    AppendSplits(Callbacks(u, ops[..|ops| - 1]), Announces(u, After(ops[..|ops| - 1]).value, ops[|ops| - 1]));
  }

  lemma AnnouncesWhenEmpty(u: Setup, s: Stream, op: Op)
    requires Possible(s, op) && WriteComplete in Announces(u, s, op)
    ensures Next(s, op).waiting == []
  {
    match op {
      case OpSend(data, _, isWriting, result) =>
        AnnouncedCases(u, s.status, isWriting, s.waiting, data, result);
        SentCases(s, data, isWriting, result);
      case OpTurn(isWriting, result) =>
        AnnouncedCases(u, s.status, isWriting, s.waiting, s.posted[0].data, result);
        SentCases(s, s.posted[0].data, isWriting, result);
      case _ =>
    }
  }

  ghost function Concat(parts: seq<seq<Byte>>): seq<Byte> {
    if parts == [] then [] else Concat(parts[..|parts| - 1]) + parts[|parts| - 1]
  }

  lemma StepKeepsStream(s: Stream, op: Op)
    requires Possible(s, op)
    ensures Next(s, op).kernel + Next(s, op).waiting == (s.kernel + s.waiting) + Payload(s, op)
    ensures s.kernel <= Next(s, op).kernel
  {
    match op {
      case OpSend(data, inLoop, isWriting, result) =>
        if s.status == Connected && inLoop {
          SentKeepsStream(s, data, isWriting, result);
        }
      case OpTurn(isWriting, result) =>
        if s.posted[0].PostedSend? {
          SentKeepsStream(s, s.posted[0].data, isWriting, result);
        }
      case OpWritable(isWriting, result) =>
        if result.Wrote? {
          assert s.waiting == s.waiting[..result.n] + s.waiting[result.n..];
        }
      case _ =>
    }
  }

  lemma SentKeepsStream(s: Stream, data: seq<Byte>, isWriting: bool, result: WriteResult)
    requires result.Wrote? ==> result.n <= |data|
    ensures var t := Sent(s, data, isWriting, result);
            t.kernel + t.waiting == (s.kernel + s.waiting) + Taken(s.status, isWriting, s.waiting, data, result)
  {
    var taken := Taken(s.status, isWriting, s.waiting, data, result);
    StreamStep(s.kernel, s.waiting, taken, |Written(s.status, isWriting, s.waiting, data, result)|);
  }

  /** After every run, with any write results and flags: what the kernel took, followed by what waits, is the
      concatenation of the payloads neither refused nor dropped, in the order of their turns. */
  lemma {:induction false} StreamKept(ops: seq<Op>)
    requires After(ops).Some?
    ensures var s := After(ops).value; s.kernel + s.waiting == Concat(Payloads(ops))
  {
    if ops != [] {
      var front, op := ops[..|ops| - 1], ops[|ops| - 1];
      StreamKept(front);
      StepKeepsStream(After(front).value, op);
      assert Payloads(ops)[..|ops| - 1] == Payloads(front);
    }
  }

  // ---------- how much, and when ----------

  /** The bytes write() reports taken in a step: by the direct write of a send whose turn it is, or by a drain. */
  ghost function Reported(s: Stream, op: Op): nat
    requires Possible(s, op)
  {
    match op
    case OpSend(data, inLoop, isWriting, result) =>
      if s.status == Connected && inLoop && !isWriting && s.waiting == [] && result.Wrote? then result.n else 0
    case OpTurn(isWriting, result) =>
      if s.posted[0].PostedSend? && s.status != Disconnected && !isWriting && s.waiting == [] && result.Wrote?
      then result.n else 0
    case OpWritable(isWriting, result) => if isWriting && result.Wrote? then result.n else 0
    case _ => 0
  }

  ghost function AllReported(ops: seq<Op>): nat
    requires After(ops).Some?
  {
    if ops == [] then 0 else
    AllReported(ops[..|ops| - 1]) + Reported(After(ops[..|ops| - 1]).value, ops[|ops| - 1])
  }

  lemma StepCounts(s: Stream, op: Op)
    requires Possible(s, op)
    ensures |Next(s, op).kernel| == |s.kernel| + Reported(s, op)
  {
    match op {
      case OpSend(data, _, isWriting, result) => SentCases(s, data, isWriting, result);
      case OpTurn(isWriting, result) =>
        if s.posted[0].PostedSend? {
          SentCases(s.(posted := s.posted[1..]), s.posted[0].data, isWriting, result);
        }
      case _ =>
    }
  }

  /** In every run the kernel holds exactly as many bytes as write() reported, so the rest of the stream waits. */
  lemma {:induction false} KernelCounts(ops: seq<Op>)
    requires After(ops).Some?
    ensures |After(ops).value.kernel| == AllReported(ops) <= |Concat(Payloads(ops))|
    ensures After(ops).value.kernel == Concat(Payloads(ops))[..AllReported(ops)]
    ensures After(ops).value.waiting == Concat(Payloads(ops))[AllReported(ops)..]
  {
    hide Next, Possible, Reported, Payloads, Concat;
    CountedKernel(ops);
    StreamKept(ops);
    AppendSplits(After(ops).value.kernel, After(ops).value.waiting);
  }

  lemma {:induction false} CountedKernel(ops: seq<Op>)
    requires After(ops).Some?
    ensures |After(ops).value.kernel| == AllReported(ops)
  {
    hide Next, Possible, Reported;
    if ops != [] {
      CountedKernel(ops[..|ops| - 1]);
      StepCounts(After(ops[..|ops| - 1]).value, ops[|ops| - 1]);
    }
  }

  /** The write side is shut in a step: by a shutdown while the channel does not write, whosever turn it is, or by the
      drain that empties the buffer of a connection being shut down. */
  ghost predicate HalfCloses(s: Stream, op: Op)
    requires Possible(s, op)
  {
    match op
    case OpShutdown(inLoop, isWriting) => s.status == Connected && inLoop && !isWriting
    case OpTurn(isWriting, result) => s.posted[0] == PostedShutdown && !isWriting
    case OpWritable(isWriting, result) =>
      isWriting && result.Wrote? && result.n > 0 && result.n == |s.waiting| && s.status == Disconnecting
    case _ => false
  }

  lemma StepHalfCloses(s: Stream, op: Op)
    requires Possible(s, op)
    ensures Next(s, op).writeShut <==> s.writeShut || HalfCloses(s, op)
  {
  }

  /** In every run the write side is shut if and only if some step shut it. */
  lemma {:induction false} HalfClosedIff(ops: seq<Op>)
    requires After(ops).Some?
    ensures After(ops).value.writeShut <==>
            exists k :: 0 <= k < |ops| && After(ops[..k]).Some? && Possible(After(ops[..k]).value, ops[k])
                        && HalfCloses(After(ops[..k]).value, ops[k])
  {
    hide Next, Possible, HalfCloses;
    if ops != [] {
      var n := |ops| - 1;
      HalfClosedIff(ops[..n]);
      StepHalfCloses(After(ops[..n]).value, ops[n]);
      assert forall k :: 0 <= k < n ==> ops[..n][..k] == ops[..k] && ops[..n][k] == ops[k];
    }
  }

  /** A step queues the high-water callback exactly when the user set it and the step takes the waiting bytes from
      below the mark to the mark or above, and names their number then. */
  lemma HighWaterIff(u: Setup, s: Stream, op: Op, size: nat)
    requires Possible(s, op)
    ensures HighWaterMark(size) in Announces(u, s, op) <==>
            u.highWater && size == |Next(s, op).waiting| && |s.waiting| < u.mark <= size
  {
    match op {
      case OpSend(data, _, isWriting, result) => SendHighWater(u, s, data, isWriting, result, size);
      case OpTurn(isWriting, result) =>
        if s.posted[0].PostedSend? {
          SendHighWater(u, s.(posted := s.posted[1..]), s.posted[0].data, isWriting, result, size);
        }
      case _ =>
    }
  }

  lemma SendHighWater(u: Setup, s: Stream, data: seq<Byte>, isWriting: bool, result: WriteResult, size: nat)
    requires result.Wrote? ==> result.n <= |data|
    ensures HighWaterMark(size) in Announced(u, s.status, isWriting, s.waiting, data, result) <==>
            u.highWater && size == |Sent(s, data, isWriting, result).waiting| && |s.waiting| < u.mark <= size
  {
    SentCases(s, data, isWriting, result);
    AnnouncedCases(u, s.status, isWriting, s.waiting, data, result);
  }

  /** A step queues write-complete exactly when the user set it and the step's write leaves nothing waiting. */
  lemma CompleteIff(u: Setup, s: Stream, op: Op)
    requires Possible(s, op)
    ensures WriteComplete in Announces(u, s, op) <==>
            u.writeComplete && Next(s, op).waiting == [] && WriteSucceeds(s, op)
  {
    match op {
      case OpSend(data, _, isWriting, result) => SendCompletes(u, s, data, isWriting, result);
      case OpTurn(isWriting, result) =>
        if s.posted[0].PostedSend? {
          SendCompletes(u, s.(posted := s.posted[1..]), s.posted[0].data, isWriting, result);
        }
      case _ =>
    }
  }

  lemma SendCompletes(u: Setup, s: Stream, data: seq<Byte>, isWriting: bool, result: WriteResult)
    requires result.Wrote? ==> result.n <= |data|
    ensures WriteComplete in Announced(u, s.status, isWriting, s.waiting, data, result) <==>
            u.writeComplete && Sent(s, data, isWriting, result).waiting == []
            && s.status != Disconnected && !isWriting && s.waiting == [] && result.Wrote?
  {
    hide *;
    SentCases(s, data, isWriting, result);
    AnnouncedCases(u, s.status, isWriting, s.waiting, data, result);
  }

  /** write() is called in a step and reports no error; a drain has to take something. */
  ghost predicate WriteSucceeds(s: Stream, op: Op)
    requires Possible(s, op)
  {
    match op
    case OpSend(data, inLoop, isWriting, result) =>
      s.status == Connected && inLoop && !isWriting && s.waiting == [] && result.Wrote?
    case OpTurn(isWriting, result) =>
      s.posted[0].PostedSend? && s.status != Disconnected && !isWriting && s.waiting == [] && result.Wrote?
    case OpWritable(isWriting, result) => isWriting && result.Wrote? && result.n > 0
    case _ => false
  }

  lemma {:induction false} PossibleBefore(ops: seq<Op>, i: nat)
    requires After(ops).Some? && i <= |ops|
    ensures After(ops[..i]).Some?
  {
    if i == |ops| {
      assert ops[..i] == ops;
    } else {
      PossibleBefore(ops[..|ops| - 1], i);
      assert ops[..|ops| - 1][..i] == ops[..i];
    }
  }

  /** The connection itself, after every run: its kernel and buffer bytes are the concatenated payloads, and the
      callbacks queued are those of the run. */
  method Run(ops: seq<Op>, setup: Setup) returns (c: TcpConnection)
    requires After(ops).Some?
    ensures c.Valid() && c.View() == After(ops).value && c.queued == Callbacks(setup, ops)
    ensures c.kernel + c.outputBuffer.Contents() == Concat(Payloads(ops))
  {
    hide *;
    c := new TcpConnection(setup);
    PrefixEnds(ops);
    NoOps(setup);
    for i := 0 to |ops|
      invariant c.Valid() && c.outputBuffer.Valid() && fresh(c) && fresh(c.outputBuffer) && c.setup == setup
      invariant After(ops[..i]) == Some(c.View()) && c.queued == Callbacks(setup, ops[..i])
    {
      PossibleBefore(ops, i + 1);
      PrefixStep(ops, i);
      AfterStep(setup, ops[..i + 1]);
      Apply(c, ops[i]);
    }
    StreamKept(ops);
    c.ValidIs();
  }

  lemma NoOps(u: Setup)
    ensures After([]) == Some(NEW_STREAM) && Callbacks(u, []) == []
  {
  }

  method Apply(c: TcpConnection, op: Op)
    requires c.Valid() && c.outputBuffer.Valid() && Possible(c.View(), op)
    modifies c, c.outputBuffer
    ensures c.Valid() && c.outputBuffer.Valid() && c.View() == Next(old(c.View()), op)
    ensures c.queued == old(c.queued) + Announces(c.setup, old(c.View()), op)
  {
    hide TcpConnection.Valid, Sent, Turn, Announced, Taken, Buffer.Valid, Buffer.Contents;
    c.ValidIs();
    match op {
      case OpEstablish => c.ConnectEstablished();
      case OpSend(data, inLoop, isWriting, result) => c.Send(data, inLoop, isWriting, result);
      case OpTurn(isWriting, result) => c.RunPosted(isWriting, result);
      case OpWritable(isWriting, result) => c.HandleWrite(isWriting, result);
      case OpShutdown(inLoop, isWriting) => c.Shutdown(inLoop, isWriting);
      case OpClose => c.HandleClose();
    }
    c.ValidIs();
  }
}

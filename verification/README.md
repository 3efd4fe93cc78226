# Verified models of lotus

This project models the stateful core of the lotus network library and of its sudoku server in Dafny, and
proves properties of the models for all inputs, all runs and all interleavings.

* **Sudoku solver** (`Links`, `Matrices`, `Covering`, `CoverWalk`, `ExactCovers`, `SearchWalk`, `SudokuRules`,
  `SudokuTexts`, `Encoding`, `GrowingArena`, `BoardMatrix`, `GrowingBoardMatrix`, `SudokuSolver`). The dancing-links
  solver works in place on one array of nodes, as the original does. A ghost `Matrix` holds the fixed facts (which node lies in
  which row and column). `Rep` says that the arena links exactly the active headers and exactly the alive nodes;
  `Reduced` says that the alive nodes are those of the rows still possible. Covering is specified as a sequence
  of link operations on the value of the arena, which is why uncovering can be shown to restore every field.
  The search is proved sound and complete for exact covers of any matrix, the constructor is proved to build the
  matrix of the board, and its exact covers are proved to correspond one to one to the completions of the board.
* **Timer queue** (`TimerPlan`, `TimerQueue`). A min-heap of deadlines with back-pointers, removal from the middle,
  expiry batches whose callbacks add and cancel timers at will, and the arming of the timerfd. A `Plan` is the queue
  without its heap, as a function of everything that happened; `Shows` says that a queue stands for a plan.
* **Buffer and connection output** (`BigEndian`, `Buffer`, `TcpConnection`). A byte queue over a vector that
  grows or compacts, integers in network order, and the split of a stream between kernel and buffer.
* **Concurrent protocols** (`EventLoop`, `ThreadPool`). The functor queue with its eventfd, and the bounded task
  queue with two condition variables, as step relations over all interleavings.
* **Request framing** (`Framing`, `SudokuService`). The handler's loop over the input buffer against a specification
  that consumes the stream line by line, the exact condition under which chunking is invisible, and what the
  responses say when the solver keeps the contract of `SolveSudoku`.

Each file holds one module; `Labels`, `Options` and `Prefixes` are small helpers. In-place code is modelled by
classes whose methods are proved against functions of the old state; `solve` and `cover` are split into a few
methods along the lines of their loops, with the same statements in the same order. Ghost parameters carry the
matrix and the sets of active columns and alive nodes.

Where the code falls short of what one would expect, the models follow the code:

* A deadline already reached when it is armed gets no wake-up, because the time left is not clamped (`LateTimer`).
  That way a repeating timer whose batch outlasts its interval has no wake-up of its own any more (`SlowBatch`);
  `InTimeThroughoutIff` gives the exact condition over whole runs.
* A functor queued by the loop thread before `loop()` is not followed by a wake-up (`OneEarlyPush`);
  `NeverSleepsIff` gives the exact condition on what happens before `loop()`.
* A request of 100 bytes or more is judged by its content when it arrives whole, but rejected as too long when more
  than 100 of its bytes are there without their line end (`LongLineExample`); `ChunkingIrrelevantIff` gives the
  exact condition under which the cutting of a stream is invisible.

Results of system calls (`write`, `readv`, the clock, the firing of the timerfd) are parameters or arbitrary
values. `freed`, `canceled`, `ran`, `kernel`, `accepted`, `peak`, `matrix` and `title` exist for the proofs only;
`live` and `made` are the handles users hold.

## Model

| member | source | states |
|---|---|---|
| DancingLinks.SolveSudoku | lotus_project/examples/sudoku/sudoku.cc:260-288 | For every text of 81 characters: if all are digits and some text of the digits 1 to 9 keeps every character but 0 and has no digit twice in a row, a column or a block, the result is such a text; else it is "NoSolution" |
| SudokuTexts.SolvableIff | lotus_project/examples/sudoku/sudoku.cc:266-284 | A board of digits has a completion by the rules iff its text has a solution in characters |
| SudokuTexts.SolvesIff | lotus_project/examples/sudoku/sudoku.cc:266-284 | A text solves a puzzle iff its digits complete the puzzle's digits |
| DancingLinks.SudokuSolver.Solve | lotus_project/examples/sudoku/sudoku.cc:92-130 | True iff the active columns have an exact cover; then the stack is extended by one node per row of that cover and the board holds the stack's cells and digits; when false, every field of every node, the stack and the board are as before; terminates |
| DancingLinks.SudokuSolver.TryRow | lotus_project/examples/sudoku/sudoku.cc:116-126 | True iff an exact cover with the chosen row exists, found then; when false the row is ruled out and every field of every node, the stack and the board are as before |
| DancingLinks.SudokuSolver.constructor | lotus_project/examples/sudoku/sudoku.cc:30-90 | The arena represents exactly the exact-cover matrix of the board, with no arena or column-index overflow and no failing assertion on the way |
| DancingLinks.SudokuSolver.Cover | lotus_project/examples/sudoku/sudoku.cc:215-226 | Unlinks the header and drops, once each, the other nodes of all rows through it: the arena is the specified covered state |
| DancingLinks.SudokuSolver.Uncover | lotus_project/examples/sudoku/sudoku.cc:228-239 | Undoes the cover made last: every field of every node is what it was before it |
| DancingLinks.SudokuSolver.CoverOthers | lotus_project/examples/sudoku/sudoku.cc:117-119 | Covers the other columns of a chosen row, left to right |
| DancingLinks.SudokuSolver.UncoverOthers | lotus_project/examples/sudoku/sudoku.cc:124-126 | Undoes all covers of a chosen row, right to left, node for node |
| DancingLinks.SudokuSolver.DropRow | lotus_project/examples/sudoku/sudoku.cc:220-224 | Drops the other nodes of one row of the covered column |
| DancingLinks.SudokuSolver.RestoreRow | lotus_project/examples/sudoku/sudoku.cc:231-235 | Restores them in reverse order to the state before |
| DancingLinks.SudokuSolver.GetMinColumn | lotus_project/examples/sudoku/sudoku.cc:198-213 | Returns an active column, of size at most 1 or of minimum size among all active columns |
| DancingLinks.SudokuSolver.WriteBoard | lotus_project/examples/sudoku/sudoku.cc:95-109 | The board becomes the old one with every chosen row's digit written into its cell |
| DancingLinks.SudokuSolver.ReadRow | lotus_project/examples/sudoku/sudoku.cc:96-106 | From any node of a row the walk ends and yields the row's cell and digit |
| DancingLinks.SudokuSolver.NewColumn | lotus_project/examples/sudoku/sudoku.cc:141-153 | A self-linked node, the next of the arena |
| DancingLinks.SudokuSolver.AppendColumn | lotus_project/examples/sudoku/sudoku.cc:155-162 | The named column joins the ring of headers; index and headers stay inverse to each other |
| DancingLinks.SudokuSolver.NewRow | lotus_project/examples/sudoku/sudoku.cc:164-181 | A node at the bottom of the column of its name, whose size grows by one |
| DancingLinks.SudokuSolver.PutLeft | lotus_project/examples/sudoku/sudoku.cc:241-247 | Inserts a node to the left of another |
| DancingLinks.SudokuSolver.PutUp | lotus_project/examples/sudoku/sudoku.cc:249-257 | Inserts a node at the bottom of a column and counts it |
| DancingLinks.SudokuSolver.GivenDigits | lotus_project/examples/sudoku/sudoku.cc:40-52 | The three tables mark exactly the digits given in each row, column and box |
| DancingLinks.SudokuSolver.AppendCellColumns | lotus_project/examples/sudoku/sudoku.cc:54-58 | One header per empty cell and no other |
| DancingLinks.SudokuSolver.AppendUnitColumns | lotus_project/examples/sudoku/sudoku.cc:60-69 | One header per digit missing from a unit and no other; at most 325 nodes used |
| DancingLinks.SudokuSolver.AppendRows | lotus_project/examples/sudoku/sudoku.cc:71-89 | Exactly the candidate rows, each with its four nodes; the arena suffices |
| DancingLinks.SudokuSolver.AppendRow | lotus_project/examples/sudoku/sudoku.cc:79-85 | One more candidate row carries the matrix from bound r to r + 1 |
| Links.RelinkUndoesUnlink | lotus_project/examples/sudoku/sudoku.cc:217-238 | Relinking a node that was properly linked undoes its unlinking, field by field |
| Links.UnlinkRing | lotus_project/examples/sudoku/sudoku.cc:221-222 | Unlinking a member leaves the ring of the others, in order |
| Links.InsertRing | lotus_project/examples/sudoku/sudoku.cc:241-257 | Inserting before the head appends to the ring |
| Matrices.DropRep | lotus_project/examples/sudoku/sudoku.cc:221-223 | Dropping a node leaves a proper representation without it, sizes equal to column lengths |
| Matrices.RestoreUndoesDrop | lotus_project/examples/sudoku/sudoku.cc:232-234 | Restoring a dropped node undoes the drop, size included |
| Covering.DroppedFacts | lotus_project/examples/sudoku/sudoku.cc:219-225 | In a reduced matrix covering drops each node of another live row exactly once and none of its own column |
| Covering.PartlyCovered | lotus_project/examples/sudoku/sudoku.cc:219-225 | Half-way through a cover the arena is still a proper representation and the column being covered is intact |
| Covering.CoveredReduces | lotus_project/examples/sudoku/sudoku.cc:215-226 | Covering a column of a reduced matrix represents the matrix reduced by that column: rings hold exactly the live rows, sizes are column lengths |
| CoverWalk.NodeStep | lotus_project/examples/sudoku/sudoku.cc:220-235 | Each turn of the inner loops drops the next node, and the reverse turn undoes it |
| SearchWalk.ChooseRow | lotus_project/examples/sudoku/sudoku.cc:114-119 | Choosing a row leads to the matrix reduced by exactly that row's columns, with strictly fewer columns active |
| SearchWalk.AllRuledOut | lotus_project/examples/sudoku/sudoku.cc:115-129 | If no row of the column belongs to an exact cover there is none |
| SearchWalk.RootStop | lotus_project/examples/sudoku/sudoku.cc:94 | The root points to itself iff no column is active |
| ExactCovers.SomeRowCovers | lotus_project/examples/sudoku/sudoku.cc:113-115 | Every exact cover contains a live row of any given active column |
| ExactCovers.CoverWithoutRow | lotus_project/examples/sudoku/sudoku.cc:115-122 | An exact cover minus one of its rows exactly covers the columns left |
| ExactCovers.CoverWithRow | lotus_project/examples/sudoku/sudoku.cc:115-122 | A live row and an exact cover of the columns it leaves make an exact cover |
| ExactCovers.FoundWithRow | lotus_project/examples/sudoku/sudoku.cc:116-122 | A search result below a chosen row is a search result with it, one distinct row per stack entry |
| GrowingArena.WholeRepresents | lotus_project/examples/sudoku/sudoku.cc:30-90 | A completely built arena is a proper starting point for the search |
| GrowingArena.AddHeaderWhole | lotus_project/examples/sudoku/sudoku.cc:155-162 | Appending a header keeps the arena complete |
| GrowingArena.RowEnd | lotus_project/examples/sudoku/sudoku.cc:79-85 | Four nodes appended to their columns and joined left to right complete the arena with one more row |
| SudokuRules.NoRepeatsIffEveryDigit | lotus_project/examples/sudoku/sudoku.cc:60-69 | A filled board repeats no digit in a unit iff every unit holds every digit (counting) |
| Encoding.CoverCompletes | lotus_project/examples/sudoku/sudoku.cc:40-89 | Filling a board from an exact cover of its problem completes it, and the cover can be read back; so a board repeating a given has none |
| Encoding.CompletionCovers | lotus_project/examples/sudoku/sudoku.cc:40-89 | The rows a completion chooses are an exact cover, from which the completion can be read back |
| BoardMatrix.CoverOfMatrixIsCover | lotus_project/examples/sudoku/sudoku.cc:54-89 | Exact covers of the built matrix are exact covers of the board's problem |
| BoardMatrix.CoverIsCoverOfMatrix | lotus_project/examples/sudoku/sudoku.cc:54-89 | ... and conversely |
| BoardMatrix.FoundCompletes | lotus_project/examples/sudoku/sudoku.cc:94-111 | Writing a found stack into the board completes it |
| BoardMatrix.NoCoverNoCompletion | lotus_project/examples/sudoku/sudoku.cc:128-129 | A failed search means no completion exists |
| BoardMatrix.MatrixLabelled | lotus_project/examples/sudoku/sudoku.cc:96-106 | Every row of the built matrix shows its cell and its digit, consistently |
| TimerQueues.Timer.constructor | lotus_project/lotus/net/Timer.cc:19-26 | A timer repeats iff its interval is positive, and starts outside the heap |
| TimerQueues.Timer.Restart | lotus_project/lotus/net/Timer.cc:9-17 | A repeating timer is due one interval after now |
| TimerQueues.TimerQueue.constructor | lotus_project/lotus/net/TimerQueue.cc:85-95 | An empty queue, nothing armed |
| TimerQueues.TimerQueue.SwapHeap | lotus_project/lotus/net/TimerQueue.cc:303-310 | Exchanges two entries and keeps every back-pointer right |
| TimerQueues.TimerQueue.UpHeap | lotus_project/lotus/net/TimerQueue.cc:277-286 | From an order broken upwards at one place: a min-heap of the same entries, back-pointers right; the root changes iff the moved entry is strictly earlier |
| TimerQueues.TimerQueue.DownHeap | lotus_project/lotus/net/TimerQueue.cc:288-301 | The same for an order broken downwards |
| TimerQueues.TimerQueue.Insert | lotus_project/lotus/net/TimerQueue.cc:129-148 | Adds exactly the one entry to a valid heap; true iff the new timer ends at the root |
| TimerQueues.TimerQueue.RemoveTimer | lotus_project/lotus/net/TimerQueue.cc:176-198 | Removes exactly the timer's entry from anywhere in a valid heap; its index becomes -1 |
| TimerQueues.TimerQueue.LiveOnce | lotus_project/lotus/net/TimerQueue.cc:129-198 | In a settled queue every live timer stands in the heap exactly once, at its index, under its deadline |
| TimerQueues.TimerQueue.GetExpired | lotus_project/lotus/net/TimerQueue.cc:224-235 | Takes out exactly the timers due by now, in nondecreasing order of deadline; all others are later; terminates |
| TimerQueues.TimerQueue.ResetTimerfd | lotus_project/lotus/net/TimerQueue.cc:36-74 | Arms the timerfd for exactly the deadline if it lies ahead, disarms it if it is now, and leaves it if it is past |
| TimerQueues.TimerQueue.AddTimer | lotus_project/lotus/net/TimerQueue.cc:106-127 | Creates a timer; on the loop thread it is added, with the exact effect on the timerfd, and from another thread it is only handed over |
| TimerQueues.TimerQueue.AddPosted | lotus_project/lotus/net/TimerQueue.cc:106-127 | The loop thread adds the first timer handed over, and arms the timerfd for exactly its deadline if it is the earliest and ahead |
| TimerQueues.TimerQueue.AddTimerInLoop | lotus_project/lotus/net/TimerQueue.cc:116-127 | Adds exactly the one entry; if the timerfd was armed in time, it still is iff the timer is not the earliest, or its deadline lies ahead, or is past under an earlier arming |
| TimerQueues.TimerQueue.CancelInLoop | lotus_project/lotus/net/TimerQueue.cc:157-174 | A pending timer is removed and freed at once, one of the running batch is noted; the timerfd stays armed in time |
| TimerQueues.TimerQueue.RunCallback | lotus_project/lotus/net/TimerQueue.cc:213-217 | Whatever adds and cancels of live timers a callback makes, every live timer is in the heap or in the batch, the cancelled timers of the batch are exactly those noted, exactly the other cancelled timers are freed, and the queue stands for the plan after those actions |
| TimerQueues.TimerQueue.RunBatch | lotus_project/lotus/net/TimerQueue.cc:213-217 | Runs each timer of the batch once, in order, each callback following its script, and keeps the account of what was cancelled and freed |
| TimerQueues.TimerQueue.EndOne | lotus_project/lotus/net/TimerQueue.cc:241-257 | Restarts and reinserts a repeating timer not cancelled, frees any other |
| TimerQueues.TimerQueue.RestartAll | lotus_project/lotus/net/TimerQueue.cc:241-257 | Reinserts exactly the repeating timers of the batch not cancelled, due one interval after now, and frees exactly the others |
| TimerQueues.TimerQueue.Reset | lotus_project/lotus/net/TimerQueue.cc:237-275 | Reinserts exactly the repeating timers of the batch not cancelled, frees exactly the others, and arms the timerfd for exactly the first deadline if that is ahead; armed in time afterwards under exactly the stated condition |
| TimerQueues.TimerQueue.HandleRead | lotus_project/lotus/net/TimerQueue.cc:201-222 | For any callbacks: each due timer runs exactly once, in deadline order; the timers freed are exactly those cancelled during the batch and the one-shot timers of the batch; those of the batch that live on are due one interval after now, all others keep their deadline; every live timer is back in the heap, none of them ever cancelled; the timerfd is armed in time iff the end of the batch covers the first deadline |
| TimerPlans.RearmedInTime | lotus_project/lotus/net/TimerQueue.cc:36-74 | A deadline is covered by its arming iff it lies ahead, or is rejected as past while an earlier arming stands |
| TimerPlans.StepInTime | lotus_project/lotus/net/TimerQueue.cc:116-275 | A step from a timerfd armed in time leaves it so iff it covers the deadline it arms for |
| TimerPlans.FireInTime | lotus_project/lotus/net/TimerQueue.cc:201-275 | A batch leaves the timerfd armed in time iff it covers the first deadline at its end, whatever was before |
| TimerPlans.BatchMends | lotus_project/lotus/net/TimerQueue.cc:201-275 | After any run, however late its timerfd, a batch that covers the first deadline at its end leaves it armed in time |
| TimerPlans.InTimeThroughoutIff | lotus_project/lotus/net/TimerQueue.cc:106-275 | In every run the timerfd is armed in time at every point iff each step covers the deadline it arms for |
| TimerPlans.StepArms | lotus_project/lotus/net/TimerQueue.cc:106-275 | A step leaves the timerfd as it was or arms it for the deadline d of an earliest timer it adds, or of the first timer at the end of a batch, and then to exactly d |
| TimerPlans.ArmedForADeadline | lotus_project/lotus/net/TimerQueue.cc:106-275 | In every run, if the timerfd is armed it is for a deadline that some step armed it for, so it never fires before one |
| TimerPlans.RanCreates | lotus_project/lotus/net/TimerQueue.cc:213-217 | The callbacks of a batch create exactly the timers of their scripts, in order |
| TimerPlans.ActedAllCancels | lotus_project/lotus/net/TimerQueue.cc:157-174 | A list of actions cancels exactly the timers that are live when named |
| TimerPlans.LateDeadlineIsLost | lotus_project/lotus/net/TimerQueue.cc:36-74 | One timer due at 5 and added at clock 7 is not covered |
| TimerQueues.LateTimer | lotus_project/lotus/net/TimerQueue.cc:106-127 | The queue itself after that addition: the timer is in the heap, the timerfd is not armed in time |
| TimerPlans.SlowBatchIsLost | lotus_project/lotus/net/TimerQueue.cc:201-275 | A timer due at 5 every 1, whose batch of time 5 ends at clock 7, lives on, due at 6, with the timerfd disarmed |
| TimerQueues.SlowBatch | lotus_project/lotus/net/TimerQueue.cc:201-275 | The queue itself after that batch: the repeating timer is in the heap and nothing will fire |
| TimerQueues.SiftUpStep | lotus_project/lotus/net/TimerQueue.cc:280-285 | One exchange upwards moves the only breach of order to the parent |
| TimerQueues.SiftDownStep | lotus_project/lotus/net/TimerQueue.cc:291-300 | One exchange with the smaller child moves the only breach downwards |
| TimerQueues.RemovedOrder | lotus_project/lotus/net/TimerQueue.cc:187-193 | Moving the last entry into a hole breaks the order there only, and the comparison made tells in which direction |
| TimerQueues.RootIsLeast | lotus_project/lotus/net/TimerQueue.cc:227 | The root of a heap is its minimum |
| TimerQueues.Run | lotus_project/lotus/net/TimerQueue.cc:106-275 | After every sequence of adds and cancels, additions for other threads, and batches with any callbacks: every live timer is in the heap once, under the deadline the sequence gives it, exactly the others are freed or waiting to be added, and the timerfd is armed as the sequence says; in time if each step covered its deadline |
| Buffers.Buffer.constructor | lotus_project/lotus/net/Buffer.h:45-53 | Empty, 1024 writable and 8 prependable bytes |
| Buffers.Buffer.Retrieve | lotus_project/lotus/net/Buffer.h:93-104 | Drops a prefix of the content; the window goes back to the front once it is empty |
| Buffers.Buffer.RetrieveAll | lotus_project/lotus/net/Buffer.h:128-132 | Drops the content |
| Buffers.Buffer.RetrieveUntil | lotus_project/lotus/net/Buffer.h:106-111 | Drops the content before a place |
| Buffers.Buffer.RetrieveAsString | lotus_project/lotus/net/Buffer.h:139-145 | Returns and drops a prefix |
| Buffers.Buffer.FindCRLF | lotus_project/lotus/net/Buffer.h:76-80 | The first CR LF of the content, or none if there is none |
| Buffers.Buffer.CopyDown | lotus_project/lotus/net/Buffer.h:324-326 | The overlapping forward copy moves the bytes intact |
| Buffers.Buffer.MakeSpace | lotus_project/lotus/net/Buffer.h:312-331 | Makes the room asked for, by growing or compacting, with the content intact, the new window stated exactly and no failing assertion |
| Buffers.Buffer.EnsureWritableBytes | lotus_project/lotus/net/Buffer.h:170-177 | Room for len bytes, content intact, the new window stated exactly, and how far the vector may grow |
| Buffers.Buffer.Append | lotus_project/lotus/net/Buffer.h:157-162 | Appends to the content; keeps the bound on the vector |
| Buffers.Buffer.Prepend | lotus_project/lotus/net/Buffer.h:280-286 | Prepends to the content; keeps the bound on the vector |
| Buffers.Buffer.Swap | lotus_project/lotus/net/Buffer.h:57-62 | Exchanges two contents |
| Buffers.Buffer.Shrink | lotus_project/lotus/net/Buffer.h:289-296 | Content intact in a vector of exactly the size asked for |
| Buffers.Buffer.ReadFd | lotus_project/lotus/net/Buffer.cc:28-60 | Everything the descriptor delivers is appended in order, across the vector and the stack buffer; nothing changes on failure; keeps the bound on the vector |
| Buffers.Buffer.AppendInt | lotus_project/lotus/net/Buffer.h:191-206 | Appends the big-endian encoding |
| Buffers.Buffer.PeekInt | lotus_project/lotus/net/Buffer.h:237-258 | Decodes the first bytes, sign included |
| Buffers.Buffer.ReadInt | lotus_project/lotus/net/Buffer.h:212-231 | Decodes and drops them |
| Buffers.Buffer.PrependInt | lotus_project/lotus/net/Buffer.h:263-278 | Prepends the encoding; keeps the bound on the vector |
| BigEndian.DecodeEncode | lotus_project/lotus/net/Buffer.h:191-258 | Decoding undoes encoding for every signed value that fits the width |
| BigEndian.OneByte | lotus_project/lotus/net/Buffer.h:203-206 | A value from -128 to 127 is its low byte |
| BigEndian.TwoBytes | lotus_project/lotus/net/Buffer.h:197-201 | A value from -32768 to 32767 is x / 256 and x, each modulo 256 |
| BigEndian.FourBytes | lotus_project/lotus/net/Buffer.h:191-195 | A value of 32 bits is x / 2^24, x / 2^16, x / 2^8 and x, each modulo 256 |
| BigEndian.ReadsAppended | lotus_project/lotus/net/Buffer.h:191-258 | Values of mixed widths come back in the order appended, whatever follows them |
| BigEndian.ReadsPrepended | lotus_project/lotus/net/Buffer.h:212-286 | Prepended values come back in reverse order, before everything else |
| Buffers.AppendThenRead | lotus_project/lotus/net/Buffer.h:191-258 | The same through a real buffer, across growth and compaction |
| Buffers.PrependThenRead | lotus_project/lotus/net/Buffer.h:212-286 | Integers prepended to a real buffer as far as they fit come back in reverse order, and what stood behind them is untouched |
| Buffers.Run | lotus_project/lotus/net/Buffer.h:93-331 | For every sequence of appends, prepends, retrieves, reads and shrinks that keeps to the assertions: the content is the plain byte queue of the sequence, and the vector is at most max(1032, 2 * peak + 7), peak being the largest length of that queue, or that plus the reserve at a shrink |
| Buffers.PeakIsLargest | lotus_project/lotus/net/Buffer.h:93-331 | The peak is the largest length ever held, or asked for by a shrink |
| TcpConnections.TcpConnection.Send | lotus_project/lotus/net/TcpConnection.cc:139-195 | Refused without any effect unless connected; on the loop thread exactly as SendInLoop, from another thread handed to the loop thread |
| TcpConnections.TcpConnection.RunPosted | lotus_project/lotus/net/TcpConnection.cc:147-190 | A send or shutdown handed over takes its turn, under the status it then finds, and queues exactly the callbacks of such a send |
| TcpConnections.TcpConnection.SendInLoop | lotus_project/lotus/net/TcpConnection.cc:204-265 | The payload is taken whole or dropped whole (disconnected, or broken pipe on the direct write); exactly the n bytes that a direct write took go to the kernel and the rest to the end of the buffer; kernel bytes followed by buffered bytes stay the stream sent; write-complete is queued exactly when the kernel took all at once, and then nothing waits; the high-water mark exactly when crossed |
| TcpConnections.TcpConnection.WriteNow | lotus_project/lotus/net/TcpConnection.cc:220-245 | Writes only when nothing waits, and only a broken pipe drops the payload |
| TcpConnections.TcpConnection.BufferRest | lotus_project/lotus/net/TcpConnection.cc:248-263 | Queues the rest and announces the crossing of the high-water mark |
| TcpConnections.TcpConnection.HandleWrite | lotus_project/lotus/net/TcpConnection.cc:268-307 | Exactly the n bytes that write() took move from the front of the buffer to the kernel; write-complete is queued, and the half-close of a pending shutdown made, exactly when that empties the buffer |
| TcpConnections.TcpConnection.Shutdown | lotus_project/lotus/net/TcpConnection.cc:309-318 | Disconnecting from connected only; on the loop thread half-closes unless the channel is writing, from another thread leaves that to the loop thread |
| TcpConnections.TcpConnection.ShutdownInLoop | lotus_project/lotus/net/TcpConnection.cc:320-328 | Half-closes unless the channel is writing |
| TcpConnections.TcpConnection.HandleClose | lotus_project/lotus/net/TcpConnection.cc:112-118 | Disconnected |
| TcpConnections.StreamStep | lotus_project/lotus/net/TcpConnection.cc:222-259 | Splitting a payload between kernel and buffer keeps the stream, given that nothing waits before a direct write |
| TcpConnections.StreamKept | lotus_project/lotus/net/TcpConnection.cc:139-328 | After every sequence of sends and shutdowns from any thread, turns, drains and close, with any write results and writing flags: kernel bytes followed by waiting bytes are the concatenation of the payloads neither refused nor dropped, in the order of their turns |
| TcpConnections.Run | lotus_project/lotus/net/TcpConnection.cc:139-328 | The connection itself is in that state after the sequence, so its kernel and buffer bytes are that concatenation, and exactly the callbacks of its steps are queued |
| TcpConnections.CompleteOnlyWhenEmpty | lotus_project/lotus/net/TcpConnection.cc:222-294 | In every run, from whatever thread the send came, write-complete is queued only at a moment when nothing waits in the buffer |
| TcpConnections.KernelCounts | lotus_project/lotus/net/TcpConnection.cc:222-278 | In every run the kernel holds exactly as many bytes as write() reported, so it holds that prefix of the stream and the rest waits |
| TcpConnections.HalfClosedIff | lotus_project/lotus/net/TcpConnection.cc:289-328 | In every run the write side is shut iff some step shut it: a shutdown, whosever turn it was, while the channel did not write, or the drain that emptied the buffer of a connection being shut down |
| TcpConnections.HighWaterIff | lotus_project/lotus/net/TcpConnection.cc:248-258 | A step queues the high-water callback iff it takes the waiting bytes from below the mark to the mark or above, and names their number |
| TcpConnections.CompleteIff | lotus_project/lotus/net/TcpConnection.cc:222-294 | A step queues write-complete iff its write succeeds and leaves nothing waiting |
| EventLoops.StepKeepsOrder | lotus_project/lotus/net/EventLoop.cc:135-194 | Every step keeps executed ++ rest of batch ++ pending equal to what was pushed |
| EventLoops.StepKeepsWakeUp | lotus_project/lotus/net/EventLoop.cc:88-194 | Every step keeps: work or a late request to quit implies a wake-up there or coming |
| EventLoops.ExecutedInOrder | lotus_project/lotus/net/EventLoop.cc:135-194 | In every interleaving functors run in queue order, exactly once |
| EventLoops.RunInQueueOrder | lotus_project/lotus/net/EventLoop.cc:135-194 | In every interleaving the functors run so far are the first ones queued, as many as were run |
| EventLoops.RunFacts | lotus_project/lotus/net/EventLoop.cc:88-194 | In every interleaving quit_ is set iff somebody asked, the eventfd counts the writes since it was read, and a thread is between push and write iff it has not written since |
| EventLoops.NeverSleepsOnWork | lotus_project/lotus/net/EventLoop.cc:88-194 | In every interleaving that is harmless before loop(): when the loop is about to block with functors queued or quit set, the eventfd is readable or a thread is between its push (or store) and its write |
| EventLoops.StopsOnlyWhenAsked | lotus_project/lotus/net/EventLoop.cc:88-116 | In every interleaving the loop has ended only if somebody asked it to quit |
| EventLoops.TestEndsIff | lotus_project/lotus/net/EventLoop.cc:88 | A test of quit_ ends the loop iff somebody asked it to quit, and else leads to the poll |
| EventLoops.OthersMayAct | lotus_project/lotus/net/EventLoop.cc:135-170 | Another thread may push or ask to quit at any time it owes no write, and write exactly when it owes one |
| EventLoops.EverythingCanRun | lotus_project/lotus/net/EventLoop.cc:88-194 | In every interleaving that is harmless before loop(), once no wake-up is outstanding and nobody asked to quit, the loop thread by itself, woken by nothing but the eventfd, can go on to run everything queued |
| EventLoops.NeverSleepsIff | lotus_project/lotus/net/EventLoop.cc:88-194 | No interleaving after given events before loop() blocks the loop on its work iff the loop thread queued nothing then, or another thread queued something, or somebody asked to quit |
| EventLoops.EarlyPushSleeps | lotus_project/lotus/net/EventLoop.cc:135-145 | After any other events before loop() the loop goes to sleep on its work at once |
| EventLoops.OneEarlyPush | lotus_project/lotus/net/EventLoop.cc:135-145 | The shortest such run: one functor queued by the loop thread |
| ThreadPools.StepKeepsConsistent | lotus_project/lotus/net/Threadpool.cc:52-99 | Every step keeps the bound, and taken ++ queued equal to submitted |
| ThreadPools.BlockedTaskKept | lotus_project/lotus/net/Threadpool.cc:52-75 | A producer blocked by a full queue keeps its task until that very task is queued |
| ThreadPools.StepKeepsWorkers | lotus_project/lotus/net/Threadpool.cc:52-99 | Every step keeps: a sleeping worker means no more tasks than woken workers |
| ThreadPools.StepKeepsProducers | lotus_project/lotus/net/Threadpool.cc:52-99 | Every step keeps: a sleeping producer means no more free places than woken producers |
| ThreadPools.NoWakeUpLost | lotus_project/lotus/net/Threadpool.cc:37-104 | All of this in every interleaving, with spurious wake-ups and with stop |
| ThreadPools.WorkConserving | lotus_project/lotus/net/Threadpool.cc:52-99 | With nobody on the way, no worker sleeps beside a task and no producer beside a free place |
| ThreadPools.StopWakesAll | lotus_project/lotus/net/Threadpool.cc:37-50 | In every interleaving the pool runs until it is stopped, and from then on no worker sleeps |
| ThreadPools.TakeStep | lotus_project/lotus/net/Threadpool.cc:77-99 | A worker takes the front task and wakes one producer of a bounded queue; without a task it sleeps unless the pool was stopped |
| ThreadPools.RunStep | lotus_project/lotus/net/Threadpool.cc:52-75 | A producer queues its task at the end and wakes one worker; it waits iff the queue is full |
| ThreadPools.QueueCanDrain | lotus_project/lotus/net/Threadpool.cc:77-99 | In every interleaving a worker that is not asleep can go on to take everything submitted, in order |
| Framing.SudokuServer.OnMessage | lotus_project/examples/sudoku/server_basic.cc:52-88 | The handler's loop does to buffer, responses and connection exactly what the specified drain does |
| Framing.SudokuServer.ProcessRequest | lotus_project/examples/sudoku/server_basic.cc:90-127 | Answers exactly the requests of 81 characters without a colon, and those of an id, a colon and 81 characters, with the id and its colon in front unless the id is empty |
| Framing.RespondIff | lotus_project/examples/sudoku/server_basic.cc:90-127 | The same for every request: which are answered, and with what |
| Framing.FirstLine | lotus_project/examples/sudoku/server_basic.cc:56-62 | What comes before the first CR LF of a stream is its first line |
| Framing.AnswerIsNotBadRequest | lotus_project/examples/sudoku/server_basic.cc:68-71 | No answer reads like the bad-request rejection |
| Framing.AnswerIsNotRejection | lotus_project/examples/sudoku/server_basic.cc:68-80 | No answer reads like the id-too-long rejection |
| Framing.ClosedStays | lotus_project/examples/sudoku/server_basic.cc:68-80 | After the first rejection nothing more is sent |
| Framing.DrainPrefix | lotus_project/examples/sudoku/server_basic.cc:52-88 | With short lines, handling a prefix first makes no difference |
| Framing.ChunkingIrrelevant | lotus_project/examples/sudoku/server_basic.cc:52-88 | With short lines the responses and the bytes left do not depend on how the stream is cut |
| Framing.LongLineDiffers | lotus_project/examples/sudoku/server_basic.cc:75-80 | A longer line makes two cuttings answer differently |
| Framing.ChunkingIrrelevantIff | lotus_project/examples/sudoku/server_basic.cc:52-88 | The responses are the same for every cutting iff, up to and including the first rejected request, no line is longer than 99 bytes |
| Framing.LongLineExample | lotus_project/examples/sudoku/server_basic.cc:52-88 | A well-formed request of 100 bytes is answered when it arrives whole and rejected as too long when its last byte comes later |
| Framing.Serve | lotus_project/examples/sudoku/server_basic.cc:52-88 | The handler on a real buffer, chunk by chunk, does what the chunks specify; with short lines its responses are those to the whole stream |
| SudokuService.SolverHasShape | lotus_project/examples/sudoku/sudoku.cc:260-288 | A solver with the contract of SolveSudoku answers in the two lengths the framing relies on |
| SudokuService.DrainResponds | lotus_project/examples/sudoku/server_basic.cc:52-127 | With such a solver response i is the id of line i followed by a completion of its puzzle, or "NoSolution" if there is none, or it is the rejection that closes the connection |
| SudokuService.ServedCorrectly | lotus_project/examples/sudoku/server_basic.cc:52-127 | The same for the responses to a stream with short lines, however it is cut |
| SudokuService.DrainSays | lotus_project/examples/sudoku/server_basic.cc:52-88 | A drain answers each leading well-formed line, and then rejects the next line if it is there with 83 bytes or more, or more than 100 bytes without a line end, and says nothing else; the connection stays open iff nothing is rejected |
| SudokuService.ServedExactly | lotus_project/examples/sudoku/server_basic.cc:52-127 | Exactly these are the responses to a stream with short lines, however it is cut: every well-formed line fully received before the first bad one is answered rightly, and "Bad Request!" is sent only for a line that is not well formed |
| SudokuService.MessageTexts | lotus_project/examples/sudoku/server_basic.cc:70-78 | The texts of the two rejections |

## Left out

- Undefined behaviour of C++: allocation failure, and integer overflow of sizes, indices, time points and the eventfd counter; these are unbounded here.
- Cancels by other threads: at their turn they are cancels on the loop thread. Handles name live timers only (the code never compares the sequence number), so handles to timers freed or still to be added are excluded. What another thread adds while a batch runs is taken to come before or after the batch.
- TimerQueues.TimerQueue.RunCallback: callbacks do not re-enter handleRead, and their effects outside the queue are not modelled.
- The registration of handleWrite as write callback, and the event masks of Channel and Epoll: the constructor registers no write callback, so handleWrite is treated as the intended drain step and the writing flag may be anything.
- Half-closing only after the buffer is drained: not promised by the code, since shutdown looks at the writing flag alone.
- Data races on the connection status: another thread's test of it is one step.
- The wake-ups of producers at stop, and tasks still queued then: workers leave without draining the queue and notFull_ is not notified.
- Tasks run in place when the pool has no threads.
- Exceptions and effects of functors and tasks, beyond queuing further functors.
- Framing.Respond: takes the solver as a function from text to text, so that one request always gets one answer; SudokuService assumes of it what SolveSudoku ensures.
- The other three sudoku servers, TcpServer, TcpClient, Connector, Acceptor, sockets, UDP classes, logging and thread start-up.

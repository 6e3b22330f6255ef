# xv6 console line discipline in Dafny

This project models the input side of the kernel console in
`kernel/console.c`:

- the `cons` queue: a 128-byte circular buffer with three `uint` cursors
  `r` (read), `w` (committed) and `e` (edit);
- the interrupt handler `consoleintr`, which edits the line being typed:
  - Ctrl-H and DEL erase one byte;
  - Ctrl-U kills the line;
  - Ctrl-W and Ctrl-S navigate the history;
  - Ctrl-P dumps the process list;
  - any other byte is appended, with carriage return stored as newline,
    and commits the line on newline, Ctrl-D or a full queue;
- the reader `consoleread`, which drains committed bytes to the caller,
  frames end of file with Ctrl-D, stops after a newline, and writes every
  delivered byte into the five-row history ring `history_buf` at
  `history_buf[history_index][word_index]`;
- the echo of `consputc`, as the bytes it would transmit.

The model follows the code as written:
- history is written by the reader, not when a line is committed;
- Ctrl-W and Ctrl-S move the same `history_index` that the reader writes into;
- recalling a line only echoes its bytes and never puts them into the queue.

Files:

- `uint32.dfy` (module `Uint32`): C `uint` arithmetic for the cursors. `x++`, `x--` and `a - b` wrap modulo 2^32. The slot a cursor names is the cursor modulo 128, which survives the wrap because 128 divides 2^32.
- `line_queue.dfy` (module `LineQueue`): the `cons` queue as a value. It views the queue as the bytes [r, e), split into committed bytes [r, w) and editable bytes [w, e). It defines the append, backspace and kill-line edits and proves what each does to those views.
- `history.dfy` (module `History`): the history globals as a value. It covers recording a byte, ending a line, navigating, and what a recall echoes.
- `line_discipline.dfy` (module `LineDiscipline`): the whole state.
  - `Intr` is one call of `consoleintr`.
  - `DrainStep` and `Drain` are one iteration and the whole drain loop of `consoleread`; `Read` is one call of it.
  - It also proves the cursor invariant, FIFO delivery, end-of-file framing and the history updates.
- `console.dfy` (module `Console`): class `Console`.
  - It holds the buffer as an `array`, the cursors as fields, and `history_buf` as a 5 x 128 `array2`, and updates them in place.
  - Its methods `Intr` and `Read`, and the loops inside them, are proved to produce exactly the state and output of the value-level functions.
  - Its `Valid()` includes the invariant every reachable state keeps.

Calls that leave this code are inputs:
- `killed(myproc())` is a boolean parameter;
- `either_copyout` is the parameter `copyLimit`: the copy of the k-th byte of a call succeeds exactly when k < `copyLimit`.

A reader that would sleep ends with the outcome `Suspended(delivered)`.

## Model

| member | source | states |
|---|---|---|
| Uint32.Inc | kernel/console.c:115 | `x++` on a `uint` cursor (`r++` here, `e++` at line 217): one more, wrapping from 2^32 - 1 to 0 |
| Uint32.Dec | kernel/console.c:179 | `x--` on a `uint` cursor (`e--` here and at line 186, `r--` at line 121): one less, wrapping from 0 to 2^32 - 1 |
| Uint32.Sub | kernel/console.c:210 | `e - r` on `uint`s: how far the first cursor lies ahead of the second around the 2^32 circle, never negative |
| LineQueue.PutC | kernel/console.c:34-43 | `consputc`'s echo, with no `ensures` of its own: `BACKSPACE` sends backspace, space, backspace, any other byte is sent as is. The echo clauses of `AppendSpec`, `BackspaceSpec`, `KillLineSpec` and `RecallSpec` are stated in its terms |
| LineQueue.Append | kernel/console.c:209-226 | the default branch of `consoleintr`, with no `ensures` of its own. `AppendSpec`, `CommitRule` and `AppendKeepsLineInv` specify it |
| LineQueue.Backspace | kernel/console.c:183-189 | the Ctrl-H/DEL branch, with no `ensures` of its own. `BackspaceSpec`, `BackspaceUndoesAppend` and `BackspaceKeepsLineInv` specify it |
| LineQueue.KillLine | kernel/console.c:176-182 | the Ctrl-U loop as a recursion on `e - w`, with no `ensures` of its own. `KillLineSpec` and `KillLineClears` specify it |
| LineQueue.QueuePush | kernel/console.c:217 | storing at slot `e % 128` and incrementing `e` appends the byte to the queue and leaves every queued byte in place, across the 2^32 wrap |
| LineQueue.QueueDrop | kernel/console.c:115 | advancing `r` by k committed bytes keeps the invariant, drops exactly the first k queued and committed bytes, and leaves the editable bytes as they were |
| LineQueue.LastEditable | kernel/console.c:178 | the slot `(e-1) % 128` holds the last editable byte |
| LineQueue.AppendSpec | kernel/console.c:209-217 | a byte is stored only if it is not 0 and `e - r < 128`. Then it is appended as LF if it was CR, echoed, `e` grows by one, `r` stays, and no other slot of `buf` changes. Otherwise nothing changes and nothing is echoed |
| LineQueue.CommitRule | kernel/console.c:219-224 | after an append, `w` equals `e` exactly when the stored byte is LF or Ctrl-D or the queue holds 128 bytes. The whole queue is then committed; otherwise `w` and the committed bytes are unchanged and the byte joins the editable bytes |
| LineQueue.AppendKeepsLineInv | kernel/console.c:209-224 | an append keeps `r <= w <= e`, `e - r <= 128`, and no LF or Ctrl-D in [w, e) |
| LineQueue.BackspaceSpec | kernel/console.c:183-189 | with `e != w`, `e` goes back by exactly one and one erasure is echoed, dropping the last editable byte. With `e == w` nothing changes. `buf`, `r`, `w` and the committed bytes are never changed |
| LineQueue.BackspaceUndoesAppend | kernel/console.c:183-189 | a backspace after a non-committing append restores the cursors and the queue |
| LineQueue.BackspaceKeepsLineInv | kernel/console.c:183-189 | backspace keeps the line invariant |
| LineQueue.TrimToNewline | kernel/console.c:177-178 | the kill-line stopping point: the longest prefix that is empty or ends in LF, with no LF in the part removed |
| LineQueue.KillLineSpec | kernel/console.c:176-182 | Ctrl-U terminates. It erases the editable bytes after the last LF among them, echoing one erasure per byte. It never moves `e` below `w` and never changes `buf`, `r`, `w` or the committed bytes |
| LineQueue.KillLineClears | kernel/console.c:176-182 | with the line invariant, Ctrl-U ends with `e == w` and keeps the invariant |
| History.Record | kernel/console.c:134-135 | one history write at `[history_index][word_index]` and the column increment, with no `ensures` of its own; its precondition `word_index < 128` is where the source's write stays inside the row. `RecordKeepsInv` and `RecordAllSpec` specify it |
| History.EndLine | kernel/console.c:137-143 | the end-of-line update, with no `ensures` of its own. `EndLineSpec` specifies it |
| History.Navigate | kernel/console.c:191-207 | the index update of Ctrl-W and Ctrl-S, with no `ensures` of its own. `NavigateInverse` specifies it |
| History.RecordAll | kernel/console.c:134-135 | recording bytes one by one keeps the ring well formed, keeps slot and count, and moves `word_index` by their number |
| History.RecordKeepsInv | kernel/console.c:134-135 | one history write keeps the ring well formed |
| History.RecordAllSpec | kernel/console.c:134-135 | the recorded bytes land in columns [word_index, word_index + k) of row `history_index`, and no other cell changes |
| History.EndLineSpec | kernel/console.c:137-143 | on LF, `word_index` becomes 0, `history_index` moves to the next slot mod 5, `history_count` becomes min(count + 1, 5), and the rows are untouched |
| History.NavigateInverse | kernel/console.c:191-207 | Ctrl-W and Ctrl-S move `history_index` one slot back or forward mod 5, only when `history_count > 0`. Each undoes the other. Nothing but the slot index changes |
| History.LineOf | kernel/console.c:195-196 | what a recall echoes is the row's bytes before its first LF, or the whole row if it has no LF |
| History.LineOfUnique | kernel/console.c:195-196 | those three properties determine the recalled bytes |
| LineDiscipline.Intr | kernel/console.c:163-230 | `consoleintr`: the dispatch on Ctrl-P, Ctrl-U, Ctrl-H/DEL, Ctrl-W/Ctrl-S and the default append. It has no `ensures` of its own. `IntrKeepsGood`, `RecallSpec` and the branch lemmas of `LineQueue` specify it, and `Console.Console.Intr` is proved equal to it |
| LineDiscipline.IntrKeepsGood | kernel/console.c:172-227 | every byte the interrupt handler receives keeps the cursor invariant, no LF or Ctrl-D in [w, e), and the ring's well-formedness |
| LineDiscipline.RecallSpec | kernel/console.c:191-207 | Ctrl-W and Ctrl-S leave `cons` unchanged and move only `history_index`. They echo the new slot's bytes up to its LF and insert nothing into the queue. With `history_count == 0` they do nothing. The opposite key restores the state |
| LineDiscipline.FullQueueCommits | kernel/console.c:219-224 | typing the 128th byte commits the whole queue without a newline |
| LineDiscipline.DrainStep | kernel/console.c:104-148 | an iteration that goes on has delivered exactly one more byte |
| LineDiscipline.StepSpec | kernel/console.c:107-148 | one loop iteration in terms of the committed bytes. With none left it gives -1 if killed, else sleeps. A leading Ctrl-D ends the read: consumed when first, left in place after data. A failed copy ends the read with the byte consumed. A column past the row is an overrun. A LF is delivered, recorded and ends the line. Any other byte is delivered, recorded, and the loop goes on |
| LineDiscipline.StepContinue | kernel/console.c:115-135 | an iteration that goes on delivered and recorded the oldest committed byte, which is neither LF nor Ctrl-D |
| LineDiscipline.StepStop | kernel/console.c:107-147 | an iteration that ends the call delivered nothing more, or one byte that is not Ctrl-D and is LF unless the history write overran |
| LineDiscipline.StepOrdinary | kernel/console.c:115-135 | an ordinary byte at the front is delivered and recorded, and the loop goes on |
| LineDiscipline.StepNewline | kernel/console.c:137-147 | a LF at the front is delivered, recorded, and ends the call after moving to the next history slot |
| LineDiscipline.StepEofAfterData | kernel/console.c:117-123 | a Ctrl-D after data is put back (`r--`) and the call returns the count so far |
| LineDiscipline.DrainEofAfterData | kernel/console.c:117-123 | the same, for the whole drain loop |
| LineDiscipline.DrainNewline | kernel/console.c:137-147 | a LF at the front ends the drain loop at once |
| LineDiscipline.Drain | kernel/console.c:104-149 | the drain loop, iterating `DrainStep` while `n > 0`, with no `ensures` of its own. `DrainGrows`, `DrainCursor`, `DrainFifo`, `DrainOutcome` and `DrainHistory` specify it |
| LineDiscipline.Read | kernel/console.c:91-154 | `consoleread`: nothing for `n <= 0`, otherwise the drain loop from no delivered bytes. It has no `ensures` of its own. `ReadKeepsGood`, `ReadLine`, `ReadEofFirst`, `EofFraming`, `ReadWhenEmpty` and the `Drain*` lemmas specify it, and `Console.Console.Read` is proved equal to it |
| LineDiscipline.DrainGrows | kernel/console.c:104-132 | a read only appends to what it delivered, never beyond `n` bytes |
| LineDiscipline.DrainCursor | kernel/console.c:107-124 | a read moves only `r`, forward by at most the number of committed bytes. `w`, `e` and `buf` are unchanged. `r` moves by the number of delivered bytes or one more (a consumed Ctrl-D or a byte whose copy failed) |
| LineDiscipline.DrainFifo | kernel/console.c:115-132 | the delivered bytes are the oldest committed bytes, `buf[r % 128], buf[(r+1) % 128], ...`, in order, and never Ctrl-D |
| LineDiscipline.DrainOutcome | kernel/console.c:104-153 | a read returns -1 only when killed with no committed byte left. Otherwise it returns the number of bytes delivered, at most `n`. It sleeps only when not killed and the committed bytes are used up. A LF can only be the last byte delivered |
| LineDiscipline.DrainHistory | kernel/console.c:134-143 | unless the history write overruns, the delivered bytes are written at `history_buf[history_index][word_index]` onwards, and a delivered LF then starts the next slot. Delivering nothing leaves the history unchanged |
| LineDiscipline.ReadKeepsGood | kernel/console.c:91-154 | a read keeps every invariant |
| LineDiscipline.DrainSkip | kernel/console.c:104-135 | reading a run of ordinary committed bytes is moving `r` past them, delivering them and recording them |
| LineDiscipline.ReadSkip | kernel/console.c:104-135 | the same from the start of a call |
| LineDiscipline.RecordAllSnoc | kernel/console.c:134-135 | recording bytes and then one more is recording all of them |
| LineDiscipline.ReadLineEnd | kernel/console.c:104-153 | a committed line of at most `n` bytes at the front is read in one call, as one final state |
| LineDiscipline.ReadLine | kernel/console.c:104-153 | such a read returns exactly that line and moves `r` past it. It records the line from the current column, then moves to the next slot with the count saturating at 5, leaving the committed bytes after the line |
| LineDiscipline.ReadEofFirst | kernel/console.c:117-124 | a Ctrl-D read first is consumed and the call returns 0, delivering nothing and leaving the history untouched |
| LineDiscipline.EofFramingEnd | kernel/console.c:117-124 | a read of data followed by Ctrl-D returns the data and leaves `r` on the Ctrl-D |
| LineDiscipline.EofFraming | kernel/console.c:117-124 | Ctrl-D after data is left at the front, so that read returns the data and the next read returns 0. Ctrl-D is never delivered |
| LineDiscipline.ReadWhenEmpty | kernel/console.c:107-113 | with nothing committed a killed task gets -1 and any other task sleeps. No cursor moves and nothing is delivered |
| LineDiscipline.KilledAfterData | kernel/console.c:107-113 | a task killed while waiting after taking some bytes gets -1, although those bytes were consumed (`r` moved past them) and recorded |
| LineDiscipline.Feed | kernel/console.c:163-230 | feeding any bytes to the interrupt handler keeps every invariant |
| LineDiscipline.FeedAppend | kernel/console.c:163-230 | feeding two runs of bytes is feeding one, then the other |
| LineDiscipline.TypeErase | kernel/console.c:183-189 | typing `a`, `b`, DEL at a fresh console leaves `a` editable and echoes `ab` and an erasure |
| LineDiscipline.TypeRest | kernel/console.c:209-224 | then typing space, `c` and LF commits `a c` and LF, overwriting the slot of `b` |
| LineDiscipline.TypeLine | kernel/console.c:163-230 | `a`, `b`, DEL, space, `c`, LF commit the line `a c` and LF |
| LineDiscipline.TypeAndRead | kernel/console.c:91-154 | a following read of 10 bytes returns those 4 bytes and records them in history slot 0 |
| LineDiscipline.NavigateThenRead | kernel/console.c:141 | after Ctrl-W the next line read is recorded into the slot Ctrl-W moved to, the slot of the previously recorded line |
| LineDiscipline.FullLineLeavesColumnAtEnd | kernel/console.c:134-138 | reading a 128-byte line committed because the queue was full, from column 0, leaves `word_index` at 128 |
| LineDiscipline.ColumnAtEndOverruns | kernel/console.c:134 | from column 128, the next delivered byte would be written past the end of its `history_buf` row |
| Console.RowsOf | kernel/console.c:86 | the rows of the `history_buf` array, cell by cell |
| Console.Console.constructor | kernel/console.c:45-89 | the zero-initialised globals form the initial state, which satisfies the invariant: `cons` with its `buf`, `r`, `w` and `e` (lines 45-54) and `history_buf`, `history_index`, `history_count` and `word_index` (lines 86-89) |
| Console.Console.Intr | kernel/console.c:163-230 | `consoleintr` in place: the new state and the echo are those of `LineDiscipline.Intr`, and `Valid()` is kept |
| Console.Console.KillLine | kernel/console.c:176-182 | the kill-line loop moves only `e`, as far as `LineQueue.KillLine` says, with its echo |
| Console.Console.Backspace | kernel/console.c:183-189 | the backspace branch, as `LineQueue.Backspace` says |
| Console.Console.Navigate | kernel/console.c:191-207 | the navigation branches move `history_index` as `History.Navigate` says and echo `LineOf` of the new slot |
| Console.Console.Recall | kernel/console.c:195-196 | the echo loop returns exactly `LineOf` of the row |
| Console.Console.Append | kernel/console.c:209-226 | the default branch, as `LineQueue.Append` says |
| Console.Console.Read | kernel/console.c:91-154 | `consoleread` in place: the delivered bytes, the outcome and the new state are those of `LineDiscipline.Read`, and `Valid()` is kept |
| Console.Console.Iteration | kernel/console.c:104-148 | one pass of the drain loop, as `LineDiscipline.DrainStep` says |
| Console.Console.RecordByte | kernel/console.c:134-135 | the history write, as `History.Record` says |
| Console.Console.EndLine | kernel/console.c:137-143 | the end-of-line history update, as `History.EndLine` says |

## Left out

- The debug `printf` calls in `consoleread` and `consoleintr`: diagnostic output with no effect on the state.
- `procdump()` on Ctrl-P: it prints the process table, so the model treats Ctrl-P as a no-op on the console state.
- The spinlock, `sleep` and `wakeup`. The model is sequential.
  - A reader that would sleep ends with `Suspended(delivered)`, and what happens after it wakes is not modelled.
  - `wakeup` is a no-op.
- `killed(myproc())` and `either_copyout`: the boolean `killed` and the oracle `copyLimit` stand for them. Copy-in and user versus kernel addresses are not modelled.
- `uartputc_sync` and `uartputc`: echo is modelled only as the sequence of bytes `consputc` would send.
- `consolewrite` and `consoleinit`: pass-through to the UART and device registration, with no console state.
- `consoleintr` receives an `int`. The model takes a byte, because `uartintr` only delivers `uartgetc` results in 0..255. The truncation of the `int` on the store into the `char` buffer is therefore not modelled.
- Console.Console.Iteration: requires, like `Console.Console.Read`, that the pass does not reach the history write at `word_index >= 128`, for the reasons given in the next entry.
- Console.Console.Read: requires that the call does not reach a history write at `word_index >= 128`.
  - C leaves that write undefined: it goes past the end of the row.
  - `LineDiscipline.Read` reports it as the outcome `Overrun`.
  - `FullLineLeavesColumnAtEnd` and `ColumnAtEndOverruns` show that the source does reach it: a full-queue commit of 128 bytes without a newline, then one more read.
  - Data ended by Ctrl-D reaches it too, with no full queue. `EofFraming` records the data in the history, `ReadEofFirst` leaves the history as it is, and nothing resets `word_index` outside a LF. So about 128 bytes of Ctrl-D-ended input, in one read or across several, overrun the row.
- Console.Console.Read: returns the outcome (`Returned(target - n)`, `Returned(-1)` or `Suspended`) rather than an `int`, so that a read that would sleep can be told apart from one that returned.
- The loop body of `consoleread` and the branches of `consoleintr` are separate methods (`Iteration`, `KillLine`, `Backspace`, `Navigate`, `Append`, `RecordByte`, `EndLine`). Each does in place what the C code does inline.
- Behaviours of the code that a reader might not expect, which the model keeps as written:
  - history is written by the reader (`kernel/console.c:134-143`), not when the line is committed;
  - navigation moves the reader's write slot, so the most recent five lines are not always the ones kept (`NavigateThenRead`);
  - a kill while waiting after some bytes were taken returns -1 with those bytes consumed, so the cursors do not always stay unchanged (`KilledAfterData`);
  - a byte whose copy to the caller fails is consumed and lost.

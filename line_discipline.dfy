/** The console line discipline as a state machine on values: `Intr` is what
    `consoleintr` does with one received byte, `Read` what one call of
    `consoleread` does. Both act on the queue and on the history ring. */
module LineDiscipline {
  import opened Uint32
  import opened LineQueue
  import opened History

  datatype State = State(cons: Cons, hist: Hist)

  /** What the C types guarantee of any state. */
  predicate Wf(s: State)
  {
    Shaped(s.cons) && HistInv(s.hist)
  }

  /** The invariant every reachable state keeps. */
  predicate Good(s: State)
  {
    LineInv(s.cons) && HistInv(s.hist)
  }

  /** The zero-initialised globals. */
  function Init(): State
  {
    State(Cons(seq(INPUT_BUF_SIZE, _ => 0), 0, 0, 0), EmptyHist())
  }

  /** The state after one interrupt and what it echoed. */
  datatype Step = Step(state: State, echo: seq<byte>)

  /** `consoleintr(ch)`: dispatch on the control bytes, otherwise append.
      Ctrl-P's process dump prints outside the console state. */
  function Intr(s: State, ch: byte): Step
    requires Wf(s)
  {
    if ch == Ctrl('P') then
      Step(s, [])
    else if ch == Ctrl('U') then
      var ed := KillLine(s.cons);
      Step(s.(cons := ed.cons), ed.echo)
    else if ch == Ctrl('H') || ch == DEL then
      var ed := Backspace(s.cons);
      Step(s.(cons := ed.cons), ed.echo)
    else if ch == Ctrl('W') || ch == Ctrl('S') then
      var h := Navigate(s.hist, ch == Ctrl('W'));
      Step(s.(hist := h), if s.hist.count > 0 then LineOf(h.rows[h.index]) else [])
    else
      var ed := Append(s.cons, ch);
      Step(s.(cons := ed.cons), ed.echo)
  }

  /** How a `consoleread` call ends: it returns a value (the byte count, or
      -1 when the task was killed while waiting), it goes to sleep waiting for
      input after delivering some bytes, or it reaches the history write at
      a column past the end of `history_buf`'s row, where C's behaviour is
      undefined. */
  datatype Outcome = Returned(value: int) | Suspended(delivered: nat) | Overrun(delivered: nat)

  datatype ReadEnd = ReadEnd(state: State, dst: seq<byte>, outcome: Outcome)

  /** Where one iteration of the drain loop leaves the read: it goes on with
      a new state and one more delivered byte, or the call ends. */
  datatype Next = Continue(state: State, dst: seq<byte>) | Stop(end: ReadEnd)

  /** One iteration of the drain loop of `consoleread`, with `dst` the bytes
      delivered so far and `target - |dst|` the remaining count `n`, which is
      positive. `killed` is what `killed(myproc())` answers; the copy of the
      k-th byte to the caller succeeds exactly when k < `copyLimit`. */
  function DrainStep(s: State, target: nat, dst: seq<byte>, killed: bool, copyLimit: nat): (next: Next)
    requires Wf(s) && |dst| < target
    ensures next.Continue? ==> Wf(next.state) && |next.dst| == |dst| + 1
  {
    if s.cons.r == s.cons.w then
      if killed then Stop(ReadEnd(s, dst, Returned(-1))) else Stop(ReadEnd(s, dst, Suspended(|dst|)))
    else
      var b := s.cons.buf[s.cons.r % INPUT_BUF_SIZE];
      var c1 := s.cons.(r := Inc(s.cons.r));
      if b == EOF then
        if |dst| > 0 then
          Stop(ReadEnd(s.(cons := c1.(r := Dec(c1.r))), dst, Returned(|dst|)))
        else
          Stop(ReadEnd(s.(cons := c1), dst, Returned(0)))
      else if |dst| >= copyLimit then
        Stop(ReadEnd(s.(cons := c1), dst, Returned(|dst|)))
      else if s.hist.word >= INPUT_BUF_SIZE then
        Stop(ReadEnd(s.(cons := c1), dst + [b], Overrun(|dst| + 1)))
      else
        var h1 := Record(s.hist, b);
        RecordKeepsInv(s.hist, b);
        if b == LF then
          Stop(ReadEnd(State(c1, EndLine(h1)), dst + [b], Returned(|dst| + 1)))
        else
          Continue(State(c1, h1), dst + [b])
  }

  /** The drain loop of `consoleread`: iterate while `n > 0`. */
  function Drain(s: State, target: nat, dst: seq<byte>, killed: bool, copyLimit: nat): ReadEnd
    requires Wf(s) && |dst| <= target
    decreases target - |dst|
  {
    if |dst| == target then
      ReadEnd(s, dst, Returned(|dst|))
    else
      match DrainStep(s, target, dst, killed, copyLimit)
      case Stop(end) => end
      case Continue(s1, d1) => Drain(s1, target, d1, killed, copyLimit)
  }

  /** `consoleread(dst, n)`: at most `n` bytes, nothing when `n <= 0`. */
  function Read(s: State, n: int, killed: bool, copyLimit: nat): ReadEnd
    requires Wf(s)
  {
    if n <= 0 then ReadEnd(s, [], Returned(0)) else Drain(s, n, [], killed, copyLimit)
  }

  // ---------------------------------------------------------------------
  // The interrupt handler

  /** Every byte the interrupt handler receives keeps the cursor invariant
      r <= w <= e, e - r <= 128, keeps newline and end of file out of the
      editable region, and keeps the history ring well formed. */
  lemma IntrKeepsGood(s: State, ch: byte)
    requires Good(s)
    ensures Good(Intr(s, ch).state)
  {
    if ch == Ctrl('P') {
    } else if ch == Ctrl('U') {
      KillLineClears(s.cons);
    } else if ch == Ctrl('H') || ch == DEL {
      BackspaceKeepsLineInv(s.cons);
    } else if ch == Ctrl('W') || ch == Ctrl('S') {
      NavigateInverse(s.hist, ch == Ctrl('W'));
    } else {
      AppendKeepsLineInv(s.cons, ch);
    }
  }

  /** Ctrl-W and Ctrl-S leave the queue alone and move only the history slot
      (the one the reader writes next): back or forward one slot when a line
      has been recorded. They echo the stored bytes of the slot they land on
      up to its newline, and insert none of them into the queue. */
  lemma RecallSpec(s: State, ch: byte)
    requires Good(s) && (ch == Ctrl('W') || ch == Ctrl('S'))
    ensures var st := Intr(s, ch);
      st.state.cons == s.cons
      && st.state.hist.rows == s.hist.rows && st.state.hist.word == s.hist.word
      && st.state.hist.count == s.hist.count
      && (s.hist.count > 0 ==>
            st.state.hist.index == (if ch == Ctrl('W') then (s.hist.index + 4) % 5 else (s.hist.index + 1) % 5)
            && LF !in st.echo
            && st.echo == s.hist.rows[st.state.hist.index][..|st.echo|]
            && (|st.echo| == INPUT_BUF_SIZE || s.hist.rows[st.state.hist.index][|st.echo|] == LF))
      && (s.hist.count == 0 ==> st == Step(s, []))
      && Intr(st.state, if ch == Ctrl('W') then Ctrl('S') as byte else Ctrl('W') as byte).state == s
  {
    var up := ch == Ctrl('W');
    NavigateInverse(s.hist, up);
    var st := Intr(s, ch);
    assert st.state.hist == Navigate(s.hist, up);
  }

  // ---------------------------------------------------------------------
  // The reader

  /** One iteration of the reader, in terms of the committed bytes: with
      none left it returns -1 to a killed task and otherwise sleeps. Else it
      takes the oldest committed byte `b`: a Ctrl-D ends the read, consumed
      when it comes first and left in place after data; a failed copy ends
      the read with `b` consumed and lost; a column past the history row is
      an overrun; otherwise `b` is delivered and recorded, and a newline
      ends the read after moving to the next history slot. */
  lemma StepSpec(s: State, target: nat, dst: seq<byte>, killed: bool, copyLimit: nat)
    requires Wf(s) && Inv(s.cons) && |dst| < target
    ensures var next := DrainStep(s, target, dst, killed, copyLimit);
      var c := s.cons;
      if Avail(c) == 0 then
        next == Stop(ReadEnd(s, dst, if killed then Returned(-1) else Suspended(|dst|)))
      else
        var b := Committed(c)[0];
        var c1 := c.(r := Add(c.r, 1));
        Inv(c1) && Committed(c1) == Committed(c)[1..] && Queue(c1) == Queue(c)[1..]
        && Editable(c1) == Editable(c)
        && if b == EOF then
             next == Stop(ReadEnd(s.(cons := if |dst| > 0 then c else c1), dst, Returned(|dst|)))
           else if |dst| >= copyLimit then
             next == Stop(ReadEnd(s.(cons := c1), dst, Returned(|dst|)))
           else if s.hist.word >= INPUT_BUF_SIZE then
             next == Stop(ReadEnd(s.(cons := c1), dst + [b], Overrun(|dst| + 1)))
           else if b == LF then
             next == Stop(ReadEnd(State(c1, EndLine(Record(s.hist, b))), dst + [b], Returned(|dst| + 1)))
           else
             next == Continue(State(c1, Record(s.hist, b)), dst + [b])
  {
    var c := s.cons;
    AddSteps(c.r, 0);
    if Avail(c) > 0 {
      QueueDrop(c, 1);
      DecInc(c.r);
      assert Committed(c)[0] == c.buf[c.r % INPUT_BUF_SIZE];
    }
  }

  /** An iteration that goes on has delivered and recorded the oldest
      committed byte, which is neither newline nor end of file. */
  lemma StepContinue(s: State, target: nat, dst: seq<byte>, killed: bool, copyLimit: nat)
    requires Wf(s) && Inv(s.cons) && |dst| < target
    requires DrainStep(s, target, dst, killed, copyLimit).Continue?
    ensures var next := DrainStep(s, target, dst, killed, copyLimit);
      var c := s.cons;
      Avail(c) > 0
      && var b := Committed(c)[0];
      b != LF && b != EOF && |dst| < copyLimit && s.hist.word < INPUT_BUF_SIZE
      && next.dst == dst + [b] && next.state.hist == Record(s.hist, b)
      && next.state.cons == c.(r := Add(c.r, 1))
      && Inv(next.state.cons) && Committed(next.state.cons) == Committed(c)[1..]
  {
    StepSpec(s, target, dst, killed, copyLimit);
  }

  /** An iteration that ends the read has delivered nothing more, or the
      oldest committed byte, which is not an end of file; in the latter case
      it was a newline, or the history write overran. */
  lemma StepStop(s: State, target: nat, dst: seq<byte>, killed: bool, copyLimit: nat)
    requires Wf(s) && Inv(s.cons) && |dst| < target
    requires DrainStep(s, target, dst, killed, copyLimit).Stop?
    ensures var end := DrainStep(s, target, dst, killed, copyLimit).end;
      var c := s.cons;
      (end.dst == dst && end.state.hist == s.hist)
      || (Avail(c) > 0 && end.dst == dst + [Committed(c)[0]] && Committed(c)[0] != EOF
          && |dst| < copyLimit
          && (end.outcome.Overrun?
              || (Committed(c)[0] == LF && s.hist.word < INPUT_BUF_SIZE
                  && end.state.hist == EndLine(Record(s.hist, LF)))))
  {
    StepSpec(s, target, dst, killed, copyLimit);
  }

  /** A read only adds to what it has delivered, and never beyond the target. */
  lemma {:induction false} DrainGrows(s: State, target: nat, dst: seq<byte>, killed: bool, copyLimit: nat)
    requires Wf(s) && |dst| <= target
    ensures var end := Drain(s, target, dst, killed, copyLimit);
      |dst| <= |end.dst| <= target && end.dst[..|dst|] == dst
    decreases target - |dst|
  {
    if |dst| < target {
      match DrainStep(s, target, dst, killed, copyLimit)
      case Stop(_) =>
      case Continue(s1, d1) =>
        DrainGrows(s1, target, d1, killed, copyLimit);
    }
  }

  /** The reader only ever moves `r` forward through committed bytes: after
      a read, `r` has advanced by `k` bytes with `k` at most the committed
      count, `w`, `e` and `buf` are as they were, and `k` exceeds the count
      of delivered bytes by at most one (a consumed end of file, or a byte
      whose copy failed). */
  lemma {:induction false} DrainCursor(s: State, target: nat, dst: seq<byte>, killed: bool, copyLimit: nat)
    requires Wf(s) && Inv(s.cons) && |dst| <= target
    ensures var end := Drain(s, target, dst, killed, copyLimit);
      var k := Sub(end.state.cons.r, s.cons.r);
      var d := |end.dst| - |dst|;
      k <= Avail(s.cons) && end.state.cons == s.cons.(r := Add(s.cons.r, k))
      && 0 <= d <= k <= d + 1
    decreases target - |dst|
  {
    var c := s.cons;
    var end := Drain(s, target, dst, killed, copyLimit);
    DrainGrows(s, target, dst, killed, copyLimit);
    AddSteps(c.r, 0);
    if |dst| < target {
      StepSpec(s, target, dst, killed, copyLimit);
      match DrainStep(s, target, dst, killed, copyLimit)
      case Stop(_) =>
        if Avail(c) == 0 || (Committed(c)[0] == EOF && |dst| > 0) {
          assert end.state.cons == c;
          SubAddSelf(c.r, 0);
        } else {
          assert end.state.cons == c.(r := Add(c.r, 1));
          SubAddSelf(c.r, 1);
        }
      case Continue(s1, d1) =>
        DrainCursor(s1, target, d1, killed, copyLimit);
        var k1 := Sub(end.state.cons.r, s1.cons.r);
        AddSteps(c.r, k1);
        SubAddSelf(c.r, k1 + 1);
    } else {
      SubAddSelf(c.r, 0);
    }
  }

  /** FIFO delivery: the bytes a read hands to the caller are the oldest
      committed ones, in order, and never a Ctrl-D. */
  lemma {:induction false} DrainFifo(s: State, target: nat, dst: seq<byte>, killed: bool, copyLimit: nat)
    requires Wf(s) && Inv(s.cons) && |dst| <= target
    ensures var end := Drain(s, target, dst, killed, copyLimit);
      |dst| <= |end.dst| && |end.dst| - |dst| <= Avail(s.cons)
      && end.dst == dst + Committed(s.cons)[..|end.dst| - |dst|]
      && EOF !in end.dst[|dst|..]
    decreases target - |dst|
  {
    var c := s.cons;
    var end := Drain(s, target, dst, killed, copyLimit);
    DrainGrows(s, target, dst, killed, copyLimit);
    if |dst| < target {
      match DrainStep(s, target, dst, killed, copyLimit)
      case Stop(_) =>
        StepStop(s, target, dst, killed, copyLimit);
        if end.dst == dst {
          assert end.dst == dst + Committed(c)[..0];
        } else {
          assert Committed(c)[..1] == [Committed(c)[0]];
        }
      case Continue(s1, d1) =>
        StepContinue(s, target, dst, killed, copyLimit);
        var b := Committed(c)[0];
        DrainFifo(s1, target, d1, killed, copyLimit);
        var d := |end.dst| - |dst|;
        assert Committed(c)[..d] == [b] + Committed(s1.cons)[..d - 1];
        assert end.dst[|dst|..] == [b] + end.dst[|d1|..];
    }
  }

  /** How a read ends. It returns either -1 (killed while no committed byte
      was left) or the number of bytes it delivered, at most the target; it
      sleeps only when no committed byte is left and the task was not
      killed; a newline is only ever the last byte delivered. */
  lemma {:induction false} DrainOutcome(s: State, target: nat, dst: seq<byte>, killed: bool, copyLimit: nat)
    requires Wf(s) && Inv(s.cons) && |dst| <= target
    requires LF !in dst
    ensures var end := Drain(s, target, dst, killed, copyLimit);
      (forall i :: 0 <= i < |end.dst| - 1 ==> end.dst[i] != LF)
      && match end.outcome
         case Returned(v) =>
           if v == -1 then killed && end.state.cons.r == end.state.cons.w
           else v == |end.dst| <= target
         case Suspended(d) => !killed && d == |end.dst| && end.state.cons.r == end.state.cons.w
         case Overrun(d) => d == |end.dst| && end.state.hist.word >= INPUT_BUF_SIZE
    decreases target - |dst|
  {
    if |dst| < target {
      StepSpec(s, target, dst, killed, copyLimit);
      match DrainStep(s, target, dst, killed, copyLimit)
      case Stop(_) =>
      case Continue(s1, d1) =>
        DrainOutcome(s1, target, d1, killed, copyLimit);
    }
  }

  /** The history half of a read: unless it overruns, the delivered bytes
      are written one by one at `history_buf[history_index][word_index]`
      onwards, and a delivered newline then starts the next slot. */
  lemma {:induction false} DrainHistory(s: State, target: nat, dst: seq<byte>, killed: bool, copyLimit: nat)
    requires Wf(s) && Inv(s.cons) && |dst| <= target
    ensures |dst| <= |Drain(s, target, dst, killed, copyLimit).dst|
    ensures var end := Drain(s, target, dst, killed, copyLimit);
      var got := end.dst[|dst|..];
      HistInv(end.state.hist)
      && (got == [] ==> end.state.hist == s.hist)
      && (!end.outcome.Overrun? && got != [] ==>
            s.hist.word + |got| <= INPUT_BUF_SIZE
            && end.state.hist == if got != [] && got[|got| - 1] == LF
                                 then EndLine(RecordAll(s.hist, got))
                                 else RecordAll(s.hist, got))
    decreases target - |dst|
  {
    DrainGrows(s, target, dst, killed, copyLimit);
    var end := Drain(s, target, dst, killed, copyLimit);
    var got := end.dst[|dst|..];
    if |dst| < target {
      match DrainStep(s, target, dst, killed, copyLimit)
      case Stop(_) =>
        StepStop(s, target, dst, killed, copyLimit);
        if end.dst == dst {
          assert got == [];
        } else if !end.outcome.Overrun? {
          assert got == [LF];
          assert RecordAll(s.hist, got) == RecordAll(Record(s.hist, LF), []);
        }
      case Continue(s1, d1) =>
        StepContinue(s, target, dst, killed, copyLimit);
        var b := d1[|dst|];
        DrainGrows(s1, target, d1, killed, copyLimit);
        DrainHistory(s1, target, d1, killed, copyLimit);
        assert got == [b] + end.dst[|d1|..];
        assert got[1..] == end.dst[|d1|..];
    } else {
      assert got == [];
    }
  }

  /** A read keeps every invariant. */
  lemma ReadKeepsGood(s: State, n: int, killed: bool, copyLimit: nat)
    requires Good(s)
    ensures Good(Read(s, n, killed, copyLimit).state)
  {
    if n > 0 {
      DrainCursor(s, n, [], killed, copyLimit);
      DrainHistory(s, n, [], killed, copyLimit);
      var end := Drain(s, n, [], killed, copyLimit);
      QueueDrop(s.cons, Sub(end.state.cons.r, s.cons.r));
    }
  }

  /** An ordinary byte at the front goes on: it is delivered and recorded. */
  lemma StepOrdinary(s: State, target: nat, dst: seq<byte>, killed: bool, copyLimit: nat)
    requires Wf(s) && Inv(s.cons) && |dst| < target && Avail(s.cons) > 0
    requires Committed(s.cons)[0] != LF && Committed(s.cons)[0] != EOF
    requires |dst| < copyLimit && s.hist.word < INPUT_BUF_SIZE
    ensures var b := Committed(s.cons)[0];
      DrainStep(s, target, dst, killed, copyLimit)
      == Continue(State(s.cons.(r := Add(s.cons.r, 1)), Record(s.hist, b)), dst + [b])
  {
    StepSpec(s, target, dst, killed, copyLimit);
  }

  /** A newline at the front is delivered, recorded, and ends the line. */
  lemma StepNewline(s: State, target: nat, dst: seq<byte>, killed: bool, copyLimit: nat)
    requires Wf(s) && Inv(s.cons) && |dst| < target && Avail(s.cons) > 0
    requires Committed(s.cons)[0] == LF
    requires |dst| < copyLimit && s.hist.word < INPUT_BUF_SIZE
    ensures DrainStep(s, target, dst, killed, copyLimit)
      == Stop(ReadEnd(State(s.cons.(r := Add(s.cons.r, 1)), EndLine(Record(s.hist, LF))),
                      dst + [LF], Returned(|dst| + 1)))
  {
    StepSpec(s, target, dst, killed, copyLimit);
  }

  /** A Ctrl-D at the front after some data is left where it is. */
  lemma StepEofAfterData(s: State, target: nat, dst: seq<byte>, killed: bool, copyLimit: nat)
    requires Wf(s) && Inv(s.cons) && 0 < |dst| < target && Avail(s.cons) > 0
    requires Committed(s.cons)[0] == EOF
    ensures DrainStep(s, target, dst, killed, copyLimit) == Stop(ReadEnd(s, dst, Returned(|dst|)))
  {
    StepSpec(s, target, dst, killed, copyLimit);
  }

  /** A Ctrl-D at the front after some data ends the drain at once. */
  lemma DrainEofAfterData(s: State, target: nat, dst: seq<byte>, killed: bool, copyLimit: nat)
    requires Wf(s) && Inv(s.cons) && 0 < |dst| < target && Avail(s.cons) > 0
    requires Committed(s.cons)[0] == EOF
    ensures Drain(s, target, dst, killed, copyLimit) == ReadEnd(s, dst, Returned(|dst|))
  {
    StepEofAfterData(s, target, dst, killed, copyLimit);
  }

  /** Reading a run of committed bytes that are neither newline nor end of file,
      with room for them in the target, the destination and the history
      row, is the same as moving `r` past them, recording them and
      carrying on. */
  lemma {:induction false} DrainSkip(s: State, target: nat, dst: seq<byte>, killed: bool, copyLimit: nat, run: seq<byte>)
    requires Wf(s) && Inv(s.cons) && |dst| + |run| <= target
    requires |run| <= Avail(s.cons) && Committed(s.cons)[..|run|] == run
    requires |dst| + |run| <= copyLimit && s.hist.word + |run| <= INPUT_BUF_SIZE
    requires forall i :: 0 <= i < |run| ==> run[i] != LF && run[i] != EOF
    ensures Drain(s, target, dst, killed, copyLimit)
         == Drain(State(s.cons.(r := Add(s.cons.r, |run|)), RecordAll(s.hist, run)),
                  target, dst + run, killed, copyLimit)
    decreases |run|
  {
    var c := s.cons;
    AddSteps(c.r, 0);
    if run == [] {
      assert dst + run == dst;
    } else {
      QueueDrop(c, 1);
      AddAdd(c.r, 1, |run| - 1);
      var b := run[0];
      var rest := run[1..];
      var c1 := c.(r := Add(c.r, 1));
      assert Committed(c)[0] == b;
      assert Committed(c1)[..|rest|] == rest;
      assert dst + [b] + rest == dst + run;
      assert RecordAll(s.hist, run) == RecordAll(Record(s.hist, b), rest);
      var s1 := State(c1, Record(s.hist, b));
      assert State(c1.(r := Add(c1.r, |rest|)), RecordAll(s1.hist, rest))
          == State(c.(r := Add(c.r, |run|)), RecordAll(s.hist, run));
      StepOrdinary(s, target, dst, killed, copyLimit);
      DrainSkip(s1, target, dst + [b], killed, copyLimit, rest);
    }
  }

  /** A whole committed line is read in one call: with a line of at most
      `n` bytes ending in its only newline at the front of the committed
      bytes, the read returns exactly that line, advances `r` past it,
      records it in the current history slot from the current column on,
      then moves to the next slot, with the count saturating at five. */
  lemma ReadLine(s: State, n: int, copyLimit: nat, killed: bool, line: seq<byte>)
    requires Good(s) && 0 < |line| <= n && |line| <= copyLimit
    requires s.hist.word + |line| <= INPUT_BUF_SIZE
    requires |line| <= |Committed(s.cons)| && Committed(s.cons)[..|line|] == line
    requires line[|line| - 1] == LF
    requires forall i :: 0 <= i < |line| - 1 ==> line[i] != LF && line[i] != EOF
    ensures Good(Read(s, n, killed, copyLimit).state)
    ensures var end := Read(s, n, killed, copyLimit);
      end.outcome == Returned(|line|) && end.dst == line
      && end.state.cons == s.cons.(r := Add(s.cons.r, |line|))
      && end.state.hist == EndLine(RecordAll(s.hist, line))
      && Committed(end.state.cons) == Committed(s.cons)[|line|..]
  {
    ReadLineEnd(s, n, copyLimit, killed, line);
    QueueDrop(s.cons, |line|);
    ReadKeepsGood(s, n, killed, copyLimit);
  }

  /** Where ReadLine's read ends, as one value. */
  lemma ReadLineEnd(s: State, n: int, copyLimit: nat, killed: bool, line: seq<byte>)
    requires Wf(s) && Inv(s.cons) && 0 < |line| <= n && |line| <= copyLimit
    requires s.hist.word + |line| <= INPUT_BUF_SIZE
    requires |line| <= |Committed(s.cons)| && Committed(s.cons)[..|line|] == line
    requires line[|line| - 1] == LF
    requires forall i :: 0 <= i < |line| - 1 ==> line[i] != LF && line[i] != EOF
    ensures Read(s, n, killed, copyLimit)
         == ReadEnd(State(s.cons.(r := Add(s.cons.r, |line|)), EndLine(RecordAll(s.hist, line))),
                    line, Returned(|line|))
  {
    var k := |line| - 1;
    var c := s.cons;
    var head := line[..k];
    assert Committed(c)[..k] == head && head + [LF] == line;
    QueueDrop(c, k);
    var c1 := c.(r := Add(c.r, k));
    var s1 := State(c1, RecordAll(s.hist, head));
    assert Committed(c1)[0] == LF;
    AddAdd(c.r, k, 1);
    RecordAllSnoc(s.hist, head, LF);
    ReadSkip(s, n, killed, copyLimit, head);
    DrainNewline(s1, n, head, killed, copyLimit);
  }

  /** A read that starts with a run of ordinary committed bytes goes on past
      them with the run delivered and recorded. */
  lemma ReadSkip(s: State, n: int, killed: bool, copyLimit: nat, run: seq<byte>)
    requires Wf(s) && Inv(s.cons) && |run| <= n && 0 < n
    requires |run| <= Avail(s.cons) && Committed(s.cons)[..|run|] == run
    requires |run| <= copyLimit && s.hist.word + |run| <= INPUT_BUF_SIZE
    requires forall i :: 0 <= i < |run| ==> run[i] != LF && run[i] != EOF
    ensures Read(s, n, killed, copyLimit)
         == Drain(State(s.cons.(r := Add(s.cons.r, |run|)), RecordAll(s.hist, run)),
                  n, run, killed, copyLimit)
  {
    assert [] + run == run;
    DrainSkip(s, n, [], killed, copyLimit, run);
  }

  /** A newline at the front ends the drain at once. */
  lemma DrainNewline(s: State, target: nat, dst: seq<byte>, killed: bool, copyLimit: nat)
    requires Wf(s) && Inv(s.cons) && |dst| < target && Avail(s.cons) > 0
    requires Committed(s.cons)[0] == LF
    requires |dst| < copyLimit && s.hist.word < INPUT_BUF_SIZE
    ensures Drain(s, target, dst, killed, copyLimit)
      == ReadEnd(State(s.cons.(r := Add(s.cons.r, 1)), EndLine(Record(s.hist, LF))),
                 dst + [LF], Returned(|dst| + 1))
  {
    StepNewline(s, target, dst, killed, copyLimit);
  }

  /** Recording `s` then `b` is recording `s + [b]`. */
  lemma {:induction false} RecordAllSnoc(h: Hist, s: seq<byte>, b: byte)
    requires HistInv(h) && h.word + |s| < INPUT_BUF_SIZE
    ensures Record(RecordAll(h, s), b) == RecordAll(h, s + [b])
    decreases |s|
  {
    if s != [] {
      RecordKeepsInv(h, s[0]);
      RecordAllSnoc(Record(h, s[0]), s[1..], b);
      assert (s + [b])[1..] == s[1..] + [b];
    }
  }

  /** End of file as the first byte of a read: it is consumed and the read
      returns 0 with nothing delivered and the history untouched. */
  lemma ReadEofFirst(s: State, n: int, killed: bool, copyLimit: nat)
    requires Good(s) && n > 0 && Committed(s.cons) != [] && Committed(s.cons)[0] == EOF
    ensures Good(Read(s, n, killed, copyLimit).state)
    ensures var end := Read(s, n, killed, copyLimit);
      end.outcome == Returned(0) && end.dst == [] && end.state.hist == s.hist
      && end.state.cons == s.cons.(r := Inc(s.cons.r))
      && Committed(end.state.cons) == Committed(s.cons)[1..]
  {
    StepSpec(s, n, [], killed, copyLimit);
    AddSteps(s.cons.r, 0);
    ReadKeepsGood(s, n, killed, copyLimit);
  }

  /** End of file after data: a read of the bytes before a Ctrl-D returns
      them and leaves the Ctrl-D at the front of the queue, so the next read
      returns 0; Ctrl-D never reaches the caller. */
  lemma EofFraming(s: State, n: int, killed: bool, copyLimit: nat, data: seq<byte>)
    requires Good(s) && 0 < |data| < n && |data| <= copyLimit
    requires s.hist.word + |data| <= INPUT_BUF_SIZE
    requires |data| < |Committed(s.cons)| && Committed(s.cons)[..|data| + 1] == data + [EOF]
    requires forall i :: 0 <= i < |data| ==> data[i] != LF && data[i] != EOF
    ensures Good(Read(s, n, killed, copyLimit).state)
    ensures var end := Read(s, n, killed, copyLimit);
      end.outcome == Returned(|data|) && end.dst == data
      && end.state.hist == RecordAll(s.hist, data)
      && Committed(end.state.cons) == Committed(s.cons)[|data|..]
      && Committed(end.state.cons)[0] == EOF
    ensures var again := Read(Read(s, n, killed, copyLimit).state, n, killed, copyLimit);
      again.outcome == Returned(0) && again.dst == []
  {
    var c := s.cons;
    var c1 := c.(r := Add(c.r, |data|));
    EofFramingEnd(s, n, killed, copyLimit, data);
    QueueDrop(c, |data|);
    assert Committed(c1)[0] == Committed(c)[|data|] == (data + [EOF])[|data|];
    ReadKeepsGood(s, n, killed, copyLimit);
    ReadEofFirst(Read(s, n, killed, copyLimit).state, n, killed, copyLimit);
  }

  /** Where EofFraming's first read ends, as one value. */
  lemma EofFramingEnd(s: State, n: int, killed: bool, copyLimit: nat, data: seq<byte>)
    requires Wf(s) && Inv(s.cons) && 0 < |data| < n && |data| <= copyLimit
    requires s.hist.word + |data| <= INPUT_BUF_SIZE
    requires |data| < |Committed(s.cons)| && Committed(s.cons)[..|data| + 1] == data + [EOF]
    requires forall i :: 0 <= i < |data| ==> data[i] != LF && data[i] != EOF
    ensures Read(s, n, killed, copyLimit)
         == ReadEnd(State(s.cons.(r := Add(s.cons.r, |data|)), RecordAll(s.hist, data)), data, Returned(|data|))
  {
    var k := |data|;
    var c := s.cons;
    assert Committed(c)[..k] == data;
    QueueDrop(c, k);
    var c1 := c.(r := Add(c.r, k));
    assert Committed(c1)[0] == EOF;
    ReadSkip(s, n, killed, copyLimit, data);
    DrainEofAfterData(State(c1, RecordAll(s.hist, data)), n, data, killed, copyLimit);
  }

  /** A read that finds nothing committed: a killed task gets -1, any other
      goes to sleep; either way no cursor moves and nothing is delivered. */
  lemma ReadWhenEmpty(s: State, n: int, killed: bool, copyLimit: nat)
    requires Good(s) && n > 0 && Committed(s.cons) == []
    ensures var end := Read(s, n, killed, copyLimit);
      end.state == s && end.dst == []
      && end.outcome == (if killed then Returned(-1) else Suspended(0))
  {
  }

  /** A task killed while waiting after it has taken some bytes gets -1,
      yet those bytes were consumed: `r` has moved past them and they were
      recorded in the history. The cursors are left unchanged by a -1 only
      when nothing was taken (ReadWhenEmpty). */
  lemma KilledAfterData(s: State, n: int, copyLimit: nat)
    requires Good(s) && 0 < |Committed(s.cons)| < n && |Committed(s.cons)| <= copyLimit
    requires s.hist.word + |Committed(s.cons)| <= INPUT_BUF_SIZE
    requires forall i :: 0 <= i < |Committed(s.cons)| ==> Committed(s.cons)[i] != LF && Committed(s.cons)[i] != EOF
    ensures var end := Read(s, n, true, copyLimit);
      end.outcome == Returned(-1) && end.dst == Committed(s.cons)
      && end.state.cons == s.cons.(r := s.cons.w)
      && end.state.hist == RecordAll(s.hist, Committed(s.cons))
  {
    var run := Committed(s.cons);
    assert run[..|run|] == run;
    ReadSkip(s, n, true, copyLimit, run);
    var c1 := s.cons.(r := Add(s.cons.r, |run|));
    assert c1 == s.cons.(r := s.cons.w);
  }

  /** The interrupt handler fed a sequence of bytes, one call each: the
      final state and everything echoed. */
  function Feed(s: State, input: seq<byte>): (st: Step)
    requires Good(s)
    ensures Good(st.state)
    decreases |input|
  {
    if input == [] then Step(s, [])
    else
      var st1 := Intr(s, input[0]);
      IntrKeepsGood(s, input[0]);
      var st2 := Feed(st1.state, input[1..]);
      Step(st2.state, st1.echo + st2.echo)
  }

  /** Feeding two runs of bytes is feeding the first, then the second. */
  lemma {:induction false} FeedAppend(s: State, a: seq<byte>, b: seq<byte>)
    requires Good(s)
    ensures Feed(s, a + b) == Step(Feed(Feed(s, a).state, b).state, Feed(s, a).echo + Feed(Feed(s, a).state, b).echo)
    decreases |a|
  {
    if a == [] {
      assert a + b == b;
    } else {
      IntrKeepsGood(s, a[0]);
      var s1 := Intr(s, a[0]).state;
      FeedAppend(s1, a[1..], b);
      assert (a + b)[0] == a[0] && (a + b)[1..] == a[1..] + b;
    }
  }

  /** Typing `a`, `b` and DEL at a fresh console leaves `a` alone in the
      editable region, and echoes `ab` and an erasure. */
  lemma TypeErase()
    ensures Feed(Init(), [97, 98, DEL])
         == Step(State(Cons(Init().cons.buf[0 := 97][1 := 98], 0, 0, 1), EmptyHist()), [97, 98] + ERASE)
  {
    var s0 := Init();
    var h := s0.hist;
    var b0 := s0.cons.buf;
    var s1 := State(Cons(b0[0 := 97], 0, 0, 1), h);
    var s2 := State(Cons(b0[0 := 97][1 := 98], 0, 0, 2), h);
    var s3 := State(Cons(b0[0 := 97][1 := 98], 0, 0, 1), h);
    var input: seq<byte> := [97, 98, DEL];
    assert Feed(s2, input[2..]) == Step(s3, ERASE) by {
      assert Intr(s2, DEL) == Step(s3, ERASE);
      assert input[2..][1..] == [];
    }
    assert Feed(s1, input[1..]) == Step(s3, [98] + ERASE) by {
      assert Intr(s1, 98) == Step(s2, [98]);
      assert input[1..][1..] == input[2..];
    }
    assert Intr(s0, 97) == Step(s1, [97]);
  }

  /** Then typing space, `c` and newline commits the line `a c` with its
      newline, overwriting the slot that held `b`, and echoes ` c` and the
      newline. */
  lemma TypeRest()
    ensures var s3 := State(Cons(Init().cons.buf[0 := 97][1 := 98], 0, 0, 1), EmptyHist());
      Good(s3)
      && Feed(s3, [32, 99, LF])
         == Step(State(Cons(Init().cons.buf[0 := 97][1 := 32][2 := 99][3 := LF], 0, 4, 4), EmptyHist()),
                 [32, 99, LF])
  {
    var h := EmptyHist();
    var b0 := Init().cons.buf;
    var s3 := State(Cons(b0[0 := 97][1 := 98], 0, 0, 1), h);
    var s4 := State(Cons(b0[0 := 97][1 := 32], 0, 0, 2), h);
    var s5 := State(Cons(b0[0 := 97][1 := 32][2 := 99], 0, 0, 3), h);
    var s6 := State(Cons(b0[0 := 97][1 := 32][2 := 99][3 := LF], 0, 4, 4), h);
    assert Editable(s3.cons) == [97];
    var input: seq<byte> := [32, 99, LF];
    assert Feed(s5, input[2..]) == Step(s6, [LF]) by {
      assert Intr(s5, LF) == Step(s6, [LF]);
      assert input[2..][1..] == [];
    }
    assert Feed(s4, input[1..]) == Step(s6, [99, LF]) by {
      assert Intr(s4, 99) == Step(s5, [99]);
      assert input[1..][1..] == input[2..];
    }
    assert Intr(s3, 32) == Step(s4, [32]);
  }

  /** Typing `a`, `b`, DEL, space, `c` and newline at a fresh console
      echoes `ab`, an erasure, then ` c` and the newline, and commits the
      line `a c` with its newline: the DEL erased `b`. */
  lemma TypeLine()
    ensures Feed(Init(), [97, 98, DEL, 32, 99, LF])
         == Step(State(Cons(Init().cons.buf[0 := 97][1 := 32][2 := 99][3 := LF], 0, 4, 4), EmptyHist()),
                 [97, 98] + ERASE + [32, 99, LF])
  {
    TypeErase();
    TypeRest();
    FeedAppend(Init(), [97, 98, DEL], [32, 99, LF]);
    assert [97, 98, DEL] + [32, 99, LF] == [97, 98, DEL, 32, 99, LF];
  }

  /** A read of up to ten bytes after TypeLine returns the four bytes of the
      line `a c` with its newline and records them in the first history slot. */
  lemma TypeAndRead()
    ensures HistInv(Read(Feed(Init(), [97, 98, DEL, 32, 99, LF]).state, 10, false, 10).state.hist)
    ensures var end := Read(Feed(Init(), [97, 98, DEL, 32, 99, LF]).state, 10, false, 10);
      end.dst == [97, 32, 99, LF] && end.outcome == Returned(4)
      && end.state.hist.rows[0][..4] == [97, 32, 99, LF] && end.state.hist.index == 1
  {
    TypeLine();
    var s6 := Feed(Init(), [97, 98, DEL, 32, 99, LF]).state;
    var line: seq<byte> := [97, 32, 99, LF];
    assert Queue(s6.cons) == line;
    ReadLine(s6, 10, 10, false, line);
    RecordAllSpec(s6.hist, line);
  }

  /** Navigation redirects recording: after Ctrl-W the next line read is
      written into the slot Ctrl-W landed on, the slot of the line recorded
      before, not into a fresh slot. */
  lemma NavigateThenRead(s: State, n: int, copyLimit: nat, line: seq<byte>)
    requires Good(s) && s.hist.count > 0 && s.hist.word == 0
    requires 0 < |line| <= n && |line| <= copyLimit && |line| <= INPUT_BUF_SIZE
    requires |line| <= |Committed(s.cons)| && Committed(s.cons)[..|line|] == line
    requires line[|line| - 1] == LF
    requires forall i :: 0 <= i < |line| - 1 ==> line[i] != LF && line[i] != EOF
    ensures HistInv(Read(Intr(s, Ctrl('W') as byte).state, n, false, copyLimit).state.hist)
    ensures var slot := (s.hist.index + HISTORY_SIZE - 1) % HISTORY_SIZE;
      var end := Read(Intr(s, Ctrl('W') as byte).state, n, false, copyLimit);
      end.dst == line && end.state.hist.rows[slot][..|line|] == line
  {
    var s1 := Intr(s, Ctrl('W') as byte).state;
    RecallSpec(s, Ctrl('W') as byte);
    IntrKeepsGood(s, Ctrl('W') as byte);
    ReadLine(s1, n, copyLimit, false, line);
    RecordAllSpec(s1.hist, line);
  }

  // ---------------------------------------------------------------------
  // The history column can run off the end of its row

  /** A line of 128 bytes with no newline commits because the queue is full;
      reading all of it from column 0 returns 128 bytes and leaves
      `word_index` at 128, one past the last column of `history_buf`. */
  lemma FullLineLeavesColumnAtEnd(s: State, killed: bool)
    requires Good(s) && s.hist.word == 0 && |Committed(s.cons)| == INPUT_BUF_SIZE
    requires forall i :: 0 <= i < INPUT_BUF_SIZE ==> Committed(s.cons)[i] != LF && Committed(s.cons)[i] != EOF
    ensures var end := Read(s, INPUT_BUF_SIZE, killed, INPUT_BUF_SIZE);
      end.outcome == Returned(INPUT_BUF_SIZE) && end.state.hist.word == INPUT_BUF_SIZE
  {
    var line := Committed(s.cons);
    assert line[..INPUT_BUF_SIZE] == line && [] + line == line;
    DrainSkip(s, INPUT_BUF_SIZE, [], killed, INPUT_BUF_SIZE, line);
  }

  /** From column 128 the next delivered byte would be written outside
      `history_buf`: the read overruns. */
  lemma ColumnAtEndOverruns(s: State, n: int, killed: bool, copyLimit: nat)
    requires Good(s) && s.hist.word >= INPUT_BUF_SIZE && n > 0 && copyLimit > 0
    requires Committed(s.cons) != [] && Committed(s.cons)[0] != EOF
    ensures Read(s, n, killed, copyLimit).outcome == Overrun(1)
  {
    StepSpec(s, n, [], killed, copyLimit);
  }

  /** The full queue commits even without a newline: typing a 128th byte
      that is not a newline fills the queue and commits it. */
  lemma FullQueueCommits(s: State, x: byte)
    requires Good(s) && Len(s.cons) == INPUT_BUF_SIZE - 1 && Accepts(s.cons, x)
    ensures var c1 := Intr(s, x).state.cons;
      x != Ctrl('P') && x != Ctrl('U') && x != Ctrl('H') && x != DEL
      && x != Ctrl('W') && x != Ctrl('S')
      ==> Committed(c1) == Queue(s.cons) + [Store(x)] && |Committed(c1)| == INPUT_BUF_SIZE
  {
    if x != Ctrl('P') && x != Ctrl('U') && x != Ctrl('H') && x != DEL && x != Ctrl('W') && x != Ctrl('S') {
      CommitRule(s.cons, x);
      SubInc(s.cons.e, s.cons.r);
    }
  }
}

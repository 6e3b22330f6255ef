/** The console's state as the kernel keeps it: the `cons` queue with its
    128-byte array and three `uint` cursors, and the history globals with
    their 5 x 128 array. `Intr` and `Read` are `consoleintr` and
    `consoleread` updating that state in place; each is proved to do what
    the value-level `LineDiscipline.Intr` and `LineDiscipline.Read` say. */
module Console {
  import opened Uint32
  import opened LineQueue
  import opened History
  import LineDiscipline

  /** The rows of a `history_buf`. */
  function RowsOf(a: array2<byte>): (rows: seq<seq<byte>>)
    reads a
    requires a.Length0 == HISTORY_SIZE && a.Length1 == INPUT_BUF_SIZE
    ensures |rows| == HISTORY_SIZE
    ensures forall i :: 0 <= i < HISTORY_SIZE ==> |rows[i]| == INPUT_BUF_SIZE
    ensures forall i, j :: 0 <= i < HISTORY_SIZE && 0 <= j < INPUT_BUF_SIZE ==> rows[i][j] == a[i, j]
  {
    seq(HISTORY_SIZE, i requires 0 <= i < HISTORY_SIZE reads a =>
      seq(INPUT_BUF_SIZE, j requires 0 <= j < INPUT_BUF_SIZE reads a => a[i, j]))
  }

  class Console {
    var buf: array<byte>
    var r: u32
    var w: u32
    var e: u32
    var history: array2<byte>
    var historyIndex: int
    var historyCount: int
    var wordIndex: int

    /** The array sizes of the C declarations and the global invariant of
        the line discipline. */
    ghost predicate Valid()
      reads this, buf, history
    {
      Sized() && LineDiscipline.Good(Model())
    }

    predicate Sized()
      reads this
    {
      buf.Length == INPUT_BUF_SIZE
      && history.Length0 == HISTORY_SIZE && history.Length1 == INPUT_BUF_SIZE
      && 0 <= historyIndex < HISTORY_SIZE && 0 <= historyCount <= HISTORY_SIZE
      && 0 <= wordIndex
    }

    /** The state as a value. */
    function Model(): LineDiscipline.State
      reads this, buf, history
      requires Sized()
    {
      LineDiscipline.State(Cons(buf[..], r, w, e), Hist(RowsOf(history), historyIndex, historyCount, wordIndex))
    }

    /** The zero-initialised globals. */
    constructor ()
      ensures Valid() && Model() == LineDiscipline.Init()
      ensures fresh(buf) && fresh(history)
    {
      buf := new byte[INPUT_BUF_SIZE](_ => 0);
      history := new byte[HISTORY_SIZE, INPUT_BUF_SIZE]((_, _) => 0);
      r, w, e := 0, 0, 0;
      historyIndex, historyCount, wordIndex := 0, 0, 0;
      new;
      forall i | 0 <= i < HISTORY_SIZE
        ensures RowsOf(history)[i] == EmptyHist().rows[i]
      {
      }
    }

    /** `consoleintr(ch)`: the echoed bytes and the new state are those of
        `LineDiscipline.Intr`, and the invariant is kept. */
    method Intr(ch: byte) returns (echo: seq<byte>)
      requires Valid()
      modifies this, buf
      ensures Valid()
      ensures buf == old(buf) && history == old(history)
      ensures Model() == LineDiscipline.Intr(old(Model()), ch).state
      ensures echo == LineDiscipline.Intr(old(Model()), ch).echo
    {
      LineDiscipline.IntrKeepsGood(Model(), ch);
      if ch == Ctrl('P') {
        echo := [];
      } else if ch == Ctrl('U') {
        echo := KillLine();
      } else if ch == Ctrl('H') || ch == DEL {
        echo := Backspace();
      } else if ch == Ctrl('W') || ch == Ctrl('S') {
        echo := Navigate(ch == Ctrl('W'));
      } else {
        echo := Append(ch);
      }
    }

    /** The default branch: echo, store at `e`, maybe commit, as
        `LineQueue.Append` says. */
    method Append(ch: byte) returns (echo: seq<byte>)
      requires Sized()
      modifies this, buf
      ensures Sized() && buf == old(buf) && history == old(history)
      ensures historyIndex == old(historyIndex) && historyCount == old(historyCount) && wordIndex == old(wordIndex)
      ensures Edit(Cons(buf[..], r, w, e), echo) == LineQueue.Append(Cons(old(buf[..]), old(r), old(w), old(e)), ch)
    {
      if ch != 0 && Sub(e, r) < INPUT_BUF_SIZE {
        var y := if ch == CR then LF else ch;
        echo := PutC(y);
        buf[e % INPUT_BUF_SIZE] := y;
        e := Inc(e);
        if y == LF || y == EOF || Sub(e, r) == INPUT_BUF_SIZE {
          w := e;
        }
      } else {
        echo := [];
      }
    }

    /** Ctrl-H and DEL, as `LineQueue.Backspace` says. */
    method Backspace() returns (echo: seq<byte>)
      requires Sized()
      modifies this
      ensures Sized() && buf == old(buf) && history == old(history)
      ensures historyIndex == old(historyIndex) && historyCount == old(historyCount) && wordIndex == old(wordIndex)
      ensures Edit(Cons(buf[..], r, w, e), echo) == LineQueue.Backspace(Cons(buf[..], old(r), old(w), old(e)))
    {
      if e != w {
        e := Dec(e);
        echo := PutC(BACKSPACE);
      } else {
        echo := [];
      }
    }

    /** Ctrl-W (`up`) and Ctrl-S: step the slot as `History.Navigate` says
        and echo the line recalled from the new slot. */
    method Navigate(up: bool) returns (echo: seq<byte>)
      requires Sized()
      modifies this
      ensures Sized() && buf == old(buf) && history == old(history)
      ensures r == old(r) && w == old(w) && e == old(e)
      ensures Hist(RowsOf(history), historyIndex, historyCount, wordIndex)
           == History.Navigate(Hist(RowsOf(history), old(historyIndex), old(historyCount), old(wordIndex)), up)
      ensures echo == if old(historyCount) > 0 then LineOf(RowsOf(history)[historyIndex]) else []
    {
      if historyCount > 0 {
        if up {
          historyIndex := (historyIndex + HISTORY_SIZE - 1) % HISTORY_SIZE;
        } else {
          historyIndex := (historyIndex + 1) % HISTORY_SIZE;
        }
        echo := Recall(historyIndex);
      } else {
        echo := [];
      }
    }

    /** The kill-line loop of Ctrl-U: only `e` moves, exactly as far as
        `LineQueue.KillLine` says, with one erasure echoed per byte. */
    method KillLine() returns (echo: seq<byte>)
      requires Sized()
      modifies this
      ensures Sized() && buf == old(buf) && history == old(history)
      ensures r == old(r) && w == old(w)
      ensures historyIndex == old(historyIndex) && historyCount == old(historyCount) && wordIndex == old(wordIndex)
      ensures Edit(Cons(buf[..], r, w, e), echo) == LineQueue.KillLine(Cons(buf[..], old(r), old(w), old(e)))
    {
      echo := [];
      ghost var c0 := Cons(buf[..], r, w, e);
      while e != w && buf[Dec(e) % INPUT_BUF_SIZE] != LF
        invariant Sized() && buf == old(buf) && history == old(history)
        invariant r == old(r) && w == old(w)
        invariant historyIndex == old(historyIndex) && historyCount == old(historyCount) && wordIndex == old(wordIndex)
        invariant LineQueue.KillLine(c0) == Edit(LineQueue.KillLine(c0.(e := e)).cons, echo + LineQueue.KillLine(c0.(e := e)).echo)
        decreases Sub(e, w)
      {
        e := Dec(e);
        echo := echo + PutC(BACKSPACE);
      }
    }

    /** The echo loop of Ctrl-W and Ctrl-S: the bytes of row `slot` up to
        its first newline, at most the whole row. */
    method Recall(slot: int) returns (out: seq<byte>)
      requires Sized() && 0 <= slot < HISTORY_SIZE
      ensures out == LineOf(RowsOf(history)[slot])
    {
      out := [];
      var i := 0;
      while i < INPUT_BUF_SIZE && history[slot, i] != LF
        invariant 0 <= i <= INPUT_BUF_SIZE
        invariant out == RowsOf(history)[slot][..i]
        invariant LF !in out
      {
        out := out + PutC(history[slot, i]);
        i := i + 1;
      }
      LineOfUnique(RowsOf(history)[slot], out);
    }

    /** `consoleread(dst, n)`: the bytes delivered, how the call ends and
        the new state are those of `LineDiscipline.Read`, and the invariant
        is kept. `killed` is what `killed(myproc())` answers; the copy of
        the k-th byte to the caller succeeds exactly when k < `copyLimit`.
        The caller must not reach a history write past the end of a row. */
    method Read(n: int, killed: bool, copyLimit: nat) returns (outcome: LineDiscipline.Outcome, dst: seq<byte>)
      requires Valid()
      requires !LineDiscipline.Read(Model(), n, killed, copyLimit).outcome.Overrun?
      modifies this, history
      ensures Valid()
      ensures buf == old(buf) && history == old(history)
      ensures LineDiscipline.ReadEnd(Model(), dst, outcome) == LineDiscipline.Read(old(Model()), n, killed, copyLimit)
    {
      LineDiscipline.ReadKeepsGood(Model(), n, killed, copyLimit);
      dst := [];
      if n <= 0 {
        outcome := LineDiscipline.Returned(0);
        return;
      }
      ghost var s0 := Model();
      var left := n;
      while left > 0
        invariant Sized() && buf == old(buf) && history == old(history)
        invariant LineDiscipline.Wf(Model()) && |dst| == n - left
        invariant LineDiscipline.Drain(Model(), n, dst, killed, copyLimit) == LineDiscipline.Drain(s0, n, [], killed, copyLimit)
        decreases left
      {
        var stop;
        stop, outcome, dst := Iteration(n, dst, killed, copyLimit);
        if stop {
          return;
        }
        left := left - 1;
      }
      outcome := LineDiscipline.Returned(n - left);
    }

    /** One pass of the drain loop of `consoleread`, with `dst` the bytes
        delivered so far out of `target`: wait for a committed byte (or give
        up), take it, and either stop (end of file, failed copy, newline) or
        deliver and record it and go on, as `LineDiscipline.DrainStep` says. */
    method Iteration(target: nat, dst: seq<byte>, killed: bool, copyLimit: nat)
      returns (stop: bool, outcome: LineDiscipline.Outcome, dst1: seq<byte>)
      requires Sized() && LineDiscipline.Wf(Model()) && |dst| < target
      requires var next := LineDiscipline.DrainStep(Model(), target, dst, killed, copyLimit);
        !(next.Stop? && next.end.outcome.Overrun?)
      modifies this, history
      ensures Sized() && buf == old(buf) && history == old(history)
      ensures var next := LineDiscipline.DrainStep(old(Model()), target, dst, killed, copyLimit);
        if stop then next == LineDiscipline.Stop(LineDiscipline.ReadEnd(Model(), dst1, outcome))
        else next == LineDiscipline.Continue(Model(), dst1)
    {
      dst1 := dst;
      stop := true;
      if r == w {
        outcome := if killed then LineDiscipline.Returned(-1) else LineDiscipline.Suspended(|dst|);
        return;
      }
      var c := buf[r % INPUT_BUF_SIZE];
      r := Inc(r);
      outcome := LineDiscipline.Returned(|dst|);
      if c == EOF {
        if |dst| > 0 {
          r := Dec(r);
        }
        return;
      }
      if |dst| >= copyLimit {
        return;
      }
      dst1 := dst + [c];
      assert wordIndex < INPUT_BUF_SIZE;
      RecordByte(c);
      if c == LF {
        EndLine();
        outcome := LineDiscipline.Returned(|dst1|);
        return;
      }
      stop := false;
    }

    /** `history_buf[history_index][word_index++] = c`, as `History.Record`
        says. */
    method RecordByte(c: byte)
      requires Sized() && wordIndex < INPUT_BUF_SIZE
      modifies this, history
      ensures Sized() && buf == old(buf) && history == old(history)
      ensures r == old(r) && w == old(w) && e == old(e)
      ensures Hist(RowsOf(history), historyIndex, historyCount, wordIndex)
           == Record(old(Hist(RowsOf(history), historyIndex, historyCount, wordIndex)), c)
    {
      ghost var rows0 := RowsOf(history);
      ghost var row: seq<byte> := rows0[historyIndex][wordIndex := c];
      ghost var rows1 := rows0[historyIndex := row];
      history[historyIndex, wordIndex] := c;
      forall i | 0 <= i < HISTORY_SIZE
        ensures RowsOf(history)[i] == rows1[i]
      {
      }
      assert RowsOf(history) == rows1;
      wordIndex := wordIndex + 1;
    }

    /** A newline was delivered: column 0 of the next slot, one more
        recorded line up to five, as `History.EndLine` says. */
    method EndLine()
      requires Sized()
      modifies this
      ensures Sized() && buf == old(buf) && history == old(history)
      ensures r == old(r) && w == old(w) && e == old(e)
      ensures Hist(RowsOf(history), historyIndex, historyCount, wordIndex)
           == History.EndLine(Hist(RowsOf(history), old(historyIndex), old(historyCount), old(wordIndex)))
    {
      wordIndex := 0;
      historyIndex := (historyIndex + 1) % HISTORY_SIZE;
      if historyCount < HISTORY_SIZE {
        historyCount := historyCount + 1;
      }
    }
  }
}

/** The `cons` input queue of the console and the line editor's edits on it,
    as values: a 128-byte circular buffer with a read cursor `r`, a commit
    cursor `w` and an edit cursor `e`. Bytes in [r, w) are committed and
    readable; bytes in [w, e) are still being typed and may be erased. */
module LineQueue {
  import opened Uint32

  type byte = b: int | 0 <= b < 256

  const INPUT_BUF_SIZE: int := 128

  /** `C(x)`: the control code typed as Ctrl-x. */
  function Ctrl(x: char): int
  {
    x as int - '@' as int
  }

  const LF: byte := 10
  const CR: byte := 13
  const DEL: byte := 0x7f
  /** Ctrl-D, end of file. */
  const EOF: byte := 4
  /** Not a byte: the request to `consputc` to erase one echoed character. */
  const BACKSPACE: int := 0x100
  /** What `consputc(BACKSPACE)` sends: backspace, space, backspace. */
  const ERASE: seq<byte> := [8, 32, 8]

  /** The echo of one `consputc` call. */
  function PutC(c: int): seq<byte>
    requires c == BACKSPACE || 0 <= c < 256
  {
    if c == BACKSPACE then ERASE else [c]
  }

  /** The echo of `k` erasures. */
  function Erasures(k: nat): seq<byte>
  {
    if k == 0 then [] else ERASE + Erasures(k - 1)
  }

  datatype Cons = Cons(buf: seq<byte>, r: u32, w: u32, e: u32)

  /** What an edit produces: the new queue and the bytes echoed to the terminal. */
  datatype Edit = Edit(cons: Cons, echo: seq<byte>)

  /** The buffer has its fixed size (the C array type guarantees this). */
  predicate Shaped(c: Cons)
  {
    |c.buf| == INPUT_BUF_SIZE
  }

  function Len(c: Cons): u32 { Sub(c.e, c.r) }
  function Avail(c: Cons): u32 { Sub(c.w, c.r) }

  /** The cursor invariant: r <= w <= e in circular order and e - r <= 128. */
  predicate Inv(c: Cons)
  {
    Shaped(c) && Avail(c) <= Len(c) <= INPUT_BUF_SIZE
  }

  /** Inv, and the editable region holds no newline and no end of file:
      typing either of them commits the line at once. */
  predicate LineInv(c: Cons)
  {
    Inv(c) && LF !in Editable(c) && EOF !in Editable(c)
  }

  /** The queued bytes from `r` up to `e`, oldest first. */
  function Queue(c: Cons): (q: seq<byte>)
    requires Shaped(c)
    ensures |q| == Len(c)
  {
    seq(Len(c), i requires 0 <= i < Len(c) => c.buf[(c.r + i) % INPUT_BUF_SIZE])
  }

  /** The committed bytes [r, w), available to the reader. */
  function Committed(c: Cons): seq<byte>
    requires Inv(c)
  {
    Queue(c)[..Avail(c)]
  }

  /** The bytes [w, e) typed but not yet committed. */
  function Editable(c: Cons): seq<byte>
    requires Inv(c)
  {
    Queue(c)[Avail(c)..]
  }

  /** Carriage return is stored as newline. */
  function Store(x: byte): byte
  {
    if x == CR then LF else x
  }

  /** Whether the default branch of `consoleintr` takes byte `x`. */
  predicate Accepts(c: Cons, x: byte)
  {
    x != 0 && Len(c) < INPUT_BUF_SIZE
  }

  /** Whether storing `y` at `e` commits: newline, end of file, or a full buffer. */
  predicate Commits(c: Cons, y: byte)
  {
    y == LF || y == EOF || Sub(Inc(c.e), c.r) == INPUT_BUF_SIZE
  }

  /** The default branch of `consoleintr`: echo, store at `e`, maybe commit. */
  function Append(c: Cons, x: byte): Edit
    requires Shaped(c)
  {
    if Accepts(c, x) then
      var y := Store(x);
      var e1 := Inc(c.e);
      var w1 := if Commits(c, y) then e1 else c.w;
      Edit(Cons(c.buf[c.e % INPUT_BUF_SIZE := y], c.r, w1, e1), PutC(y))
    else
      Edit(c, [])
  }

  /** Ctrl-H and DEL: erase the last editable byte, if there is one. */
  function Backspace(c: Cons): Edit
  {
    if c.e != c.w then Edit(c.(e := Dec(c.e)), PutC(BACKSPACE)) else Edit(c, [])
  }

  /** Ctrl-U: erase editable bytes from the end until the region is empty or
      its last byte is a newline. */
  function KillLine(c: Cons): Edit
    requires Shaped(c)
    decreases Sub(c.e, c.w)
  {
    if c.e != c.w && c.buf[Dec(c.e) % INPUT_BUF_SIZE] != LF then
      var rest := KillLine(c.(e := Dec(c.e)));
      Edit(rest.cons, PutC(BACKSPACE) + rest.echo)
    else
      Edit(c, [])
  }

  /** The editable length is the queue length less the committed length. */
  lemma EditableLength(c: Cons)
    requires Inv(c)
    ensures Sub(c.e, c.w) == Len(c) - Avail(c) == |Editable(c)|
  {
    SubSplit(c.e, c.w, c.r);
  }

  /** The slot at `e` follows the last queued byte. */
  lemma SlotOfEnd(c: Cons)
    requires Shaped(c)
    ensures c.e % INPUT_BUF_SIZE == (c.r + Len(c)) % INPUT_BUF_SIZE
  {
    SlotOfDistance(c.e, c.r);
  }

  /** Writing the slot at `e` and advancing `e` appends to the queue and
      leaves every queued byte in place. */
  lemma QueuePush(c: Cons, y: byte)
    requires Shaped(c) && Len(c) < INPUT_BUF_SIZE
    ensures var c1 := c.(buf := c.buf[c.e % INPUT_BUF_SIZE := y], e := Inc(c.e));
      Queue(c1) == Queue(c) + [y]
  {
    var c1 := c.(buf := c.buf[c.e % INPUT_BUF_SIZE := y], e := Inc(c.e));
    SubInc(c.e, c.r);
    SlotOfEnd(c);
    forall i | 0 <= i < Len(c)
      ensures Queue(c1)[i] == Queue(c)[i]
    {
      SlotsDistinct(c.r, i, Len(c));
    }
  }

  /** Moving `e` back drops the last queued byte. */
  lemma QueuePop(c: Cons)
    requires Shaped(c) && c.e != c.r
    ensures Queue(c.(e := Dec(c.e))) == Queue(c)[..Len(c) - 1]
  {
    SubDec(c.e, c.r);
  }

  /** The reader's advance: moving `r` forward by `k` committed bytes drops
      them from the front of the queue and changes nothing else. */
  lemma QueueDrop(c: Cons, k: nat)
    requires Inv(c) && k <= Avail(c)
    ensures var c1 := c.(r := Add(c.r, k));
      Inv(c1) && Avail(c1) == Avail(c) - k
      && Queue(c1) == Queue(c)[k..]
      && Committed(c1) == Committed(c)[k..] && Editable(c1) == Editable(c)
  {
    var c1 := c.(r := Add(c.r, k));
    SubAdd(c.w, c.r, k);
    SubAdd(c.e, c.r, k);
    forall i | 0 <= i < Len(c1)
      ensures Queue(c1)[i] == Queue(c)[k + i]
    {
      SlotOfAdd(c.r, k, i);
    }
  }

  /** The last editable byte sits in the slot before `e`. */
  lemma LastEditable(c: Cons)
    requires Inv(c) && c.e != c.w
    ensures |Editable(c)| > 0
    ensures c.buf[Dec(c.e) % INPUT_BUF_SIZE] == Editable(c)[|Editable(c)| - 1]
  {
    EditableLength(c);
    SubDec(c.e, c.r);
    SlotOfDistance(Dec(c.e), c.r);
  }

  /** The default byte: a byte is stored only if it is not NUL and the queue
      holds fewer than 128 bytes; then it is appended (CR as LF) and echoed,
      `e` grows by one, no other slot of the buffer changes and the invariant
      still holds. Otherwise nothing changes and nothing is echoed. */
  lemma AppendSpec(c: Cons, x: byte)
    requires Inv(c)
    ensures var ed := Append(c, x);
      if Accepts(c, x) then
        ed.cons.r == c.r && ed.cons.e == Inc(c.e)
        && (forall i :: 0 <= i < INPUT_BUF_SIZE && i != c.e % INPUT_BUF_SIZE ==> ed.cons.buf[i] == c.buf[i])
        && Queue(ed.cons) == Queue(c) + [Store(x)]
        && ed.echo == [Store(x)]
        && Inv(ed.cons)
      else
        ed == Edit(c, [])
  {
    if Accepts(c, x) {
      QueuePush(c, Store(x));
      SubInc(c.e, c.r);
    }
  }

  /** The commit rule: after an append, `w` jumps to `e` exactly when the
      stored byte is newline or end of file or the queue is full; otherwise
      the committed bytes stay as they were and the stored byte joins the
      editable region. */
  lemma CommitRule(c: Cons, x: byte)
    requires Inv(c) && Accepts(c, x)
    ensures var c1 := Append(c, x).cons;
      (c1.w == c1.e <==> Store(x) == LF || Store(x) == EOF || Len(c1) == INPUT_BUF_SIZE)
      && (c1.w != c1.e ==> c1.w == c.w)
      && Inv(c1)
      && (c1.w == c1.e ==> Committed(c1) == Queue(c) + [Store(x)] && Editable(c1) == [])
      && (c1.w != c1.e ==> Committed(c1) == Committed(c) && Editable(c1) == Editable(c) + [Store(x)])
  {
    AppendSpec(c, x);
    var c1 := Append(c, x).cons;
    SubInc(c.e, c.r);
    assert c.w != c1.e by {
      assert Sub(c.w, c.r) < Sub(c1.e, c.r);
    }
  }

  /** Editing keeps the editable region free of newline and end of file. */
  lemma AppendKeepsLineInv(c: Cons, x: byte)
    requires LineInv(c)
    ensures LineInv(Append(c, x).cons)
  {
    if Accepts(c, x) {
      CommitRule(c, x);
    }
  }

  /** Backspace and DEL: with a non-empty editable region, `e` moves back by
      exactly one and the last editable byte is erased from the screen; at
      `w` nothing changes. `buf`, `r` and `w` are never touched and the
      committed bytes stay as they were. */
  lemma BackspaceSpec(c: Cons)
    requires Inv(c)
    ensures var ed := Backspace(c);
      ed.cons.buf == c.buf && ed.cons.r == c.r && ed.cons.w == c.w
      && Inv(ed.cons) && Committed(ed.cons) == Committed(c)
      && (c.e != c.w ==> ed.cons.e == Dec(c.e) && ed.echo == ERASE
                         && Editable(ed.cons) == Editable(c)[..|Editable(c)| - 1])
      && (c.e == c.w ==> ed == Edit(c, []))
  {
    if c.e != c.w {
      EditableLength(c);
      assert c.e != c.r;
      SubDec(c.e, c.r);
      QueuePop(c);
    }
  }

  /** Backspace undoes an append that did not commit: the queue and its
      cursors are back where they were. */
  lemma BackspaceUndoesAppend(c: Cons, x: byte)
    requires Inv(c) && Accepts(c, x) && !Commits(c, Store(x))
    ensures var c2 := Backspace(Append(c, x).cons).cons;
      c2.r == c.r && c2.w == c.w && c2.e == c.e && Queue(c2) == Queue(c)
  {
    var c1 := Append(c, x).cons;
    AppendSpec(c, x);
    CommitRule(c, x);
    BackspaceSpec(c1);
    DecInc(c.e);
    assert Queue(Backspace(c1).cons) == (Queue(c) + [Store(x)])[..Len(c)];
  }

  /** Drops trailing bytes until the sequence is empty or ends in a newline. */
  function TrimToNewline(s: seq<byte>): (t: seq<byte>)
    ensures |t| <= |s| && t == s[..|t|]
    ensures LF !in s[|t|..]
    ensures t == [] || t[|t| - 1] == LF
  {
    if s != [] && s[|s| - 1] != LF then
      var t := TrimToNewline(s[..|s| - 1]);
      assert s[|t|..] == s[..|s| - 1][|t|..] + [s[|s| - 1]];
      t
    else
      s
  }

  /** Ctrl-U erases the editable bytes after the last newline in them, one
      erasure echoed per byte; `r`, `w`, `buf` and the committed bytes are
      untouched, so it never goes below `w`. */
  lemma {:induction false} KillLineSpec(c: Cons)
    requires Inv(c)
    ensures var ed := KillLine(c);
      ed.cons.buf == c.buf && ed.cons.r == c.r && ed.cons.w == c.w
      && Inv(ed.cons) && Committed(ed.cons) == Committed(c)
      && Editable(ed.cons) == TrimToNewline(Editable(c))
      && ed.echo == Erasures(|Editable(c)| - |Editable(ed.cons)|)
    decreases Sub(c.e, c.w)
  {
    EditableLength(c);
    if c.e != c.w && c.buf[Dec(c.e) % INPUT_BUF_SIZE] != LF {
      LastEditable(c);
      var c1 := c.(e := Dec(c.e));
      BackspaceSpec(c);
      assert Backspace(c).cons == c1;
      KillLineSpec(c1);
      EditableLength(c1);
      assert Editable(c1) == Editable(c)[..|Editable(c)| - 1];
    } else if c.e != c.w {
      LastEditable(c);
    } else {
      assert Editable(c) == [];
    }
  }

  /** With the line invariant, Ctrl-U empties the editable region: `e` ends at `w`. */
  lemma KillLineClears(c: Cons)
    requires LineInv(c)
    ensures KillLine(c).cons.e == KillLine(c).cons.w
    ensures LineInv(KillLine(c).cons)
  {
    KillLineSpec(c);
    EditableLength(KillLine(c).cons);
  }

  /** Backspace keeps the line invariant. */
  lemma BackspaceKeepsLineInv(c: Cons)
    requires LineInv(c)
    ensures LineInv(Backspace(c).cons)
  {
    BackspaceSpec(c);
    if c.e != c.w {
      var ed := Editable(c);
      assert forall b :: b in ed[..|ed| - 1] ==> b in ed;
    }
  }
}

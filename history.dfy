/** The console's line-history ring, as a value: five rows of 128 bytes
    (`history_buf`), the slot the reader writes into and navigation moves
    (`history_index`), the number of completed lines recorded, saturating at
    five (`history_count`), and the column of the next byte (`word_index`). */
module History {
  import opened LineQueue

  const HISTORY_SIZE: int := 5

  datatype Hist = Hist(rows: seq<seq<byte>>, index: int, count: int, word: int)

  /** What the C declarations and the updates keep true. The column `word`
      has no upper bound: nothing in the source keeps it below 128. */
  predicate HistInv(h: Hist)
  {
    |h.rows| == HISTORY_SIZE
    && (forall i :: 0 <= i < HISTORY_SIZE ==> |h.rows[i]| == INPUT_BUF_SIZE)
    && 0 <= h.index < HISTORY_SIZE
    && 0 <= h.count <= HISTORY_SIZE
    && 0 <= h.word
  }

  /** The zero-initialised globals. */
  function EmptyHist(): Hist
  {
    Hist(seq(HISTORY_SIZE, _ => seq(INPUT_BUF_SIZE, _ => 0)), 0, 0, 0)
  }

  /** `history_buf[history_index][word_index] = b; word_index++`. */
  function Record(h: Hist, b: byte): Hist
    requires HistInv(h) && h.word < INPUT_BUF_SIZE
  {
    var row: seq<byte> := h.rows[h.index][h.word := b];
    h.(rows := h.rows[h.index := row], word := h.word + 1)
  }

  /** Recording each byte of `s` in turn. */
  function RecordAll(h: Hist, s: seq<byte>): (h1: Hist)
    requires HistInv(h) && h.word + |s| <= INPUT_BUF_SIZE
    ensures HistInv(h1) && h1.index == h.index && h1.count == h.count
    ensures h1.word == h.word + |s|
    decreases |s|
  {
    if s == [] then h else RecordAll(Record(h, s[0]), s[1..])
  }

  /** A newline was delivered: back to column 0 of the next slot; the count
      of recorded lines grows up to five. */
  function EndLine(h: Hist): Hist
  {
    h.(word := 0,
       index := (h.index + 1) % HISTORY_SIZE,
       count := if h.count < HISTORY_SIZE then h.count + 1 else h.count)
  }

  /** Ctrl-W (`up`) and Ctrl-S (`!up`): step `history_index` one slot back or
      forward around the ring, once there is at least one line. */
  function Navigate(h: Hist, up: bool): Hist
  {
    if h.count > 0 then
      h.(index := if up then (h.index + HISTORY_SIZE - 1) % HISTORY_SIZE
                  else (h.index + 1) % HISTORY_SIZE)
    else
      h
  }

  /** What recalling a row shows: its bytes before the first newline, all of
      them when it holds none. */
  function LineOf(row: seq<byte>): (s: seq<byte>)
    ensures |s| <= |row| && s == row[..|s|]
    ensures LF !in s
    ensures |s| < |row| ==> row[|s|] == LF
  {
    if row == [] || row[0] == LF then [] else [row[0]] + LineOf(row[1..])
  }

  /** The three properties of LineOf pin it down: whatever meets them is it. */
  lemma LineOfUnique(row: seq<byte>, s: seq<byte>)
    requires |s| <= |row| && s == row[..|s|]
    requires LF !in s
    requires |s| < |row| ==> row[|s|] == LF
    ensures s == LineOf(row)
  {
  }

  /** Recording keeps the ring well formed. */
  lemma RecordKeepsInv(h: Hist, b: byte)
    requires HistInv(h) && h.word < INPUT_BUF_SIZE
    ensures HistInv(Record(h, b))
  {
  }

  /** Recording `s` writes it at columns [word, word + |s|) of the current
      slot, moves `word` past it and changes no other cell. */
  lemma {:induction false} RecordAllSpec(h: Hist, s: seq<byte>)
    requires HistInv(h) && h.word + |s| <= INPUT_BUF_SIZE
    ensures var h1 := RecordAll(h, s);
      HistInv(h1) && h1.index == h.index && h1.count == h.count
      && h1.word == h.word + |s|
      && h1.rows[h.index][h.word..h.word + |s|] == s
      && (forall i, j ::
            (0 <= i < HISTORY_SIZE && 0 <= j < INPUT_BUF_SIZE && !(i == h.index && h.word <= j < h.word + |s|))
            ==> h1.rows[i][j] == h.rows[i][j])
    decreases |s|
  {
    if s != [] {
      var h0 := Record(h, s[0]);
      RecordAllSpec(h0, s[1..]);
      var h1 := RecordAll(h, s);
      assert h1 == RecordAll(h0, s[1..]);
      forall k | 0 <= k < |s|
        ensures h1.rows[h.index][h.word + k] == s[k]
      {
        if k > 0 {
          assert h1.rows[h.index][h0.word + (k - 1)] == s[1..][k - 1];
        }
      }
    }
  }

  /** On a newline the column resets, the slot advances around the ring and
      the count saturates at five: it is one more, but never more than five. */
  lemma EndLineSpec(h: Hist)
    requires HistInv(h)
    ensures var h1 := EndLine(h);
      HistInv(h1) && h1.rows == h.rows && h1.word == 0
      && h1.count == (if h.count + 1 < HISTORY_SIZE then h.count + 1 else HISTORY_SIZE)
      && h1.index == (h.index + 1) % HISTORY_SIZE
      && h1.index != h.index
      && Navigate(h1, true).index == h.index
  {
  }

  /** Ctrl-S undoes Ctrl-W and Ctrl-W undoes Ctrl-S; navigation touches
      nothing but the slot index, and only once a line has been recorded. */
  lemma NavigateInverse(h: Hist, up: bool)
    requires HistInv(h)
    ensures HistInv(Navigate(h, up))
    ensures Navigate(Navigate(h, up), !up) == h
    ensures Navigate(h, up).rows == h.rows && Navigate(h, up).word == h.word
      && Navigate(h, up).count == h.count
    ensures (Navigate(h, up) == h) <==> h.count == 0
    ensures h.count > 0 ==>
      Navigate(h, up).index
        == if up then (h.index + HISTORY_SIZE - 1) % HISTORY_SIZE else (h.index + 1) % HISTORY_SIZE
  {
  }
}

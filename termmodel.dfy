/**
 * The state of lineterm.py's `Terminal` apart from its cells and its scroll buffers, what
 * keeps it well formed, and the changes `cursor_down` makes to it, as values.
 */
module TermModel {
  import opened Wrappers
  import opened Text
  import opened Entries
  import opened Shell
  import opened Sgr
  import opened Utf8
  import opened Grid
  import opened Buffer
  import opened Csi

  /** Everything of a terminal except its cells and its scroll buffers. */
  datatype TermState = TermState(
    cursorX: int,
    cursorY: int,
    cursorEol: bool,
    activeRows: int,
    scrollTop: int,
    scrollBot: int,
    currentNul: Cell,
    echo: Accum,
    cursorXBak: int,
    cursorYBak: int,
    currentMeta: Option<Meta>,
    meta: seq<Option<Meta>>)

  /** For a screen of `w` columns and `h` rows: the cursor and the saved cursor are on the
      screen, the scrolling region is a non-empty band of rows, at most `h` rows are active,
      there is one meta per row, the style carries no code point and the UTF-8 accumulator is
      well formed. */
  predicate Fits(st: TermState, w: int, h: int) {
    && |st.meta| == h
    && 0 <= st.cursorX < w && 0 <= st.cursorY < h
    && 0 <= st.cursorXBak < w && 0 <= st.cursorYBak < h
    && 0 <= st.scrollTop <= st.scrollBot < h
    && 0 <= st.activeRows <= h
    && StyleOnly(st.currentNul)
    && WellFormed(st.echo)
  }

  /** `dump(peek(y, 0, y, w), trim)`: row `y` as text (never failing, since every cell holds
      a scalar value). */
  function RowText(d: seq<Cell>, w: nat, y: nat, trim: bool): string
    requires Start(w, y) + w <= |d| && AllScalar(d)
  {
    SliceScalar(d, Start(w, y), Start(w, y) + w);
    DumpSpec(Row(d, w, y), trim);
    Dump(Row(d, w, y), trim).value
  }

  /** What `scroll_buf_up` makes of a buffer when row `y` leaves the top of the screen: the
      trimmed row text, the row's meta, and the offset of the command after its prompt. */
  function RowEntered(st: BufState, preOffset: nat, d: seq<Cell>, w: nat, y: nat, m: Option<Meta>,
                      pdelim: Option<Delims>): BufState
    requires Start(w, y) + w <= |d| && AllScalar(d)
  {
    ScrolledUp(st, preOffset, RowText(d, w, y, true), m, PromptOffset(RowText(d, w, y, false), pdelim, m),
               "", PlainRow, NoMarkup)
  }

  /** The meta of the next row a command wraps onto: the same directory, one more
      continuation. */
  function Continued(m: Meta): Meta {
    Meta(m.dir, m.continuation + 1)
  }

  /** The end of `cursor_down` on the main screen: the cursor's row counts as active, and while
      a command is being entered the last active row gets its meta if it has none. */
  function Activated(st: TermState, alt: bool): TermState
    requires 0 <= st.cursorY < |st.meta| && 0 <= st.activeRows <= |st.meta|
  {
    if alt then st
    else
      var ar := Max(st.cursorY + 1, st.activeRows);
      if st.currentMeta.Some? && st.meta[ar - 1].None? then
        var cm := Some(Continued(st.currentMeta.value));
        st.(activeRows := ar, currentMeta := cm, meta := st.meta[ar - 1 := cm])
      else
        st.(activeRows := ar)
  }

  /** On the main screen the rows down to the cursor become active, and while a command is
      being entered the last active row carries the command's meta afterwards; only that one
      row's meta can change, and then only from None. On the alternate screen nothing
      changes. */
  lemma {:induction false} ActivatedSpec(st: TermState, alt: bool)
    requires 0 <= st.cursorY < |st.meta| && 0 <= st.activeRows <= |st.meta|
    ensures var r := Activated(st, alt);
      && r.cursorX == st.cursorX && r.cursorY == st.cursorY && r.cursorEol == st.cursorEol
      && |r.meta| == |st.meta| && 0 <= r.activeRows <= |r.meta|
      && (alt ==> r == st)
      && (!alt ==> r.activeRows == Max(st.cursorY + 1, st.activeRows) && st.cursorY < r.activeRows)
      && (!alt && st.currentMeta.Some? ==> r.currentMeta.Some? && r.meta[r.activeRows - 1].Some?)
      && (st.currentMeta.None? ==> r.currentMeta == None && r.meta == st.meta)
      && (forall y :: 0 <= y < |st.meta| && y != r.activeRows - 1 ==> r.meta[y] == st.meta[y])
      && (r.meta != st.meta ==>
            st.meta[r.activeRows - 1] == None && r.meta[r.activeRows - 1] == r.currentMeta == Some(Continued(st.currentMeta.value)))
  {
  }

  /** The middle of `cursor_down`, for a cursor inside the scrolling region: at the bottom
      margin the region scrolls up under the cursor, elsewhere the cursor moves down a row. */
  function Moved(st: TermState, alt: bool): (r: TermState)
    requires 0 <= st.scrollTop <= st.cursorY <= st.scrollBot < |st.meta| && 0 <= st.activeRows <= |st.meta|
    ensures |r.meta| == |st.meta| && 0 <= r.activeRows <= |r.meta|
    ensures st.scrollTop <= r.cursorY <= st.scrollBot
  {
    if st.cursorY == st.scrollBot then
      st.(cursorEol := false,
          meta := MetaUp(st.meta, st.scrollTop, st.scrollBot),
          activeRows := if st.scrollBot > st.scrollTop && !alt then Max(st.scrollTop + 1, st.activeRows) else st.activeRows)
    else
      st.(cursorEol := false, cursorY := st.cursorY + 1)
  }

  /** The rows a state's cursor, margins and active-row count refer to exist. */
  predicate RowsOk(st: TermState) {
    && 0 <= st.cursorY < |st.meta|
    && 0 <= st.scrollTop <= st.scrollBot < |st.meta|
    && 0 <= st.activeRows <= |st.meta|
  }

  /** `cursor_down` acts only on a cursor inside the scrolling region. */
  predicate InRegion(st: TermState) {
    st.scrollTop <= st.cursorY <= st.scrollBot
  }

  /** `cursor_down` scrolls when the cursor is on the bottom margin. */
  predicate AtBottom(st: TermState) {
    InRegion(st) && st.cursorY == st.scrollBot
  }

  /** `cursor_down` on the state. */
  function Down(st: TermState, alt: bool): TermState
    requires RowsOk(st)
  {
    if InRegion(st) then Activated(Moved(st, alt), alt) else st
  }

  /** `cursor_down` on the cells of a screen `w` wide. */
  function DownCells(d: seq<Cell>, w: nat, st: TermState): seq<Cell>
    requires RowsOk(st) && Start(w, st.scrollBot) + w <= |d|
  {
    if AtBottom(st) then ShiftedUp(d, w, st.scrollTop, st.scrollBot) else d
  }

  /** `cursor_down` on a scroll buffer: it takes the top row of the region when the region
      scrolls and the buffer is the one rows go to (`takes`). */
  function DownBuf(b: BufState, preOffset: nat, d: seq<Cell>, w: nat, st: TermState, pdelim: Option<Delims>,
                   takes: bool): BufState
    requires RowsOk(st) && Start(w, st.scrollTop) + w <= |d| && AllScalar(d)
  {
    if AtBottom(st) && takes then RowEntered(b, preOffset, d, w, st.scrollTop, st.meta[st.scrollTop], pdelim)
    else b
  }

  /** `cursor_down` keeps a well-formed state well formed. Inside the scrolling region it
      clears the pending wrap and moves the cursor down one row, stopping at the bottom margin,
      and on the main screen the cursor's row is then active; outside the region nothing
      changes. The column is never touched. */
  lemma {:induction false} DownSpec(st: TermState, alt: bool, w: int)
    requires Fits(st, w, |st.meta|)
    ensures RowsOk(st)
    ensures Fits(Down(st, alt), w, |st.meta|)
    ensures Down(st, alt).cursorX == st.cursorX
    ensures !InRegion(st) ==> Down(st, alt) == st
    ensures InRegion(st) ==>
      && Down(st, alt).cursorY == Min(st.cursorY + 1, st.scrollBot)
      && !Down(st, alt).cursorEol
      && InRegion(Down(st, alt))
      && (!alt ==> Down(st, alt).cursorY < Down(st, alt).activeRows)
  {
    if InRegion(st) {
      ActivatedSpec(Moved(st, alt), alt);
    }
  }

  /** `esc_0x09`: the next multiple of 8, wrapped around the line width. */
  function TabStop(x: nat, w: nat): (r: nat)
    requires w >= 1
  {
    ((x + 8) / 8 * 8) % w
  }

  /** The tab stop lies on the line; when the next multiple of 8 fits on the line it is that
      multiple, strictly right of `x` and at most 8 columns on. */
  lemma {:induction false} TabStopSpec(x: nat, w: nat)
    requires w >= 1
    ensures TabStop(x, w) < w
    ensures (x / 8 + 1) * 8 < w ==> TabStop(x, w) % 8 == 0 && x < TabStop(x, w) <= x + 8
  {
    var q := x / 8;
    assert (x + 8) / 8 == q + 1;
    var m := (q + 1) * 8;
    if m < w {
      ModSmall(m, w);
    }
  }

  lemma {:induction false} ModSmall(m: nat, w: nat)
    requires m < w
    ensures m % w == m
  {
  }

  /** `divmod(x + 1, w)` for a column `x` on a line `w` wide: the next column with quotient 0,
      or, from the last column, quotient 1 and remainder 0. */
  lemma {:induction false} NextColumn(x: nat, w: nat)
    requires x < w
    ensures x + 1 < w ==> (x + 1) / w == 0 && (x + 1) % w == x + 1
    ensures x + 1 >= w ==> (x + 1) / w == 1 && (x + 1) % w == 0
  {
  }

  /** The first part of `esc_ri` (reverse index) on the state: at the top margin the region
      scrolls down under the cursor, elsewhere the cursor moves up a row but not above the top
      margin. */
  function Raised(st: TermState, alt: bool): TermState
    requires RowsOk(st)
  {
    if st.cursorY == st.scrollTop then
      st.(meta := MetaDown(st.meta, st.scrollTop, st.scrollBot),
          activeRows := if st.scrollBot > st.scrollTop && !alt then Max(st.scrollTop + 2, st.activeRows) else st.activeRows)
    else
      st.(cursorY := Max(st.scrollTop, st.cursorY - 1))
  }

  /** `esc_ri` on the state: Raised, then on the main screen the cursor's row is active. */
  function Reversed(st: TermState, alt: bool): TermState
    requires RowsOk(st)
  {
    var moved := Raised(st, alt);
    if alt then moved else moved.(activeRows := Max(moved.cursorY + 1, moved.activeRows))
  }

  /** `esc_ri` on the cells of a screen `w` wide. */
  function ReversedCells(d: seq<Cell>, w: nat, st: TermState): seq<Cell>
    requires RowsOk(st) && Start(w, st.scrollBot) + w <= |d|
  {
    if st.cursorY == st.scrollTop then ShiftedDown(d, w, st.scrollTop, st.scrollBot) else d
  }

  /** Both parts of reverse index keep a well-formed state well formed. */
  lemma {:induction false} ReversedFits(st: TermState, alt: bool, w: int)
    requires Fits(st, w, |st.meta|)
    ensures RowsOk(st)
    ensures Fits(Raised(st, alt), w, |st.meta|)
    ensures Fits(Reversed(st, alt), w, |st.meta|)
  {
    RaisedFits(st, alt, w);
    var m := Raised(st, alt);
    assert Reversed(st, alt) == if alt then m else m.(activeRows := Max(m.cursorY + 1, m.activeRows));
  }

  lemma {:induction false} RaisedFits(st: TermState, alt: bool, w: int)
    requires Fits(st, w, |st.meta|)
    ensures RowsOk(st)
    ensures Fits(Raised(st, alt), w, |st.meta|)
  {
    if st.cursorY == st.scrollTop {
      var md := MetaDown(st.meta, st.scrollTop, st.scrollBot);
      var ar := if st.scrollBot > st.scrollTop && !alt then Max(st.scrollTop + 2, st.activeRows) else st.activeRows;
      assert |md| == |st.meta| && ar <= |st.meta|;
      assert Raised(st, alt) == st.(meta := md, activeRows := ar);
    } else {
      assert Raised(st, alt) == st.(cursorY := Max(st.scrollTop, st.cursorY - 1));
    }
  }

  /** Reverse index leaves the cursor on the top margin or one row above where it was, never
      above the top margin; the column and the pending wrap are kept, and on the main screen
      the cursor's row is active. */
  lemma {:induction false} ReversedCursor(st: TermState, alt: bool)
    requires RowsOk(st)
    ensures Reversed(st, alt).cursorY == if st.cursorY == st.scrollTop then st.scrollTop else Max(st.scrollTop, st.cursorY - 1)
    ensures st.scrollTop <= Reversed(st, alt).cursorY
    ensures st.cursorY > st.scrollTop ==> Reversed(st, alt).cursorY == st.cursorY - 1
    ensures Reversed(st, alt).cursorX == st.cursorX && Reversed(st, alt).cursorEol == st.cursorEol
    ensures !alt ==> Reversed(st, alt).cursorY < Reversed(st, alt).activeRows
  {
  }

  /** The first step of writing a character: a pending wrap moves the cursor to the start of
      the next row (`cursor_down`, then column 0). */
  function Wrapped(st: TermState, alt: bool): TermState
    requires RowsOk(st)
  {
    if st.cursorEol then Down(st, alt).(cursorX := 0) else st
  }

  function WrappedCells(d: seq<Cell>, w: nat, st: TermState): seq<Cell>
    requires RowsOk(st) && Start(w, st.scrollBot) + w <= |d|
  {
    if st.cursorEol then DownCells(d, w, st) else d
  }

  function WrappedBuf(b: BufState, preOffset: nat, d: seq<Cell>, w: nat, st: TermState, pdelim: Option<Delims>,
                      takes: bool): BufState
    requires RowsOk(st) && Start(w, st.scrollTop) + w <= |d| && AllScalar(d)
  {
    if st.cursorEol then DownBuf(b, preOffset, d, w, st, pdelim, takes) else b
  }

  /** The last step of writing a character on a screen `w` wide: `cursor_right`, then on the
      main screen the cursor's row is active. */
  function Written(st: TermState, w: int, alt: bool): TermState {
    var r := st.(cursorX := Min(st.cursorX + 1, w - 1), cursorEol := st.cursorEol || st.cursorX + 1 >= w);
    if alt then r else r.(activeRows := Max(st.cursorY + 1, st.activeRows))
  }

  /** The cell `echo` stores: the current style with the code point in the low bits. */
  function Styled(nul: Cell, c: bv32): Cell {
    nul | c
  }

  /** A styled cell holds exactly the code point written and the style's bits above it. */
  lemma {:induction false} StyledSpec(nul: Cell, c: bv32)
    requires StyleOnly(nul) && IsScalar(c)
    ensures CodeOf(Styled(nul, c)) == c
    ensures Styled(nul, c) & !UniMask == nul & !UniMask
  {
  }

  /** Writing a character keeps a well-formed state well formed: the cursor moves one column
      right, or stays in the last column with the wrap pending, and on the main screen its row
      is active. */
  lemma {:induction false} WrittenSpec(st: TermState, w: int, alt: bool)
    requires Fits(st, w, |st.meta|)
    ensures Fits(Written(st, w, alt), w, |st.meta|)
    ensures st.cursorX + 1 < w ==> Written(st, w, alt).cursorX == st.cursorX + 1 && Written(st, w, alt).cursorEol == st.cursorEol
    ensures st.cursorX == w - 1 ==> Written(st, w, alt).cursorX == st.cursorX && Written(st, w, alt).cursorEol
    ensures Written(st, w, alt).cursorY == st.cursorY
    ensures !alt ==> st.cursorY < Written(st, w, alt).activeRows
  {
  }

  /** Python's slice assignment `d[lo:hi] = create_array(0, hi - lo)` on an `array`: where `hi`
      runs past the end, the array grows. */
  function SliceZeroed(d: seq<Cell>, lo: nat, hi: nat): (r: seq<Cell>)
    requires lo <= hi && lo <= |d|
  {
    d[..lo] + Blank(hi - lo) + (if hi <= |d| then d[hi..] else [])
  }

  /** Within the array the slice assignment is Zeroed; past its end it lengthens the array. */
  lemma {:induction false} SliceZeroedSpec(d: seq<Cell>, lo: nat, hi: nat)
    requires lo <= hi && lo <= |d|
    ensures hi <= |d| ==> SliceZeroed(d, lo, hi) == Zeroed(d, lo, hi)
    ensures hi > |d| ==> |SliceZeroed(d, lo, hi)| == hi
  {
    if hi <= |d| {
      var r := SliceZeroed(d, lo, hi);
      forall i | 0 <= i < |d| ensures r[i] == Zeroed(d, lo, hi)[i] {
        if i < lo {
          assert r[i] == d[..lo][i];
        } else if i < hi {
          assert r[i] == Blank(hi - lo)[i - lo];
        } else {
          assert r[i] == d[hi..][i - hi];
        }
      }
    }
  }

  /** `csi_X(l)` as written on a screen `w` wide, cursor at (y, x), `n = l[0]`:
      `zero(y, x, y, x + n)`. */
  function EraseCharsAsWritten(d: seq<Cell>, w: nat, y: nat, x: nat, n: nat): seq<Cell>
    requires Start(w, y) + x <= |d|
  {
    SliceZeroed(d, Start(w, y) + x, Start(w, y) + x + n + 1)
  }

  /** On a one-row screen four columns wide, erasing one character from column 0 blanks two
      cells, and erasing one from the last column makes the screen five cells long. */
  lemma {:induction false} EraseCharsAsWrittenExample()
    ensures EraseCharsAsWritten([65, 66, 67, 68], 4, 0, 0, 1) == [0, 0, 67, 68]
    ensures |EraseCharsAsWritten([65, 66, 67, 68], 4, 0, 3, 1)| == 5
  {
    assert Start(4, 0) == 0;
    assert Blank(2) == [0, 0];
  }

  /** How many cells `csi_X` erases from column `x` of a row `w` wide: `n`, at least one
      (a parameter of 0 means 1 in section 8.3.38 of ECMA-48), and none past the row's end. */
  function EraseCount(x: int, w: int, n: nat): int {
    Min(Max(n, 1), w - x)
  }

  lemma {:induction false} EraseCountSpec(x: int, w: int, n: nat)
    requires 0 <= x < w
    ensures 1 <= EraseCount(x, w, n) <= w - x
    ensures 1 <= n <= w - x ==> EraseCount(x, w, n) == n
  {
  }

  /** `csi_A(l)` with `n = l[0]`: up `n` rows, but not above the top margin. */
  function Up(st: TermState, n: nat): TermState {
    st.(cursorY := Max(st.scrollTop, st.cursorY - n))
  }

  /** `csi_B(l)` with `n = l[0]`: down `n` rows, but not below the bottom margin; on the main
      screen the cursor's row is then active. */
  function DownBy(st: TermState, n: nat, alt: bool): TermState {
    var y := Min(st.scrollBot, st.cursorY + n);
    if alt then st.(cursorY := y) else st.(cursorY := y, activeRows := Max(y + 1, st.activeRows))
  }

  /** `csi_C(l)` with `n = l[0]`: right `n` columns, but not past the last column of a line
      `w` wide; no wrap is pending afterwards. */
  function Forward(st: TermState, n: nat, w: int): TermState {
    st.(cursorX := Min(w - 1, st.cursorX + n), cursorEol := false)
  }

  /** `csi_D(l)` with `n = l[0]`: left `n` columns, but not past the first; no wrap is pending
      afterwards. */
  function Backward(st: TermState, n: nat): TermState {
    st.(cursorX := Max(0, st.cursorX - n), cursorEol := false)
  }

  /** Cursor up keeps the state well formed and only moves the cursor's row: to `n` rows up
      when that is inside the region, else to the top margin, and never down unless the cursor
      was above the region. */
  lemma {:induction false} UpSpec(st: TermState, n: nat, w: int)
    requires Fits(st, w, |st.meta|)
    ensures Fits(Up(st, n), w, |st.meta|)
    ensures st.scrollTop <= Up(st, n).cursorY <= Max(st.cursorY, st.scrollTop)
    ensures st.cursorY - n >= st.scrollTop ==> Up(st, n).cursorY == st.cursorY - n
    ensures Up(st, n) == st.(cursorY := Up(st, n).cursorY)
  {
  }

  /** Cursor down keeps the state well formed and moves the cursor's row to `n` rows down when
      that is inside the region, else to the bottom margin, never up unless the cursor was
      below the region; the column is kept. */
  lemma {:induction false} DownBySpec(st: TermState, n: nat, alt: bool, w: int)
    requires Fits(st, w, |st.meta|)
    ensures Fits(DownBy(st, n, alt), w, |st.meta|)
    ensures Min(st.cursorY, st.scrollBot) <= DownBy(st, n, alt).cursorY <= st.scrollBot
    ensures st.cursorY + n <= st.scrollBot ==> DownBy(st, n, alt).cursorY == st.cursorY + n
    ensures DownBy(st, n, alt).cursorX == st.cursorX && DownBy(st, n, alt).cursorEol == st.cursorEol
    ensures !alt ==> DownBy(st, n, alt).cursorY < DownBy(st, n, alt).activeRows
  {
  }

  /** Cursor forward keeps the state well formed, never moves left, stops at the last column
      and clears a pending wrap. */
  lemma {:induction false} ForwardSpec(st: TermState, n: nat, w: int)
    requires Fits(st, w, |st.meta|)
    ensures Fits(Forward(st, n, w), w, |st.meta|)
    ensures st.cursorX <= Forward(st, n, w).cursorX <= w - 1 && !Forward(st, n, w).cursorEol
    ensures st.cursorX + n <= w - 1 ==> Forward(st, n, w).cursorX == st.cursorX + n
    ensures Forward(st, n, w).cursorY == st.cursorY
  {
  }

  /** Cursor backward keeps the state well formed, never moves right, stops at column 0 and
      clears a pending wrap. */
  lemma {:induction false} BackwardSpec(st: TermState, n: nat, w: int)
    requires Fits(st, w, |st.meta|)
    ensures Fits(Backward(st, n), w, |st.meta|)
    ensures 0 <= Backward(st, n).cursorX <= st.cursorX && !Backward(st, n).cursorEol
    ensures st.cursorX - n >= 0 ==> Backward(st, n).cursorX == st.cursorX - n
    ensures Backward(st, n).cursorY == st.cursorY
  {
  }

  /** Cell `x` of row `y` of a screen `w` wide. */
  function At(d: seq<Cell>, w: nat, y: nat, x: nat): Cell
    requires Start(w, y) + x < |d|
  {
    d[Start(w, y) + x]
  }

  /** Cells are laid out row after row: position order is row-then-column order. */
  lemma {:induction false} PosOrder(w: nat, y1: nat, x1: nat, y2: nat, x2: nat)
    requires x1 < w && x2 < w
    ensures Start(w, y1) + x1 <= Start(w, y2) + x2 <==> y1 < y2 || (y1 == y2 && x1 <= x2)
  {
    if y1 < y2 {
      StartMono(w, y1, y2);
    } else if y2 < y1 {
      StartMono(w, y2, y1);
    }
  }

  /** Whether `csi_J` with parameter `n`, the cursor at (y, x), erases the cell at (yy, xx):
      0 erases from the cursor to the end of the screen, 1 from the start of the screen through
      the cursor, 2 everything, any other parameter nothing. */
  predicate DisplayErased(n: nat, y: nat, x: nat, yy: nat, xx: nat) {
    || (n == 0 && (y < yy || (y == yy && x <= xx)))
    || (n == 1 && (yy < y || (yy == y && xx <= x)))
    || n == 2
  }

  /** `csi_J(l)` on the cells of a screen `w` by `h` with the cursor at (y, x), `n = l[0]`:
      `zero_lines` or `zero` over the cells the parameter selects. */
  function ErasedDisplay(d: seq<Cell>, w: nat, h: nat, y: nat, x: nat, n: nat): seq<Cell>
    requires y < h && x < w && |d| == Start(w, h)
  {
    RowFits(w, h, y);
    RowFits(w, h, h - 1);
    if n == 0 then
      if x == 0 then ZeroedRows(d, w, y, h - 1) else Zeroed(d, Start(w, y) + x, Start(w, h - 1) + (w - 1) + 1)
    else if n == 1 then
      if x == w - 1 then ZeroedRows(d, w, 0, y) else Zeroed(d, Start(w, 0) + 0, Start(w, y) + x + 1)
    else if n == 2 then ZeroedRows(d, w, 0, h - 1)
    else d
  }

  /** `csi_J(l)` on the row metas: only the `zero_lines` cases forget them. */
  function ErasedDisplayMeta(m: seq<Option<Meta>>, w: nat, y: nat, x: nat, n: nat): seq<Option<Meta>>
    requires y < |m|
  {
    if n == 0 && x == 0 then MetaCleared(m, y, |m| - 1)
    else if n == 1 && x == w - 1 then MetaCleared(m, 0, y)
    else if n == 2 then MetaCleared(m, 0, |m| - 1)
    else m
  }

  /** Erase in display blanks exactly the cells the parameter selects, counted in rows and
      columns from the cursor, and leaves every other cell as it was. */
  lemma {:induction false} ErasedDisplaySpec(d: seq<Cell>, w: nat, h: nat, y: nat, x: nat, n: nat)
    requires y < h && x < w && |d| == Start(w, h)
    ensures |ErasedDisplay(d, w, h, y, x, n)| == |d|
    ensures forall yy, xx :: 0 <= yy < h && 0 <= xx < w ==>
      Start(w, yy) + xx < |d| &&
      At(ErasedDisplay(d, w, h, y, x, n), w, yy, xx) == if DisplayErased(n, y, x, yy, xx) then 0 else At(d, w, yy, xx)
  {
    forall yy, xx | 0 <= yy < h && 0 <= xx < w
      ensures Start(w, yy) + xx < |d|
      ensures At(ErasedDisplay(d, w, h, y, x, n), w, yy, xx) == if DisplayErased(n, y, x, yy, xx) then 0 else At(d, w, yy, xx)
    {
      ErasedDisplayAt(d, w, h, y, x, n, yy, xx);
    }
  }

  /** One cell of ErasedDisplaySpec. */
  lemma {:induction false} ErasedDisplayAt(d: seq<Cell>, w: nat, h: nat, y: nat, x: nat, n: nat, yy: nat, xx: nat)
    requires y < h && x < w && |d| == Start(w, h) && yy < h && xx < w
    ensures Start(w, yy) + xx < |d|
    ensures At(ErasedDisplay(d, w, h, y, x, n), w, yy, xx) == if DisplayErased(n, y, x, yy, xx) then 0 else At(d, w, yy, xx)
  {
    var r := ErasedDisplay(d, w, h, y, x, n);
    assert Start(w, h - 1) + w == Start(w, h);
    RowFits(w, h, yy);
    var q := Start(w, yy) + xx;
    if n == 0 {
      PosOrder(w, y, x, yy, xx);
      assert r[q] == if Start(w, y) + x <= q then 0 else d[q];
    } else if n == 1 {
      PosOrder(w, yy, xx, y, x);
      assert r[q] == if q <= Start(w, y) + x then 0 else d[q];
    } else if n == 2 {
      assert r[q] == 0;
    }
  }

  /** Whether `csi_K` with parameter `n`, the cursor at (y, x), erases the cell at (yy, xx):
      0 erases from the cursor to the end of its row, 1 from the start of the row through the
      cursor, 2 the whole row, any other parameter nothing. */
  predicate LineErased(n: nat, y: nat, x: nat, yy: nat, xx: nat) {
    yy == y && ((n == 0 && x <= xx) || (n == 1 && xx <= x) || n == 2)
  }

  /** `csi_K(l)` on the cells of a screen `w` wide with the cursor at (y, x), `n = l[0]`. */
  function ErasedLine(d: seq<Cell>, w: nat, y: nat, x: nat, n: nat): seq<Cell>
    requires x < w && Start(w, y) + w <= |d|
  {
    if n == 0 then Zeroed(d, Start(w, y) + x, Start(w, y) + (w - 1) + 1)
    else if n == 1 then Zeroed(d, Start(w, y) + 0, Start(w, y) + x + 1)
    else if n == 2 then ZeroedRows(d, w, y, y)
    else d
  }

  /** Erase in line blanks exactly the cells of the cursor's row the parameter selects and
      leaves every other cell of the screen as it was. */
  lemma {:induction false} ErasedLineSpec(d: seq<Cell>, w: nat, h: nat, y: nat, x: nat, n: nat)
    requires y < h && x < w && |d| == Start(w, h)
    ensures Start(w, y) + w <= |d| && |ErasedLine(d, w, y, x, n)| == |d|
    ensures forall yy, xx :: 0 <= yy < h && 0 <= xx < w ==>
      Start(w, yy) + xx < |d| &&
      At(ErasedLine(d, w, y, x, n), w, yy, xx) == if LineErased(n, y, x, yy, xx) then 0 else At(d, w, yy, xx)
  {
    RowFits(w, h, y);
    forall yy, xx | 0 <= yy < h && 0 <= xx < w
      ensures Start(w, yy) + xx < |d|
      ensures At(ErasedLine(d, w, y, x, n), w, yy, xx) == if LineErased(n, y, x, yy, xx) then 0 else At(d, w, yy, xx)
    {
      ErasedLineAt(d, w, h, y, x, n, yy, xx);
    }
  }

  /** One cell of ErasedLineSpec. */
  lemma {:induction false} ErasedLineAt(d: seq<Cell>, w: nat, h: nat, y: nat, x: nat, n: nat, yy: nat, xx: nat)
    requires y < h && x < w && |d| == Start(w, h) && yy < h && xx < w
    ensures Start(w, y) + w <= |d| && Start(w, yy) + xx < |d|
    ensures At(ErasedLine(d, w, y, x, n), w, yy, xx) == if LineErased(n, y, x, yy, xx) then 0 else At(d, w, yy, xx)
  {
    RowFits(w, h, y);
    RowFits(w, h, yy);
    var r := ErasedLine(d, w, y, x, n);
    var q := Start(w, yy) + xx;
    PosOrder(w, y, 0, yy, xx);
    PosOrder(w, yy, xx, y, w - 1);
    if n == 0 {
      PosOrder(w, y, x, yy, xx);
      assert r[q] == if Start(w, y) + x <= q < Start(w, y) + w then 0 else d[q];
    } else if n == 1 {
      PosOrder(w, yy, xx, y, x);
      assert r[q] == if Start(w, y) <= q <= Start(w, y) + x then 0 else d[q];
    } else if n == 2 {
      assert r[q] == if Start(w, y) <= q < Start(w, y) + w then 0 else d[q];
    }
  }

  /** After a pending wrap the cursor is still on the screen, at column 0. */
  lemma {:induction false} WrappedRowsOk(st: TermState, alt: bool)
    requires RowsOk(st)
    ensures RowsOk(Wrapped(st, alt)) && |Wrapped(st, alt).meta| == |st.meta|
    ensures Wrapped(st, alt).cursorX == if st.cursorEol then 0 else st.cursorX
    ensures Wrapped(st, alt).currentNul == st.currentNul
  {
    if st.cursorEol && InRegion(st) {
      ActivatedSpec(Moved(st, alt), alt);
    }
  }

  /** The cell at (y, x) takes code point `c` in style `nul`. */
  function Stored(d: seq<Cell>, w: nat, y: nat, x: nat, nul: Cell, c: bv32): seq<Cell>
    requires Start(w, y) + x < |d|
  {
    d[Start(w, y) + x := Styled(nul, c)]
  }

  /** Storing a character changes that one cell only, which then holds the code point written,
      and every cell still holds a scalar value. */
  lemma {:induction false} StoredSpec(d: seq<Cell>, w: nat, y: nat, x: nat, nul: Cell, c: bv32)
    requires Start(w, y) + x < |d| && AllScalar(d) && StyleOnly(nul) && IsScalar(c)
    ensures |Stored(d, w, y, x, nul, c)| == |d|
    ensures AllScalar(Stored(d, w, y, x, nul, c))
    ensures CodeOf(At(Stored(d, w, y, x, nul, c), w, y, x)) == c
    ensures forall i :: 0 <= i < |d| && i != Start(w, y) + x ==> Stored(d, w, y, x, nul, c)[i] == d[i]
  {
    StyledSpec(nul, c);
  }

  /** The cells after writing code point `c`: a pending wrap first moves the cursor (and may
      scroll the region), then the cell under the cursor takes `c` in the current style. */
  function WrittenCells(d: seq<Cell>, w: nat, st: TermState, alt: bool, c: bv32): seq<Cell>
    requires Fits(st, w, |st.meta|) && |d| == Start(w, |st.meta|)
  {
    RowFits(w, |st.meta|, st.scrollBot);
    WrappedRowsOk(st, alt);
    var st1 := Wrapped(st, alt);
    RowFits(w, |st.meta|, st1.cursorY);
    Stored(WrappedCells(d, w, st), w, st1.cursorY, st1.cursorX, st1.currentNul, c)
  }
}

/**
 * The `Terminal` of lineterm.py as far as its screen goes: the cell grid and per-row meta of
 * the current screen, the cursor and scrolling region, the style new characters are written
 * with, the UTF-8 accumulator of `echo`, and the scroll buffers rows leave the screen into.
 */
module Term {
  import opened Wrappers
  import opened Text
  import opened Entries
  import opened Shell
  import opened Sgr
  import opened Utf8
  import opened Grid
  import opened Buffer
  import opened Csi
  import opened TermModel
  import opened Editing

  class Terminal {
    const width: nat
    const height: nat
    /** The alternate screen is the current one (full-screen programs); rows leaving it are
        not kept. */
    const altMode: bool
    /** A notebook is open (`note_cells` is set); rows leaving the screen go to its buffer. */
    const noteMode: bool
    const pdelim: Option<Delims>
    /** `screen.data`: `height` rows of `width` cells, row after row. */
    const data: array<Cell>
    const screenBuf: ScreenBuf
    const noteBuf: ScreenBuf

    var cursorX: int
    var cursorY: int
    /** `cursor_eol`: a character was written in the last column; the next one wraps. */
    var cursorEol: bool
    var activeRows: int
    var scrollTop: int
    var scrollBot: int
    var currentNul: Cell
    var echo: Accum
    var cursorXBak: int
    var cursorYBak: int
    var currentMeta: Option<Meta>
    /** `screen.meta`: the meta of the prompt each row shows, if any. */
    var meta: seq<Option<Meta>>

    function State(): TermState
      reads this
    {
      TermState(cursorX, cursorY, cursorEol, activeRows, scrollTop, scrollBot, currentNul, echo,
                cursorXBak, cursorYBak, currentMeta, meta)
    }

    /** The cursor and the saved cursor are on the screen, the scrolling region is a non-empty
        band of rows, the style carries no code point, every cell holds a Unicode scalar value,
        and the two scroll buffers are distinct and valid. */
    predicate Valid()
      reads this, data, screenBuf, noteBuf
    {
      && width >= 1 && height >= 1
      && data.Length == Start(width, height)
      && RowsFit(width, height, data.Length)
      && Fits(State(), width, height)
      && AllScalar(data[..])
      && screenBuf != noteBuf && screenBuf.Valid() && noteBuf.Valid()
    }

    /** `Terminal(...)` followed by `reset()`: a blank screen, the cursor home, the default
        style, and as scrolling region the whole screen, or only the top row when a notebook
        is open (every line feed then hands the top row to the notebook's buffer). */
    constructor (w: nat, h: nat, pdelim: Option<Delims>, altMode: bool, noteMode: bool)
      requires w >= 1 && h >= 1
      ensures Valid()
      ensures width == w && height == h && this.pdelim == pdelim
      ensures this.altMode == altMode && this.noteMode == noteMode
      ensures fresh(data) && data[..] == Blank(Start(w, h))
      ensures State() == TermState(0, 0, false, 0, 0, if noteMode then 0 else h - 1, DefaultNul, Idle, 0, 0, None, seq(h, i => None))
    {
      width := w;
      height := h;
      this.pdelim := pdelim;
      this.altMode := altMode;
      this.noteMode := noteMode;
      data := new Cell[Start(w, h)](i => 0);
      screenBuf := new ScreenBuf(pdelim);
      noteBuf := new ScreenBuf(None);
      cursorX, cursorY, cursorEol := 0, 0, false;
      activeRows := 0;
      scrollTop, scrollBot := 0, if noteMode then 0 else h - 1;
      currentNul := DefaultNul;
      echo := Idle;
      cursorXBak, cursorYBak := 0, 0;
      currentMeta := None;
      meta := seq(h, i => None);
      DefaultNulStyle();
      AllRowsFit(w, h);
    }

    /** The position of column `x` of row `y` in `data`. */
    function Pos(y: nat, x: nat): nat
      reads this
    {
      Start(width, y) + x
    }

    /** `peek(y1, x1, y2, x2)`: the cells from (y1, x1) up to, not including, (y2, x2). */
    function Peek(y1: nat, x1: nat, y2: nat, x2: nat): (r: seq<Cell>)
      reads this, data, screenBuf, noteBuf
      requires Valid() && Pos(y1, x1) <= Pos(y2, x2) <= data.Length
      ensures |r| == Pos(y2, x2) - Pos(y1, x1)
      ensures AllScalar(r)
      ensures forall i :: 0 <= i < |r| ==> r[i] == data[Pos(y1, x1) + i]
    {
      data[Pos(y1, x1) .. Pos(y2, x2)]
    }

    /** `zero(y1, x1, y2, x2)`: blanks the cells from (y1, x1) through (y2, x2). */
    method Zero(y1: nat, x1: nat, y2: nat, x2: nat)
      requires Valid() && Pos(y1, x1) <= Pos(y2, x2) + 1 <= data.Length
      modifies data
      ensures Valid()
      ensures data[..] == Zeroed(old(data[..]), Pos(y1, x1), Pos(y2, x2) + 1)
    {
      FillZero(data, Pos(y1, x1), Pos(y2, x2) + 1);
      ZeroedScalar(old(data[..]), Pos(y1, x1), Pos(y2, x2) + 1);
    }

    /** `zero_lines(y1, y2)`: blanks rows `y1` through `y2` and forgets their meta. */
    method ZeroLines(y1: nat, y2: nat)
      requires Valid() && y1 <= y2 < height
      modifies this, data
      ensures Valid()
      ensures data[..] == ZeroedRows(old(data[..]), width, y1, y2)
      ensures State() == old(State()).(meta := MetaCleared(old(meta), y1, y2))
    {
      StartMono(width, y1, y2);
      Zero(y1, 0, y2, width - 1);
      meta := MetaCleared(meta, y1, y2);
    }

    /** `poke(y, x, s)`: writes `s` from (y, x) on; on the main screen the rows up to `y` count
        as active. */
    method Poke(y: nat, x: nat, s: seq<Cell>)
      requires Valid() && y < height && Pos(y, x) + |s| <= data.Length && AllScalar(s)
      modifies this, data
      ensures Valid()
      ensures data[..] == Poked(old(data[..]), Pos(y, x), s)
      ensures State() == old(State()).(activeRows := if altMode then old(activeRows) else Max(y + 1, old(activeRows)))
    {
      CopyInto(data, Pos(y, x), s);
      PokedScalar(old(data[..]), Pos(y, x), s);
      if !altMode {
        activeRows := Max(y + 1, activeRows);
      }
    }

    /** `scroll_up(y1, y2)`: rows `y1 + 1` through `y2` move up one row, with their meta, and
        row `y2` is blanked. */
    method ScrollUp(y1: nat, y2: nat)
      requires Valid() && y1 <= y2 < height
      modifies this, data
      ensures Valid()
      ensures data[..] == ShiftedUp(old(data[..]), width, y1, y2)
      ensures State() == old(State()).(
        meta := MetaUp(old(meta), y1, y2),
        activeRows := if y2 > y1 && !altMode then Max(y1 + 1, old(activeRows)) else old(activeRows))
    {
      ShiftedUpScalar(data[..], width, y1, y2);
      ShiftRowsUp(data, width, y1, y2);
      meta := MetaUp(meta, y1, y2);
      if y2 > y1 && !altMode {
        activeRows := Max(y1 + 1, activeRows);
      }
    }

    /** `scroll_down(y1, y2)`: rows `y1` through `y2 - 1` move down one row, with their meta,
        and row `y1` is blanked. */
    method ScrollDown(y1: nat, y2: nat)
      requires Valid() && y1 <= y2 < height
      modifies this, data
      ensures Valid()
      ensures data[..] == ShiftedDown(old(data[..]), width, y1, y2)
      ensures State() == old(State()).(
        meta := MetaDown(old(meta), y1, y2),
        activeRows := if y2 > y1 && !altMode then Max(y1 + 2, old(activeRows)) else old(activeRows))
    {
      ShiftedDownScalar(data[..], width, y1, y2);
      ShiftRowsDown(data, width, y1, y2);
      meta := MetaDown(meta, y1, y2);
      if y2 > y1 && !altMode {
        activeRows := Max(y1 + 2, activeRows);
      }
    }

    /** `scroll_right(y, x)`: the cells of row `y` from column `x` move right by one, the last
        one is lost, and column `x` is blanked. */
    method ScrollRight(y: nat, x: nat)
      requires Valid() && y < height && x < width
      modifies this, data
      ensures Valid()
      ensures data[..] == ShiftedRight(old(data[..]), width, y, x)
      ensures State() == old(State()).(activeRows := if altMode then old(activeRows) else Max(y + 1, old(activeRows)))
    {
      ShiftedRightScalar(data[..], width, y, x);
      ShiftCellsRight(data, width, y, x);
      if !altMode {
        activeRows := Max(y + 1, activeRows);
      }
    }

    /** The scroll buffer a row leaving the top of the screen goes to: the notebook's when a
        notebook is open, the screen's on the main screen, none on the alternate screen. */
    method PushTopRow()
      requires Valid()
      modifies screenBuf, noteBuf
      ensures Valid()
      ensures noteBuf.State() == if noteMode then RowEntered(old(noteBuf.State()), noteBuf.preOffset, data[..], width, scrollTop, meta[scrollTop], pdelim)
                                 else old(noteBuf.State())
      ensures screenBuf.State() == if !noteMode && !altMode then RowEntered(old(screenBuf.State()), screenBuf.preOffset, data[..], width, scrollTop, meta[scrollTop], pdelim)
                                   else old(screenBuf.State())
    {
      var line := RowText(data[..], width, scrollTop, true);
      var offset := PromptOffset(RowText(data[..], width, scrollTop, false), pdelim, meta[scrollTop]);
      if noteMode {
        noteBuf.ScrollBufUp(line, meta[scrollTop], offset, "", PlainRow, NoMarkup);
      } else if !altMode {
        screenBuf.ScrollBufUp(line, meta[scrollTop], offset, "", PlainRow, NoMarkup);
      }
    }

    /** `cursor_down` (also line feed and IND): inside the scrolling region the cursor moves
        down a row, or, at the bottom margin, the top row of the region leaves the screen into
        a scroll buffer and the region scrolls up; outside the region nothing happens. */
    method CursorDown()
      requires Valid()
      modifies this, data, screenBuf, noteBuf
      ensures Valid()
      ensures State() == Down(old(State()), altMode)
      ensures data[..] == DownCells(old(data[..]), width, old(State()))
      ensures noteBuf.State() == DownBuf(old(noteBuf.State()), noteBuf.preOffset, old(data[..]), width, old(State()), pdelim, noteMode)
      ensures screenBuf.State() == DownBuf(old(screenBuf.State()), screenBuf.preOffset, old(data[..]), width, old(State()), pdelim, !noteMode && !altMode)
    {
      if scrollTop <= cursorY <= scrollBot {
        Advance();
        ExtendActive();
      }
    }

    /** The middle of `cursor_down` for a cursor inside the scrolling region. */
    method Advance()
      requires Valid() && scrollTop <= cursorY <= scrollBot
      modifies this, data, screenBuf, noteBuf
      ensures Valid()
      ensures State() == Moved(old(State()), altMode)
      ensures data[..] == DownCells(old(data[..]), width, old(State()))
      ensures noteBuf.State() == DownBuf(old(noteBuf.State()), noteBuf.preOffset, old(data[..]), width, old(State()), pdelim, noteMode)
      ensures screenBuf.State() == DownBuf(old(screenBuf.State()), screenBuf.preOffset, old(data[..]), width, old(State()), pdelim, !noteMode && !altMode)
    {
      if cursorY == scrollBot {
        ScrollAtBottom();
      } else {
        cursorEol := false;
        cursorY := cursorY + 1;
      }
    }

    /** The bottom-margin branch of `cursor_down`: the top row of the region goes to a scroll
        buffer and the region scrolls up. */
    method ScrollAtBottom()
      requires Valid() && cursorY == scrollBot
      modifies this, data, screenBuf, noteBuf
      ensures Valid()
      ensures State() == Moved(old(State()), altMode)
      ensures data[..] == ShiftedUp(old(data[..]), width, old(scrollTop), old(scrollBot))
      ensures noteBuf.State() == if noteMode then RowEntered(old(noteBuf.State()), noteBuf.preOffset, old(data[..]), width, old(scrollTop), old(meta[scrollTop]), pdelim)
                                 else old(noteBuf.State())
      ensures screenBuf.State() == if !noteMode && !altMode then RowEntered(old(screenBuf.State()), screenBuf.preOffset, old(data[..]), width, old(scrollTop), old(meta[scrollTop]), pdelim)
                                   else old(screenBuf.State())
    {
      cursorEol := false;
      PushTopRow();
      ScrollUp(scrollTop, scrollBot);
    }

    /** The `if not self.alt_mode` block that ends `cursor_down`. */
    method ExtendActive()
      requires Valid()
      modifies this
      ensures Valid()
      ensures State() == Activated(old(State()), altMode)
    {
      ghost var st := State();
      if !altMode {
        var ar := Max(cursorY + 1, activeRows);
        activeRows := ar;
        if currentMeta.Some? && meta[ar - 1].None? {
          var cm := Some(Continued(currentMeta.value));
          currentMeta := cm;
          meta := meta[ar - 1 := cm];
          assert State() == st.(activeRows := ar, currentMeta := cm, meta := st.meta[ar - 1 := cm]);
          assert Activated(st, altMode) == st.(activeRows := ar, currentMeta := cm, meta := st.meta[ar - 1 := cm]);
        } else {
          assert State() == st.(activeRows := ar);
          assert Activated(st, altMode) == st.(activeRows := ar);
        }
      } else {
        assert Activated(st, altMode) == st;
      }
    }
  
    /** `zero_screen()`: blanks every row and forgets every row's meta. */
    method ZeroScreen()
      requires Valid()
      modifies this, data
      ensures Valid()
      ensures data[..] == ZeroedRows(old(data[..]), width, 0, height - 1)
      ensures State() == old(State()).(meta := MetaCleared(old(meta), 0, height - 1))
    {
      ZeroLines(0, height - 1);
    }

    /** `cursor_right`: one column right, or, from the last column, the wrap becomes pending
        and the cursor stays. */
    method CursorRight()
      requires Valid()
      modifies this
      ensures Valid()
      ensures State() == old(State()).(cursorX := Min(old(cursorX) + 1, width - 1),
                                       cursorEol := old(cursorEol) || old(cursorX) + 1 >= width)
    {
      NextColumn(cursorX, width);
      var q, r := (cursorX + 1) / width, (cursorX + 1) % width;
      if q != 0 {
        cursorEol := true;
      } else {
        cursorX := r;
      }
    }

    /** `esc_0x08`, backspace: one column left, not past the first. */
    method Backspace()
      requires Valid()
      modifies this
      ensures Valid()
      ensures State() == old(State()).(cursorX := Max(0, old(cursorX) - 1))
    {
      cursorX := Max(0, cursorX - 1);
    }

    /** `esc_0x09`, horizontal tab: to the next tab stop, every 8 columns, wrapping around the
        line width. */
    method Tab()
      requires Valid()
      modifies this
      ensures Valid()
      ensures State() == old(State()).(cursorX := TabStop(old(cursorX), width))
    {
      var x := cursorX + 8;
      var q := x / 8;
      cursorX := (q * 8) % width;
    }

    /** `esc_0x0d`, carriage return: column 0, no wrap pending. */
    method CarriageReturn()
      requires Valid()
      modifies this
      ensures Valid()
      ensures State() == old(State()).(cursorX := 0, cursorEol := false)
    {
      cursorEol := false;
      cursorX := 0;
    }

    /** `esc_nel`, next line: `cursor_down`, then column 0. */
    method NextLine()
      requires Valid()
      modifies this, data, screenBuf, noteBuf
      ensures Valid()
      ensures State() == Down(old(State()), altMode).(cursorX := 0)
      ensures data[..] == DownCells(old(data[..]), width, old(State()))
      ensures noteBuf.State() == DownBuf(old(noteBuf.State()), noteBuf.preOffset, old(data[..]), width, old(State()), pdelim, noteMode)
      ensures screenBuf.State() == DownBuf(old(screenBuf.State()), screenBuf.preOffset, old(data[..]), width, old(State()), pdelim, !noteMode && !altMode)
    {
      CursorDown();
      cursorX := 0;
    }

    /** `esc_ri`, reverse index: at the top margin the region scrolls down under the cursor,
        elsewhere the cursor moves up a row, not above the top margin; on the main screen the
        cursor's row is then active. */
    method ReverseIndex()
      requires Valid()
      modifies this, data
      ensures Valid()
      ensures State() == Reversed(old(State()), altMode)
      ensures data[..] == ReversedCells(old(data[..]), width, old(State()))
    {
      Raise();
      MarkActive();
    }

    /** The `if`/`else` that opens `esc_ri`. */
    method Raise()
      requires Valid()
      modifies this, data
      ensures Valid()
      ensures State() == Raised(old(State()), altMode)
      ensures data[..] == ReversedCells(old(data[..]), width, old(State()))
    {
      ReversedFits(State(), altMode, width);
      if cursorY == scrollTop {
        ScrollDown(scrollTop, scrollBot);
      } else {
        cursorY := Max(scrollTop, cursorY - 1);
      }
    }

    /** `esc_save`: the cursor position is saved. */
    method SaveCursor()
      requires Valid()
      modifies this
      ensures Valid()
      ensures State() == old(State()).(cursorXBak := old(cursorX), cursorYBak := old(cursorY))
    {
      cursorXBak := cursorX;
      cursorYBak := cursorY;
    }

    /** `esc_restore`: the cursor goes back to the saved position with no wrap pending; on the
        main screen its row is then active. */
    method RestoreCursor()
      requires Valid()
      modifies this
      ensures Valid()
      ensures State() == old(State()).(cursorX := old(cursorXBak), cursorY := old(cursorYBak), cursorEol := false,
                                       activeRows := if altMode then old(activeRows) else Max(old(cursorYBak) + 1, old(activeRows)))
    {
      cursorX := cursorXBak;
      cursorY := cursorYBak;
      cursorEol := false;
      if !altMode {
        activeRows := Max(cursorY + 1, activeRows);
      }
    }

    /** `csi_A`, cursor up (CUU, section 8.3.22 of ECMA-48). */
    method CsiA(l: seq<nat>)
      requires Valid() && |l| >= 1
      modifies this
      ensures Valid()
      ensures State() == Up(old(State()), l[0])
      ensures scrollTop <= cursorY
    {
      UpSpec(State(), l[0], width);
      cursorY := Max(scrollTop, cursorY - l[0]);
    }

    /** `csi_B`, cursor down (CUD, section 8.3.19 of ECMA-48). */
    method CsiB(l: seq<nat>)
      requires Valid() && |l| >= 1
      modifies this
      ensures Valid()
      ensures State() == DownBy(old(State()), l[0], altMode)
      ensures cursorY <= scrollBot
    {
      DownBySpec(State(), l[0], altMode, width);
      cursorY := Min(scrollBot, cursorY + l[0]);
      if !altMode {
        activeRows := Max(cursorY + 1, activeRows);
      }
    }

    /** `csi_C`, cursor forward (CUF, section 8.3.20 of ECMA-48). */
    method CsiC(l: seq<nat>)
      requires Valid() && |l| >= 1
      modifies this
      ensures Valid()
      ensures State() == Forward(old(State()), l[0], width)
      ensures cursorX <= width - 1 && !cursorEol
    {
      ForwardSpec(State(), l[0], width);
      cursorX := Min(width - 1, cursorX + l[0]);
      cursorEol := false;
    }

    /** `csi_D`, cursor backward (CUB, section 8.3.18 of ECMA-48). */
    method CsiD(l: seq<nat>)
      requires Valid() && |l| >= 1
      modifies this
      ensures Valid()
      ensures State() == Backward(old(State()), l[0])
      ensures 0 <= cursorX && !cursorEol
    {
      BackwardSpec(State(), l[0], width);
      cursorX := Max(0, cursorX - l[0]);
      cursorEol := false;
    }

    /** `csi_E`, cursor next line: `csi_B`, then column 0 with no wrap pending. */
    method CsiE(l: seq<nat>)
      requires Valid() && |l| >= 1
      modifies this
      ensures Valid()
      ensures State() == DownBy(old(State()), l[0], altMode).(cursorX := 0, cursorEol := false)
    {
      CsiB(l);
      cursorX := 0;
      cursorEol := false;
    }

    /** `csi_F`, cursor preceding line: `csi_A`, then column 0 with no wrap pending. */
    method CsiF(l: seq<nat>)
      requires Valid() && |l| >= 1
      modifies this
      ensures Valid()
      ensures State() == Up(old(State()), l[0]).(cursorX := 0, cursorEol := false)
    {
      CsiA(l);
      cursorX := 0;
      cursorEol := false;
    }

    /** `csi_G`, cursor character absolute (CHA, section 8.3.9 of ECMA-48), with a parameter
        of 0 read as 1: the cursor goes to the given column of its row, or the last one. */
    method CsiG(l: seq<nat>)
      requires Valid() && |l| >= 1
      modifies this
      ensures Valid()
      ensures State() == old(State()).(cursorX := Position(l[0], width))
    {
      PositionSpec(l[0], width);
      cursorX := Min(width, Max(l[0], 1)) - 1;
    }

    /** `csi_H` and `csi_f`, cursor position (CUP, section 8.3.21 of ECMA-48), with a parameter
        of 0 read as 1: the cursor goes to the given row and column, clamped to the screen, with
        no wrap pending; without two parameters it goes home. */
    method CsiH(l: seq<nat>)
      requires Valid() && |l| >= 1
      modifies this
      ensures Valid()
      ensures State() == old(State()).(
        cursorX := Position(CupParams(l).1, width), cursorY := Position(CupParams(l).0, height), cursorEol := false,
        activeRows := if altMode then old(activeRows) else Max(Position(CupParams(l).0, height) + 1, old(activeRows)))
    {
      var (row, col) := CupParams(l);
      PositionSpec(col, width);
      PositionSpec(row, height);
      cursorX := Min(width, Max(col, 1)) - 1;
      cursorY := Min(height, Max(row, 1)) - 1;
      cursorEol := false;
      if !altMode {
        activeRows := Max(cursorY + 1, activeRows);
      }
    }

    /** `csi_d`, line position absolute (VPA, section 8.3.158 of ECMA-48), with a parameter of
        0 read as 1: the cursor goes to the given row, or the last one. */
    method CsiVpa(l: seq<nat>)
      requires Valid() && |l| >= 1
      modifies this
      ensures Valid()
      ensures State() == old(State()).(cursorY := Position(l[0], height),
                                       activeRows := if altMode then old(activeRows) else Max(Position(l[0], height) + 1, old(activeRows)))
    {
      PositionSpec(l[0], height);
      cursorY := Min(height, Max(l[0], 1)) - 1;
      if !altMode {
        activeRows := Max(cursorY + 1, activeRows);
      }
    }

    /** `csi_J`, erase in display (ED, section 8.3.39 of ECMA-48). */
    method CsiJ(l: seq<nat>)
      requires Valid() && |l| >= 1
      modifies this, data
      ensures Valid()
      ensures data[..] == ErasedDisplay(old(data[..]), width, height, old(cursorY), old(cursorX), l[0])
      ensures State() == old(State()).(meta := ErasedDisplayMeta(old(meta), width, old(cursorY), old(cursorX), l[0]))
    {
      if l[0] == 0 {
        EraseBelow();
      } else if l[0] == 1 {
        EraseAbove();
      } else if l[0] == 2 {
        ZeroScreen();
      }
    }

    /** `csi_J` with parameter 0: from the cursor to the end of the screen. */
    method EraseBelow()
      requires Valid()
      modifies this, data
      ensures Valid()
      ensures data[..] == ErasedDisplay(old(data[..]), width, height, old(cursorY), old(cursorX), 0)
      ensures State() == old(State()).(meta := ErasedDisplayMeta(old(meta), width, old(cursorY), old(cursorX), 0))
    {
      ghost var d := data[..];
      RowFits(width, height, height - 1);
      StartMono(width, cursorY, height - 1);
      assert ErasedDisplay(d, width, height, cursorY, cursorX, 0) ==
        if cursorX == 0 then ZeroedRows(d, width, cursorY, height - 1)
        else Zeroed(d, Pos(cursorY, cursorX), Pos(height - 1, width - 1) + 1);
      if cursorX == 0 {
        ZeroLines(cursorY, height - 1);
      } else {
        Zero(cursorY, cursorX, height - 1, width - 1);
      }
    }

    /** `csi_J` with parameter 1: from the start of the screen through the cursor. */
    method EraseAbove()
      requires Valid()
      modifies this, data
      ensures Valid()
      ensures data[..] == ErasedDisplay(old(data[..]), width, height, old(cursorY), old(cursorX), 1)
      ensures State() == old(State()).(meta := ErasedDisplayMeta(old(meta), width, old(cursorY), old(cursorX), 1))
    {
      if cursorX == width - 1 {
        ZeroLines(0, cursorY);
      } else {
        Zero(0, 0, cursorY, cursorX);
      }
    }

    /** `csi_K`, erase in line (EL, section 8.3.41 of ECMA-48). */
    method CsiK(l: seq<nat>)
      requires Valid() && |l| >= 1
      modifies this, data
      ensures Valid()
      ensures data[..] == ErasedLine(old(data[..]), width, old(cursorY), old(cursorX), l[0])
      ensures State() == old(State()).(meta := if l[0] == 2 then MetaCleared(old(meta), old(cursorY), old(cursorY)) else old(meta))
    {
      if l[0] == 0 {
        Zero(cursorY, cursorX, cursorY, width - 1);
      } else if l[0] == 1 {
        Zero(cursorY, 0, cursorY, cursorX);
      } else if l[0] == 2 {
        ZeroLines(cursorY, cursorY);
      }
    }

    /** `csi_L`, insert lines (IL, section 8.3.67 of ECMA-48): `l[0]` times, when the cursor
        is above the bottom margin, the rows from the cursor's down to the bottom margin move
        down one row with their meta and the cursor's row is blanked. */
    method CsiL(l: seq<nat>)
      requires Valid() && |l| >= 1
      modifies this, data
      ensures Valid()
      ensures old(cursorY) < old(scrollBot) ==> data[..] == LinesInserted(old(data[..]), width, old(cursorY), old(scrollBot), l[0])
      ensures old(cursorY) >= old(scrollBot) ==> data[..] == old(data[..])
      ensures State() == old(State()).(
        meta := if old(cursorY) < old(scrollBot) then MetaInserted(old(meta), old(cursorY), old(scrollBot), l[0]) else old(meta),
        activeRows := if old(cursorY) < old(scrollBot) && l[0] > 0 && !altMode then Max(old(cursorY) + 2, old(activeRows)) else old(activeRows))
    {
      var cy, bot := cursorY, scrollBot;
      // The cursor and the margins stay put, so the test `csi_L` makes on every pass gives
      // the same answer each time.
      if cy < bot {
        ghost var d0, m0, ar0 := data[..], meta, activeRows;
        RowFits(width, height, bot);
        LinesInsertedNone(d0, width, cy, bot);
        MetaInsertedNone(m0, cy, bot);
        var i := 0;
        while i < l[0]
          invariant 0 <= i <= l[0]
          invariant Valid()
          invariant data[..] == LinesInserted(d0, width, cy, bot, i)
          invariant State() == old(State()).(
            meta := MetaInserted(m0, cy, bot, i),
            activeRows := if i > 0 && !altMode then Max(cy + 2, ar0) else ar0)
        {
          LinesInsertedStep(d0, width, cy, bot, i);
          MetaInsertedStep(m0, cy, bot, i);
          ScrollDown(cursorY, scrollBot);
          i := i + 1;
        }
      }
    }

    /** `csi_M`, delete lines (DL, section 8.3.32 of ECMA-48): when the cursor is inside the
        scrolling region, `l[0]` times the rows below the cursor's, down to the bottom margin,
        move up one row with their meta and the bottom margin's row is blanked. */
    method CsiM(l: seq<nat>)
      requires Valid() && |l| >= 1
      modifies this, data
      ensures Valid()
      ensures var inside := old(scrollTop) <= old(cursorY) <= old(scrollBot);
        && (inside ==> data[..] == LinesDeleted(old(data[..]), width, old(cursorY), old(scrollBot), l[0]))
        && (!inside ==> data[..] == old(data[..]))
        && State() == old(State()).(
          meta := if inside then MetaDeleted(old(meta), old(cursorY), old(scrollBot), l[0]) else old(meta),
          activeRows := if inside && old(cursorY) < old(scrollBot) && l[0] > 0 && !altMode then Max(old(cursorY) + 1, old(activeRows)) else old(activeRows))
    {
      var cy, bot := cursorY, scrollBot;
      if scrollTop <= cy <= bot {
        ghost var d0, m0, ar0 := data[..], meta, activeRows;
        RowFits(width, height, bot);
        LinesDeletedNone(d0, width, cy, bot);
        MetaDeletedNone(m0, cy, bot);
        var i := 0;
        while i < l[0]
          invariant 0 <= i <= l[0]
          invariant Valid()
          invariant data[..] == LinesDeleted(d0, width, cy, bot, i)
          invariant State() == old(State()).(
            meta := MetaDeleted(m0, cy, bot, i),
            activeRows := if cy < bot && i > 0 && !altMode then Max(cy + 1, ar0) else ar0)
        {
          LinesDeletedStep(d0, width, cy, bot, i);
          MetaDeletedStep(m0, cy, bot, i);
          ScrollUp(cursorY, scrollBot);
          i := i + 1;
        }
      }
    }

    /** `csi_at`, insert characters (ICH, section 8.3.64 of ECMA-48): `l[0]` times the cells of
        the cursor's row from the cursor on move right by one and the cursor's cell is blanked. */
    method CsiAt(l: seq<nat>)
      requires Valid() && |l| >= 1
      modifies this, data
      ensures Valid()
      ensures data[..] == CharsInserted(old(data[..]), width, old(cursorY), old(cursorX), l[0])
      ensures State() == old(State()).(
        activeRows := if l[0] > 0 && !altMode then Max(old(cursorY) + 1, old(activeRows)) else old(activeRows))
    {
      var cy, cx := cursorY, cursorX;
      ghost var d0, ar0 := data[..], activeRows;
      RowFits(width, height, cy);
      CharsInsertedNone(d0, width, cy, cx);
      var i := 0;
      while i < l[0]
        invariant 0 <= i <= l[0]
        invariant Valid()
        invariant data[..] == CharsInserted(d0, width, cy, cx, i)
        invariant State() == old(State()).(activeRows := if i > 0 && !altMode then Max(cy + 1, ar0) else ar0)
      {
        CharsInsertedStep(d0, width, cy, cx, i);
        ScrollRight(cursorY, cursorX);
        i := i + 1;
      }
    }

    /** `csi_P`, delete characters (DCH, section 8.3.26 of ECMA-48): the rest of the cursor's
        row is saved, erased with `csi_K([0])`, and written back from the cursor without its
        first `l[0]` cells. */
    method CsiP(l: seq<nat>)
      requires Valid() && |l| >= 1
      modifies this, data
      ensures Valid()
      ensures data[..] == CharsDeleted(old(data[..]), width, old(cursorY), old(cursorX), l[0])
      ensures State() == old(State()).(activeRows := if altMode then old(activeRows) else Max(old(cursorY) + 1, old(activeRows)))
    {
      var w, cx, cy := width, cursorX, cursorY;
      ghost var d0 := data[..];
      RowFits(width, height, cy);
      var end := Peek(cy, cx, cy, w);
      var rest := end[Min(l[0], |end|)..];
      SliceScalar(end, Min(l[0], |end|), |end|);
      assert rest == end[Min(l[0], |end|) .. |end|];
      ghost var st0 := State();
      CsiK([0]);
      assert State() == st0;
      ghost var d1 := data[..];
      CharsDeletedSplit(d0, w, cy, cx, l[0], end, d1, rest);
      assert Pos(cy, cx) + |rest| <= data.Length && AllScalar(rest);
      Poke(cy, cx, rest);
      assert data[..] == CharsDeleted(d0, w, cy, cx, l[0]);
    }

    /** `csi_m`, select graphic rendition (SGR, section 8.3.117 of ECMA-48): the parameters
        are applied to the style in order (the model steps a local copy of `current_nul`,
        which nothing else reads meanwhile). */
    method CsiSgr(l: seq<nat>)
      requires Valid()
      modifies this
      ensures Valid()
      ensures State() == old(State()).(currentNul := SgrAll(old(currentNul), l))
    {
      var nul := currentNul;
      var i := 0;
      while i < |l|
        invariant 0 <= i <= |l|
        invariant nul == SgrAll(currentNul, l[..i])
      {
        var p := l[i];
        if p == 0 || p == 39 || p == 49 || p == 27 {
          nul := DefaultNul;
        } else if p == 1 {
          nul := WithBold(nul);
        } else if p == 7 {
          nul := InverseNul();
        } else if 30 <= p <= 37 {
          nul := WithFg(nul, Colour(p, 30));
        } else if 40 <= p <= 47 {
          nul := WithBg(nul, Colour(p, 40));
        }
        assert l[..i + 1][..i] == l[..i];
        i := i + 1;
      }
      assert l[..i] == l;
      SgrAllStyleOnly(currentNul, l);
      currentNul := nul;
    }

    /** `csi_r`, set the scrolling region, with a margin parameter of 0 read as the first row. */
    method CsiR(l: seq<nat>)
      requires Valid() && |l| >= 1
      modifies this
      ensures Valid()
      ensures State() == old(State()).(scrollTop := Region(l, height).0, scrollBot := Region(l, height).1)
      ensures 0 <= scrollTop <= scrollBot <= height - 1
    {
      RegionSpec(l, height);
      var p := if |l| < 2 then [1, height] else l;
      scrollTop := Min(height - 1, Max(p[0], 1) - 1);
      scrollBot := Min(height - 1, Max(p[1], 1) - 1);
      scrollBot := Max(scrollTop, scrollBot);
    }

    /** `csi_X`, erase characters (ECH, section 8.3.38 of ECMA-48), as corrected: `EraseCount`
        cells from the cursor on, none past the end of its row. */
    method CsiX(l: seq<nat>)
      requires Valid() && |l| >= 1
      modifies data
      ensures Valid()
      ensures data[..] == Zeroed(old(data[..]), Pos(cursorY, cursorX), Pos(cursorY, cursorX) + EraseCount(cursorX, width, l[0]))
    {
      var k := EraseCount(cursorX, width, l[0]);
      EraseCountSpec(cursorX, width, l[0]);
      Zero(cursorY, cursorX, cursorY, cursorX + k - 1);
    }

    /** The first step of writing a character: a pending wrap moves the cursor to the start of
        the next row. */
    method WrapPending()
      requires Valid()
      modifies this, data, screenBuf, noteBuf
      ensures Valid()
      ensures State() == Wrapped(old(State()), altMode)
      ensures data[..] == WrappedCells(old(data[..]), width, old(State()))
      ensures noteBuf.State() == WrappedBuf(old(noteBuf.State()), noteBuf.preOffset, old(data[..]), width, old(State()), pdelim, noteMode)
      ensures screenBuf.State() == WrappedBuf(old(screenBuf.State()), screenBuf.preOffset, old(data[..]), width, old(State()), pdelim, !noteMode && !altMode)
    {
      if cursorEol {
        CursorDown();
        cursorX := 0;
      }
    }

    /** Writes `c` in the current style into the cell under the cursor. */
    method Store(c: bv32)
      requires Valid() && IsScalar(c)
      modifies data
      ensures Valid()
      ensures data[..] == Stored(old(data[..]), width, cursorY, cursorX, currentNul, c)
    {
      StoredSpec(data[..], width, cursorY, cursorX, currentNul, c);
      data[Pos(cursorY, cursorX)] := Styled(currentNul, c);
    }

    /** On the main screen the cursor's row counts as active: the active rows reach at least
        down to it. */
    method MarkActive()
      requires Valid()
      modifies this
      ensures Valid()
      ensures State() == old(State()).(activeRows := if altMode then old(activeRows) else Max(old(cursorY) + 1, old(activeRows)))
    {
      if !altMode {
        activeRows := Max(cursorY + 1, activeRows);
      }
    }

    /** The end of `echo` for a complete character: a pending wrap moves the cursor to the start
        of the next row, the cell under the cursor takes the character in the current style,
        the cursor moves right, and on the main screen its row is active. */
    method PutChar(c: bv32)
      requires Valid() && IsScalar(c)
      modifies this, data, screenBuf, noteBuf
      ensures Valid()
      ensures State() == Written(Wrapped(old(State()), altMode), width, altMode)
      ensures data[..] == WrittenCells(old(data[..]), width, old(State()), altMode, c)
      ensures noteBuf.State() == WrappedBuf(old(noteBuf.State()), noteBuf.preOffset, old(data[..]), width, old(State()), pdelim, noteMode)
      ensures screenBuf.State() == WrappedBuf(old(screenBuf.State()), screenBuf.preOffset, old(data[..]), width, old(State()), pdelim, !noteMode && !altMode)
    {
      ghost var st1 := Wrapped(State(), altMode);
      WrapPending();
      Store(c);
      CursorRight();
      MarkActive();
      assert State() == Written(st1, width, altMode);
    }

    /** `echo(char)` for one byte of output: the byte goes through the UTF-8 accumulator, and a
        character it completes is written. */
    method Echo(b: bv8)
      requires Valid()
      modifies this, data, screenBuf, noteBuf
      ensures Valid()
      ensures var st0 := old(State()).(echo := Step(old(echo), b).0);
        && Fits(st0, width, height)
        && State() == (if Step(old(echo), b).1.Some? then Written(Wrapped(st0, altMode), width, altMode) else st0)
        && data[..] == (if Step(old(echo), b).1.Some? then WrittenCells(old(data[..]), width, st0, altMode, Step(old(echo), b).1.value) else old(data[..]))
        && noteBuf.State() == (if Step(old(echo), b).1.Some? then WrappedBuf(old(noteBuf.State()), noteBuf.preOffset, old(data[..]), width, st0, pdelim, noteMode) else old(noteBuf.State()))
        && screenBuf.State() == (if Step(old(echo), b).1.Some? then WrappedBuf(old(screenBuf.State()), screenBuf.preOffset, old(data[..]), width, st0, pdelim, !noteMode && !altMode) else old(screenBuf.State()))
    {
      var (st, out) := Step(echo, b);
      echo := st;
      if out.Some? {
        PutChar(out.value);
      }
    }
}
}

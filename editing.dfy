/**
 * The editing handlers of lineterm.py that repeat a one-row or one-cell shift (insert and
 * delete lines, insert characters) or move the end of a row left (delete characters). Each
 * is given here in closed form, as what it leaves in every cell or row; the step lemmas show
 * that one more pass of the one-row shift is the closed form for one more line or character,
 * which is what the handlers' loops rely on.
 */
module Editing {
  import opened Wrappers
  import opened Text
  import opened Entries
  import opened Grid
  import opened Csi

  /** `n` rows of `w` cells take up as many cells as `n` rows counted from any row. */
  lemma {:induction false} StartAdd(w: nat, a: nat, b: nat)
    ensures Start(w, a + b) == Start(w, a) + Start(w, b)
    decreases b
  {
    if b > 0 {
      StartAdd(w, a, b - 1);
    }
  }

  /** A row outside the band `y1 .. y2` lies wholly before or wholly after its cells. */
  lemma {:induction false} OutsideOffsets(w: nat, y1: nat, y2: nat, y: nat)
    requires y1 <= y2 && (y < y1 || y2 < y)
    ensures Start(w, y1) <= Start(w, y2)
    ensures Start(w, y) + w <= Start(w, y1) || Start(w, y2) + w <= Start(w, y)
  {
    StartMono(w, y1, y2);
    if y < y1 {
      StartMono(w, y, y1);
    } else {
      StartMono(w, y2, y);
    }
  }

  /** Row `y` among the first `n` rows of the band lies within the first `n` rows' cells. */
  lemma {:induction false} FirstRowsOffsets(w: nat, y1: nat, y2: nat, n: nat, y: nat)
    requires y1 <= y <= y2 && y < y1 + n
    ensures Start(w, y1) <= Start(w, y) && Start(w, y) <= Start(w, y2)
    ensures Start(w, y) + w <= Start(w, y1) + Start(w, n)
  {
    StartMono(w, y, y2);
    StartMono(w, y1, y);
    StartMono(w, y, y1 + n);
    StartAdd(w, y1, n);
  }

  /** Row `y` among the last `n` rows of the band lies within the last `n` rows' cells. */
  lemma {:induction false} LastRowsOffsets(w: nat, y1: nat, y2: nat, n: nat, y: nat)
    requires y1 <= y <= y2 && y2 < y + n
    ensures Start(w, y1) <= Start(w, y) && Start(w, y) <= Start(w, y2)
    ensures Start(w, y2) + w <= Start(w, y) + Start(w, n)
  {
    StartMono(w, y, y2);
    StartMono(w, y1, y);
    StartMono(w, y2 + 1, y + n);
    StartAdd(w, y, n);
    assert Start(w, y2 + 1) == Start(w, y2) + w;
  }

  /** Rows `u` and `v = u + n` of the band start `n` rows' cells apart. */
  lemma {:induction false} MovedOffsets(w: nat, y1: nat, y2: nat, n: nat, u: nat, v: nat)
    requires y1 <= u && v == u + n && v <= y2
    ensures Start(w, y1) <= Start(w, u) && Start(w, v) <= Start(w, y2)
    ensures Start(w, v) == Start(w, u) + Start(w, n)
  {
    StartMono(w, v, y2);
    StartMono(w, y1, u);
    StartAdd(w, u, n);
  }

  /** The cells from `a` up to `e` moved on by `k`: those pushed to `e` or past it are lost,
      and the first `k` cells from `a` are blank. */
  function MovedOn(d: seq<Cell>, a: nat, e: nat, k: nat): (r: seq<Cell>)
    requires a <= e <= |d|
    ensures |r| == |d|
    ensures forall i :: 0 <= i < |d| ==> r[i] == (if i < a || e <= i then d[i] else if i < a + k then 0 else d[i - k])
  {
    seq(|d|, i requires 0 <= i < |d| => if i < a || e <= i then d[i] else if i < a + k then 0 else d[i - k])
  }

  /** One more `scroll_down` on cell positions moves the cells on by `w` more. */
  lemma {:induction false} MovedOnStep(d: seq<Cell>, w: nat, a: nat, b: nat, k: nat)
    requires a <= b && b + w <= |d|
    ensures ShiftedDownAt(MovedOn(d, a, b + w, k), w, a, b) == MovedOn(d, a, b + w, k + w)
  {
    var q := MovedOn(d, a, b + w, k);
    var r := ShiftedDownAt(q, w, a, b);
    var want := MovedOn(d, a, b + w, k + w);
    forall i | 0 <= i < |d| ensures r[i] == want[i] {
      ShiftedDownAtCell(q, w, a, b, i);
    }
  }

  /** A run of `w` cells that ends by `a` or starts at `e` or later is kept. */
  lemma {:induction false} MovedOnKept(d: seq<Cell>, a: nat, e: nat, k: nat, s: nat, w: nat)
    requires a <= e <= |d| && s + w <= |d| && (s + w <= a || e <= s)
    ensures MovedOn(d, a, e, k)[s .. s + w] == d[s .. s + w]
  {
    var rs, ds := MovedOn(d, a, e, k)[s .. s + w], d[s .. s + w];
    forall j | 0 <= j < w ensures rs[j] == ds[j] {
    }
  }

  /** A run of `w` cells among the first `k` from `a` is blank. */
  lemma {:induction false} MovedOnBlank(d: seq<Cell>, a: nat, e: nat, k: nat, s: nat, w: nat)
    requires a <= e <= |d| && a <= s && s + w <= a + k && s + w <= e
    ensures MovedOn(d, a, e, k)[s .. s + w] == Blank(w)
  {
    var rs := MovedOn(d, a, e, k)[s .. s + w];
    forall j | 0 <= j < w ensures rs[j] == 0 {
    }
  }

  /** A run of `w` cells at `t + k` that ends by `e` holds the run at `t`. */
  lemma {:induction false} MovedOnSlice(d: seq<Cell>, a: nat, e: nat, k: nat, t: nat, s: nat, w: nat)
    requires a <= e <= |d| && a <= t && s == t + k && s + w <= e
    ensures MovedOn(d, a, e, k)[s .. s + w] == d[t .. t + w]
  {
    var rs, ds := MovedOn(d, a, e, k)[s .. s + w], d[t .. t + w];
    forall j | 0 <= j < w ensures rs[j] == ds[j] {
    }
  }

  /** The cells from `a` up to `e` moved back by `k`: the first `k` of them are lost, and the
      last `k` cells before `e` are blank. */
  function MovedBack(d: seq<Cell>, a: nat, e: nat, k: nat): (r: seq<Cell>)
    requires a <= e <= |d|
    ensures |r| == |d|
    ensures forall i :: 0 <= i < |d| ==> r[i] == (if i < a || e <= i then d[i] else if i + k < e then d[i + k] else 0)
  {
    seq(|d|, i requires 0 <= i < |d| => if i < a || e <= i then d[i] else if i + k < e then d[i + k] else 0)
  }

  /** One more `scroll_up` on cell positions moves the cells back by `w` more. */
  lemma {:induction false} MovedBackStep(d: seq<Cell>, w: nat, a: nat, b: nat, k: nat)
    requires a <= b && b + w <= |d|
    ensures ShiftedUpAt(MovedBack(d, a, b + w, k), w, a, b) == MovedBack(d, a, b + w, k + w)
  {
    var r := ShiftedUpAt(MovedBack(d, a, b + w, k), w, a, b);
    var want := MovedBack(d, a, b + w, k + w);
    forall i | 0 <= i < |d| ensures r[i] == want[i] {
      MovedBackStepAt(d, w, a, b, k, i);
    }
  }

  /** The same, one cell at a time. */
  lemma {:induction false} MovedBackStepAt(d: seq<Cell>, w: nat, a: nat, b: nat, k: nat, i: nat)
    requires a <= b && b + w <= |d| && i < |d|
    ensures ShiftedUpAt(MovedBack(d, a, b + w, k), w, a, b)[i] == MovedBack(d, a, b + w, k + w)[i]
  {
    var q := MovedBack(d, a, b + w, k);
    ShiftedUpAtCell(q, w, a, b, i);
    if a <= i < b {
      assert q[i + w] == if i + w + k < b + w then d[i + w + k] else 0;
    }
  }

  /** A run of `w` cells that ends by `a` or starts at `e` or later is kept. */
  lemma {:induction false} MovedBackKept(d: seq<Cell>, a: nat, e: nat, k: nat, s: nat, w: nat)
    requires a <= e <= |d| && s + w <= |d| && (s + w <= a || e <= s)
    ensures MovedBack(d, a, e, k)[s .. s + w] == d[s .. s + w]
  {
    var rs, ds := MovedBack(d, a, e, k)[s .. s + w], d[s .. s + w];
    forall j | 0 <= j < w ensures rs[j] == ds[j] {
    }
  }

  /** A run of `w` cells among the last `k` before `e` is blank. */
  lemma {:induction false} MovedBackBlank(d: seq<Cell>, a: nat, e: nat, k: nat, s: nat, w: nat)
    requires a <= e <= |d| && a <= s && e <= s + k && s + w <= e
    ensures MovedBack(d, a, e, k)[s .. s + w] == Blank(w)
  {
    var rs := MovedBack(d, a, e, k)[s .. s + w];
    forall j | 0 <= j < w ensures rs[j] == 0 {
    }
  }

  /** A run of `w` cells from `s` holds the run at `s + k` when that one ends by `e`. */
  lemma {:induction false} MovedBackSlice(d: seq<Cell>, a: nat, e: nat, k: nat, s: nat, t: nat, w: nat)
    requires a <= e <= |d| && a <= s && t == s + k && t + w <= e
    ensures MovedBack(d, a, e, k)[s .. s + w] == d[t .. t + w]
  {
    var rs, ds := MovedBack(d, a, e, k)[s .. s + w], d[t .. t + w];
    forall j | 0 <= j < w ensures rs[j] == ds[j] {
    }
  }

  /** Inserting `n` lines at row `y1` of the band `y1 .. y2`: the band's cells move down `n`
      rows, those pushed past row `y2` are lost, and the first `n` rows of the band are blank. */
  function LinesInserted(d: seq<Cell>, w: nat, y1: nat, y2: nat, n: nat): (r: seq<Cell>)
    requires y1 <= y2 && Start(w, y2) + w <= |d|
    ensures |r| == |d|
  {
    StartMono(w, y1, y2);
    MovedOn(d, Start(w, y1), Start(w, y2) + w, Start(w, n))
  }

  /** Inserting no lines changes nothing. */
  lemma {:induction false} LinesInsertedNone(d: seq<Cell>, w: nat, y1: nat, y2: nat)
    requires y1 <= y2 && Start(w, y2) + w <= |d|
    ensures LinesInserted(d, w, y1, y2, 0) == d
  {
    var r := LinesInserted(d, w, y1, y2, 0);
    forall i | 0 <= i < |d| ensures r[i] == d[i] {
    }
  }

  /** One more `scroll_down(y1, y2)` inserts one more line. */
  lemma {:induction false} LinesInsertedStep(d: seq<Cell>, w: nat, y1: nat, y2: nat, n: nat)
    requires y1 <= y2 && Start(w, y2) + w <= |d|
    ensures ShiftedDown(LinesInserted(d, w, y1, y2, n), w, y1, y2) == LinesInserted(d, w, y1, y2, n + 1)
  {
    StartMono(w, y1, y2);
    var a, b, k := Start(w, y1), Start(w, y2), Start(w, n);
    assert Start(w, n + 1) == k + w;
    assert LinesInserted(d, w, y1, y2, n + 1) == MovedOn(d, a, b + w, k + w);
    assert ShiftedDown(LinesInserted(d, w, y1, y2, n), w, y1, y2) == ShiftedDownAt(MovedOn(d, a, b + w, k), w, a, b);
    MovedOnStep(d, w, a, b, k);
  }

  /** After inserting `n` lines, the rows outside the band are kept, ... */
  lemma {:induction false} LinesInsertedKept(d: seq<Cell>, w: nat, y1: nat, y2: nat, n: nat, y: nat)
    requires y1 <= y2 && Start(w, y2) + w <= |d| && Start(w, y) + w <= |d| && (y < y1 || y2 < y)
    ensures Row(LinesInserted(d, w, y1, y2, n), w, y) == Row(d, w, y)
  {
    OutsideOffsets(w, y1, y2, y);
    MovedOnKept(d, Start(w, y1), Start(w, y2) + w, Start(w, n), Start(w, y), w);
  }

  /** ... the first `n` rows of the band are blank, ... */
  lemma {:induction false} LinesInsertedBlank(d: seq<Cell>, w: nat, y1: nat, y2: nat, n: nat, y: nat)
    requires y1 <= y2 && Start(w, y2) + w <= |d| && y1 <= y <= y2 && y < y1 + n
    ensures Start(w, y) + w <= |d|
    ensures Row(LinesInserted(d, w, y1, y2, n), w, y) == Blank(w)
  {
    StartMono(w, y1, y2);
    FirstRowsOffsets(w, y1, y2, n, y);
    MovedOnBlank(d, Start(w, y1), Start(w, y2) + w, Start(w, n), Start(w, y), w);
  }

  /** ... and every later row of the band holds the row `n` above it. */
  lemma {:induction false} LinesInsertedMoved(d: seq<Cell>, w: nat, y1: nat, y2: nat, n: nat, y: nat)
    requires y1 <= y2 && Start(w, y2) + w <= |d| && y1 + n <= y <= y2
    ensures Start(w, y) + w <= |d| && Start(w, y - n) + w <= |d|
    ensures Row(LinesInserted(d, w, y1, y2, n), w, y) == Row(d, w, y - n)
  {
    StartMono(w, y1, y2);
    MovedOffsets(w, y1, y2, n, y - n, y);
    MovedOnSlice(d, Start(w, y1), Start(w, y2) + w, Start(w, n), Start(w, y - n), Start(w, y), w);
  }

  /** Deleting `n` lines at row `y1` of the band `y1 .. y2`: the band's cells move up `n` rows,
      the first `n` rows of the band are lost, and the last `n` rows of the band are blank. */
  function LinesDeleted(d: seq<Cell>, w: nat, y1: nat, y2: nat, n: nat): (r: seq<Cell>)
    requires y1 <= y2 && Start(w, y2) + w <= |d|
    ensures |r| == |d|
  {
    StartMono(w, y1, y2);
    MovedBack(d, Start(w, y1), Start(w, y2) + w, Start(w, n))
  }

  /** Deleting no lines changes nothing. */
  lemma {:induction false} LinesDeletedNone(d: seq<Cell>, w: nat, y1: nat, y2: nat)
    requires y1 <= y2 && Start(w, y2) + w <= |d|
    ensures LinesDeleted(d, w, y1, y2, 0) == d
  {
    var r := LinesDeleted(d, w, y1, y2, 0);
    forall i | 0 <= i < |d| ensures r[i] == d[i] {
    }
  }

  /** One more `scroll_up(y1, y2)` deletes one more line. */
  lemma {:induction false} LinesDeletedStep(d: seq<Cell>, w: nat, y1: nat, y2: nat, n: nat)
    requires y1 <= y2 && Start(w, y2) + w <= |d|
    ensures ShiftedUp(LinesDeleted(d, w, y1, y2, n), w, y1, y2) == LinesDeleted(d, w, y1, y2, n + 1)
  {
    StartMono(w, y1, y2);
    var a, b, k := Start(w, y1), Start(w, y2), Start(w, n);
    assert Start(w, n + 1) == k + w;
    assert LinesDeleted(d, w, y1, y2, n + 1) == MovedBack(d, a, b + w, k + w);
    assert ShiftedUp(LinesDeleted(d, w, y1, y2, n), w, y1, y2) == ShiftedUpAt(MovedBack(d, a, b + w, k), w, a, b);
    MovedBackStep(d, w, a, b, k);
  }

  /** After deleting `n` lines, the rows outside the band are kept, ... */
  lemma {:induction false} LinesDeletedKept(d: seq<Cell>, w: nat, y1: nat, y2: nat, n: nat, y: nat)
    requires y1 <= y2 && Start(w, y2) + w <= |d| && Start(w, y) + w <= |d| && (y < y1 || y2 < y)
    ensures Row(LinesDeleted(d, w, y1, y2, n), w, y) == Row(d, w, y)
  {
    OutsideOffsets(w, y1, y2, y);
    MovedBackKept(d, Start(w, y1), Start(w, y2) + w, Start(w, n), Start(w, y), w);
  }

  /** ... every row of the band holds the row `n` below it while that row is in the band, ... */
  lemma {:induction false} LinesDeletedMoved(d: seq<Cell>, w: nat, y1: nat, y2: nat, n: nat, y: nat)
    requires y1 <= y2 && Start(w, y2) + w <= |d| && y1 <= y && y + n <= y2
    ensures Start(w, y) + w <= |d| && Start(w, y + n) + w <= |d|
    ensures Row(LinesDeleted(d, w, y1, y2, n), w, y) == Row(d, w, y + n)
  {
    StartMono(w, y1, y2);
    MovedOffsets(w, y1, y2, n, y, y + n);
    MovedBackSlice(d, Start(w, y1), Start(w, y2) + w, Start(w, n), Start(w, y), Start(w, y + n), w);
  }

  /** ... and the last `n` rows of the band are blank. */
  lemma {:induction false} LinesDeletedBlank(d: seq<Cell>, w: nat, y1: nat, y2: nat, n: nat, y: nat)
    requires y1 <= y2 && Start(w, y2) + w <= |d| && y1 <= y <= y2 && y2 < y + n
    ensures Start(w, y) + w <= |d|
    ensures Row(LinesDeleted(d, w, y1, y2, n), w, y) == Blank(w)
  {
    StartMono(w, y1, y2);
    LastRowsOffsets(w, y1, y2, n, y);
    MovedBackBlank(d, Start(w, y1), Start(w, y2) + w, Start(w, n), Start(w, y), w);
  }

  /** The meta of the rows after inserting `n` lines: it moves with its row, and the blank
      rows have none. */
  function MetaInserted(m: seq<Option<Meta>>, y1: nat, y2: nat, n: nat): (r: seq<Option<Meta>>)
    requires y1 <= y2 < |m|
    ensures |r| == |m|
  {
    seq(|m|, y requires 0 <= y < |m| => if y < y1 || y2 < y then m[y] else if y < y1 + n then None else m[y - n])
  }

  /** Inserting no lines moves no meta. */
  lemma {:induction false} MetaInsertedNone(m: seq<Option<Meta>>, y1: nat, y2: nat)
    requires y1 <= y2 < |m|
    ensures MetaInserted(m, y1, y2, 0) == m
  {
    var r := MetaInserted(m, y1, y2, 0);
    forall y | 0 <= y < |m| ensures r[y] == m[y] {
    }
  }

  /** One more `meta[y1 + 1:y2 + 1] = meta[y1:y2]` and `meta[y1] = None` moves the meta for
      one more inserted line. */
  lemma {:induction false} MetaInsertedStep(m: seq<Option<Meta>>, y1: nat, y2: nat, n: nat)
    requires y1 <= y2 < |m|
    ensures MetaDown(MetaInserted(m, y1, y2, n), y1, y2) == MetaInserted(m, y1, y2, n + 1)
  {
    var q := MetaInserted(m, y1, y2, n);
    var r := MetaDown(q, y1, y2);
    var want := MetaInserted(m, y1, y2, n + 1);
    forall y | 0 <= y < |m| ensures r[y] == want[y] {
      if y1 < y <= y2 {
        assert r[y] == q[y - 1];
      }
    }
  }

  /** The meta of the rows after deleting `n` lines: it moves with its row, and the blank
      rows have none. */
  function MetaDeleted(m: seq<Option<Meta>>, y1: nat, y2: nat, n: nat): (r: seq<Option<Meta>>)
    requires y1 <= y2 < |m|
    ensures |r| == |m|
  {
    seq(|m|, y requires 0 <= y < |m| => if y < y1 || y2 < y then m[y] else if y + n <= y2 then m[y + n] else None)
  }

  /** Deleting no lines moves no meta. */
  lemma {:induction false} MetaDeletedNone(m: seq<Option<Meta>>, y1: nat, y2: nat)
    requires y1 <= y2 < |m|
    ensures MetaDeleted(m, y1, y2, 0) == m
  {
    var r := MetaDeleted(m, y1, y2, 0);
    forall y | 0 <= y < |m| ensures r[y] == m[y] {
    }
  }

  /** One more `meta[y1:y2] = meta[y1 + 1:y2 + 1]` and `meta[y2] = None` moves the meta for
      one more deleted line. */
  lemma {:induction false} MetaDeletedStep(m: seq<Option<Meta>>, y1: nat, y2: nat, n: nat)
    requires y1 <= y2 < |m|
    ensures MetaUp(MetaDeleted(m, y1, y2, n), y1, y2) == MetaDeleted(m, y1, y2, n + 1)
  {
    var q := MetaDeleted(m, y1, y2, n);
    var r := MetaUp(q, y1, y2);
    var want := MetaDeleted(m, y1, y2, n + 1);
    forall y | 0 <= y < |m| ensures r[y] == want[y] {
      if y1 <= y < y2 {
        assert r[y] == q[y + 1];
      }
    }
  }

  /** Inserting `n` blank characters at column `x` of row `y`: the row's cells from column `x`
      move right `n` columns, those pushed past the row's end are lost, and the `n` cells from
      column `x` are blank. */
  function CharsInserted(d: seq<Cell>, w: nat, y: nat, x: nat, n: nat): (r: seq<Cell>)
    requires x < w && Start(w, y) + w <= |d|
    ensures |r| == |d|
  {
    var p, e := Start(w, y) + x, Start(w, y) + w;
    seq(|d|, i requires 0 <= i < |d| => if i < p || e <= i then d[i] else if i < p + n then 0 else d[i - n])
  }

  /** Inserting no characters changes nothing. */
  lemma {:induction false} CharsInsertedNone(d: seq<Cell>, w: nat, y: nat, x: nat)
    requires x < w && Start(w, y) + w <= |d|
    ensures CharsInserted(d, w, y, x, 0) == d
  {
    var r := CharsInserted(d, w, y, x, 0);
    forall i | 0 <= i < |d| ensures r[i] == d[i] {
    }
  }

  /** One more `scroll_right(y, x)` inserts one more blank character. */
  lemma {:induction false} CharsInsertedStep(d: seq<Cell>, w: nat, y: nat, x: nat, n: nat)
    requires x < w && Start(w, y) + w <= |d|
    ensures ShiftedRight(CharsInserted(d, w, y, x, n), w, y, x) == CharsInserted(d, w, y, x, n + 1)
  {
    var q := CharsInserted(d, w, y, x, n);
    var r := ShiftedRight(q, w, y, x);
    var want := CharsInserted(d, w, y, x, n + 1);
    var p, e := Start(w, y) + x, Start(w, y) + w;
    forall i | 0 <= i < |d| ensures r[i] == want[i] {
      if p < i < e {
        assert r[i] == q[i - 1];
      }
    }
  }

  /** Inside the row, the cells before column `x` are kept, `n` blank cells follow, and then
      the row's cells from `x` on, as many as still fit. */
  lemma {:induction false} CharsInsertedRow(d: seq<Cell>, w: nat, y: nat, x: nat, n: nat, j: nat)
    requires x < w && Start(w, y) + w <= |d| && j < w
    ensures Row(CharsInserted(d, w, y, x, n), w, y)[j] ==
      if j < x then Row(d, w, y)[j] else if j < x + n then 0 else Row(d, w, y)[j - n]
  {
    RowAt(CharsInserted(d, w, y, x, n), w, y, j);
    RowAt(d, w, y, j);
    if x + n <= j {
      RowAt(d, w, y, j - n);
    }
  }

  /** No cell outside row `y` changes. */
  lemma {:induction false} CharsInsertedOutside(d: seq<Cell>, w: nat, y: nat, x: nat, n: nat, i: nat)
    requires x < w && Start(w, y) + w <= |d| && i < |d|
    requires i < Start(w, y) || Start(w, y) + w <= i
    ensures CharsInserted(d, w, y, x, n)[i] == d[i]
  {
  }

  /** `csi_P` on the cells: the rest of row `y` from column `x` is saved, blanked, and written
      back from column `x` without its first `n` cells. */
  function CharsDeleted(d: seq<Cell>, w: nat, y: nat, x: nat, n: nat): (r: seq<Cell>)
    requires x < w && Start(w, y) + w <= |d|
    ensures |r| == |d|
  {
    var p, e := Start(w, y) + x, Start(w, y) + w;
    var k := Min(n, e - p);
    Poked(Zeroed(d, p, e), p, d[p + k .. e])
  }

  /** Inside the row, the cells before column `x` are kept, each later cell takes the cell `n`
      columns to its right, and the last `n` cells become blank. */
  lemma {:induction false} CharsDeletedRow(d: seq<Cell>, w: nat, y: nat, x: nat, n: nat, j: nat)
    requires x < w && Start(w, y) + w <= |d| && j < w
    ensures Row(CharsDeleted(d, w, y, x, n), w, y)[j] ==
      if j < x then Row(d, w, y)[j] else if j + n < w then Row(d, w, y)[j + n] else 0
  {
    RowAt(CharsDeleted(d, w, y, x, n), w, y, j);
    RowAt(d, w, y, j);
    if x <= j && j + n < w {
      RowAt(d, w, y, j + n);
    }
  }

  /** No cell outside row `y` changes. */
  lemma {:induction false} CharsDeletedOutside(d: seq<Cell>, w: nat, y: nat, x: nat, n: nat, i: nat)
    requires x < w && Start(w, y) + w <= |d| && i < |d|
    requires i < Start(w, y) || Start(w, y) + w <= i
    ensures CharsDeleted(d, w, y, x, n)[i] == d[i]
  {
  }

  /** `csi_P`'s steps: erasing from column `x` to the end of the row (`e`) and writing back
      the saved rest of the row (`saved`) without its first `n` cells gives CharsDeleted. */
  lemma {:induction false} CharsDeletedSplit(d: seq<Cell>, w: nat, y: nat, x: nat, n: nat, saved: seq<Cell>, e: seq<Cell>, rest: seq<Cell>)
    requires x < w && Start(w, y) + w <= |d|
    requires |saved| == w - x && forall i :: 0 <= i < |saved| ==> saved[i] == d[Start(w, y) + x + i]
    requires e == Zeroed(d, Start(w, y) + x, Start(w, y) + (w - 1) + 1)
    requires rest == saved[Min(n, |saved|)..]
    ensures Start(w, y) + x + |rest| <= |e|
    ensures CharsDeleted(d, w, y, x, n) == Poked(e, Start(w, y) + x, rest)
  {
    var p, q := Start(w, y) + x, Start(w, y) + w;
    var k := Min(n, q - p);
    var b := d[p + k .. q];
    forall i | 0 <= i < |rest| ensures rest[i] == b[i] {
      assert rest[i] == saved[k + i];
    }
    assert rest == b;
  }
}

/**
 * The screen of lineterm.py is one flat list of `width * height` cells, row after row,
 * beside a list of `height` per-row meta values. These are the slice updates the terminal
 * makes to them, as functions on the cell sequence, with what they do to each row.
 */
module Grid {
  import opened Text
  import opened Entries
  import opened Wrappers

  /** `create_array(0, n)` */
  function Blank(n: nat): (r: seq<Cell>)
    ensures |r| == n && forall i :: 0 <= i < n ==> r[i] == 0
  {
    seq(n, i => 0)
  }

  /** The cells from `lo` up to `hi` set to 0, the rest kept. */
  function Zeroed(d: seq<Cell>, lo: nat, hi: nat): (r: seq<Cell>)
    requires lo <= hi <= |d|
    ensures |r| == |d|
  {
    seq(|d|, i requires 0 <= i < |d| => if lo <= i < hi then 0 else d[i])
  }

  /** The cells from `pos` on replaced by `s`, the rest kept. */
  function Poked(d: seq<Cell>, pos: nat, s: seq<Cell>): (r: seq<Cell>)
    requires pos + |s| <= |d|
    ensures |r| == |d|
  {
    seq(|d|, i requires 0 <= i < |d| => if pos <= i < pos + |s| then s[i - pos] else d[i])
  }

  /** Copying `d[c:e]` to position `a` puts at `i` the cell `c - a` places further on. */
  lemma {:induction false} PokedSlice(d: seq<Cell>, a: nat, c: nat, e: nat, i: nat)
    requires a <= c <= e <= |d| && a <= i < a + (e - c)
    ensures Poked(d, a, d[c .. e])[i] == d[i + (c - a)]
  {
  }

  /** Copying `d[a:e]` to position `c` puts at `i` the cell `c - a` places back. */
  lemma {:induction false} PokedBack(d: seq<Cell>, c: nat, a: nat, e: nat, i: nat)
    requires a <= c && c + (e - a) <= |d| && a <= e && c <= i < c + (e - a)
    ensures Poked(d, c, d[a .. e])[i] == d[i - (c - a)]
  {
  }

  /** `width * y`, the index of the first cell of row `y`, counted row by row. */
  function Start(w: nat, y: nat): nat
  {
    if y == 0 then 0 else Start(w, y - 1) + w
  }

  lemma {:induction false} StartIsProduct(w: nat, y: nat)
    ensures Start(w, y) == w * y
  {
    if y > 0 {
      StartIsProduct(w, y - 1);
    }
  }

  /** Later rows start no earlier, and a row ends where the next one starts. */
  lemma {:induction false} StartMono(w: nat, a: nat, b: nat)
    requires a <= b
    ensures Start(w, a) <= Start(w, b)
    ensures a < b ==> Start(w, a) + w <= Start(w, b)
    decreases b - a
  {
    if a < b {
      StartMono(w, a, b - 1);
    }
  }

  /** Row `y` of a screen `w` cells wide. */
  function Row(d: seq<Cell>, w: nat, y: nat): (r: seq<Cell>)
    requires Start(w, y) + w <= |d|
    ensures |r| == w
  {
    d[Start(w, y) .. Start(w, y) + w]
  }

  /** Cell `j` of row `y`. */
  lemma {:induction false} RowAt(d: seq<Cell>, w: nat, y: nat, j: nat)
    requires Start(w, y) + w <= |d| && j < w
    ensures Row(d, w, y)[j] == d[Start(w, y) + j]
  {
  }

  /** `zero_lines(y1, y2)` on the cells: rows `y1` through `y2` are blanked. */
  function ZeroedRows(d: seq<Cell>, w: nat, y1: nat, y2: nat): (r: seq<Cell>)
    requires y1 <= y2 && Start(w, y2) + w <= |d|
    ensures |r| == |d|
  {
    StartMono(w, y1, y2);
    Zeroed(d, Start(w, y1), Start(w, y2) + w)
  }

  /** `scroll_up` on cell positions: the cells from `a + w` up to `b + w` move back by `w`,
      then the `w` cells at `b` are blanked. */
  function ShiftedUpAt(d: seq<Cell>, w: nat, a: nat, b: nat): (r: seq<Cell>)
    requires a <= b && b + w <= |d|
    ensures |r| == |d|
  {
    Zeroed(Poked(d, a, d[a + w .. b + w]), b, b + w)
  }

  lemma {:induction false} ShiftedUpAtCell(d: seq<Cell>, w: nat, a: nat, b: nat, i: nat)
    requires a <= b && b + w <= |d| && i < |d|
    ensures ShiftedUpAt(d, w, a, b)[i] == if b <= i < b + w then 0 else if a <= i < b then d[i + w] else d[i]
  {
    if a <= i < b {
      PokedSlice(d, a, a + w, b + w, i);
    }
  }

  /** `scroll_up(y1, y2)` on the cells: rows `y1 + 1 .. y2` move up one row, then row `y2`
      is blanked. */
  function ShiftedUp(d: seq<Cell>, w: nat, y1: nat, y2: nat): (r: seq<Cell>)
    requires y1 <= y2 && Start(w, y2) + w <= |d|
    ensures |r| == |d|
  {
    StartMono(w, y1, y2);
    ShiftedUpAt(d, w, Start(w, y1), Start(w, y2))
  }

  /** ShiftedUp as the two slice updates `scroll_up` makes, one after the other. */
  lemma {:induction false} ShiftedUpSteps(d: seq<Cell>, w: nat, y1: nat, y2: nat)
    requires y1 <= y2 && Start(w, y2) + w <= |d|
    ensures Start(w, y1) <= Start(w, y2)
    ensures ShiftedUp(d, w, y1, y2) ==
      Zeroed(Poked(d, Start(w, y1), d[Start(w, y1) + w .. Start(w, y2) + w]), Start(w, y2), Start(w, y2) + w)
  {
    StartMono(w, y1, y2);
  }

  /** `scroll_down` on cell positions: the cells from `a` up to `b` move on by `w`, then the
      `w` cells at `a` are blanked. */
  function ShiftedDownAt(d: seq<Cell>, w: nat, a: nat, b: nat): (r: seq<Cell>)
    requires a <= b && b + w <= |d|
    ensures |r| == |d|
  {
    Zeroed(Poked(d, a + w, d[a .. b]), a, a + w)
  }

  lemma {:induction false} ShiftedDownAtCell(d: seq<Cell>, w: nat, a: nat, b: nat, i: nat)
    requires a <= b && b + w <= |d| && i < |d|
    ensures ShiftedDownAt(d, w, a, b)[i] == if a <= i < a + w then 0 else if a + w <= i < b + w then d[i - w] else d[i]
  {
    if a + w <= i < b + w {
      PokedBack(d, a + w, a, b, i);
    }
  }

  /** `scroll_down(y1, y2)` on the cells: rows `y1 .. y2 - 1` move down one row, then row
      `y1` is blanked. */
  function ShiftedDown(d: seq<Cell>, w: nat, y1: nat, y2: nat): (r: seq<Cell>)
    requires y1 <= y2 && Start(w, y2) + w <= |d|
    ensures |r| == |d|
  {
    StartMono(w, y1, y2);
    ShiftedDownAt(d, w, Start(w, y1), Start(w, y2))
  }

  /** The `w` cells at `p` after ShiftedUpAt: blank at `b`, else those at `q`, where `q` is
      `p + w` inside the region and `p` outside it. */
  lemma {:induction false} ShiftedUpAtSlice(d: seq<Cell>, w: nat, a: nat, b: nat, p: nat, q: nat)
    requires a <= b && b + w <= |d| && p + w <= |d| && q + w <= |d|
    requires p == b || (a <= p && p + w <= b && q == p + w) || ((p + w <= a || b + w <= p) && q == p)
    ensures ShiftedUpAt(d, w, a, b)[p .. p + w] == if p == b then Blank(w) else d[q .. q + w]
  {
    if p == b {
      ShiftedUpAtBlank(d, w, a, b);
    } else {
      ShiftedUpAtKept(d, w, a, b, p, q);
    }
  }

  lemma {:induction false} ShiftedUpAtBlank(d: seq<Cell>, w: nat, a: nat, b: nat)
    requires a <= b && b + w <= |d|
    ensures ShiftedUpAt(d, w, a, b)[b .. b + w] == Blank(w)
  {
    var r := ShiftedUpAt(d, w, a, b);
    var want := Blank(w);
    forall j | 0 <= j < w ensures r[b .. b + w][j] == want[j] {
      ShiftedUpAtCell(d, w, a, b, b + j);
    }
  }

  lemma {:induction false} ShiftedUpAtKept(d: seq<Cell>, w: nat, a: nat, b: nat, p: nat, q: nat)
    requires a <= b && b + w <= |d| && p + w <= |d| && q + w <= |d|
    requires (a <= p && p + w <= b && q == p + w) || ((p + w <= a || b + w <= p) && q == p)
    ensures ShiftedUpAt(d, w, a, b)[p .. p + w] == d[q .. q + w]
  {
    var r := ShiftedUpAt(d, w, a, b);
    var want := d[q .. q + w];
    forall j | 0 <= j < w ensures r[p .. p + w][j] == want[j] {
      ShiftedUpAtCell(d, w, a, b, p + j);
    }
  }


  /** Where rows lie relative to a scrolling region `y1 .. y2`. */
  lemma {:induction false} RegionStarts(w: nat, y1: nat, y2: nat, y: nat)
    requires y1 <= y2
    ensures Start(w, y1) <= Start(w, y2)
    ensures Start(w, y + 1) == Start(w, y) + w
    ensures y > 0 ==> Start(w, y) == Start(w, y - 1) + w
    ensures y < y1 ==> Start(w, y) + w <= Start(w, y1)
    ensures y1 < y ==> Start(w, y1) + w <= Start(w, y)
    ensures y < y2 ==> Start(w, y) + w <= Start(w, y2)
    ensures y2 < y ==> Start(w, y2) + w <= Start(w, y)
    ensures y1 <= y ==> Start(w, y1) <= Start(w, y)
    ensures y <= y2 ==> Start(w, y) <= Start(w, y2)
  {
    StartMono(w, y1, y2);
    if y < y1 { StartMono(w, y, y1); }
    if y1 <= y { StartMono(w, y1, y); }
    if y < y2 { StartMono(w, y, y2); }
    if y2 < y { StartMono(w, y2, y); }
    if y <= y2 { StartMono(w, y, y2); }
  }

  /** ShiftedDown as the two slice updates `scroll_down` makes, one after the other. */
  lemma {:induction false} ShiftedDownSteps(d: seq<Cell>, w: nat, y1: nat, y2: nat)
    requires y1 <= y2 && Start(w, y2) + w <= |d|
    ensures Start(w, y1) <= Start(w, y2)
    ensures ShiftedDown(d, w, y1, y2) ==
      Zeroed(Poked(d, Start(w, y1) + w, d[Start(w, y1) .. Start(w, y2)]), Start(w, y1), Start(w, y1) + w)
  {
    StartMono(w, y1, y2);
  }

  /** `scroll_up` moves every row of the region up by one and blanks its last row; every other
      row keeps its cells. */
  lemma {:induction false} ShiftedUpRows(d: seq<Cell>, w: nat, y1: nat, y2: nat, y: nat)
    requires y1 <= y2 && Start(w, y2) + w <= |d| && Start(w, y) + w <= |d|
    ensures y1 <= y < y2 ==> Start(w, y + 1) + w <= |d| && Row(ShiftedUp(d, w, y1, y2), w, y) == Row(d, w, y + 1)
    ensures y == y2 ==> Row(ShiftedUp(d, w, y1, y2), w, y) == Blank(w)
    ensures y < y1 || y2 < y ==> Row(ShiftedUp(d, w, y1, y2), w, y) == Row(d, w, y)
  {
    RegionStarts(w, y1, y2, y);
    var a, b, p := Start(w, y1), Start(w, y2), Start(w, y);
    assert Row(ShiftedUp(d, w, y1, y2), w, y) == ShiftedUpAt(d, w, a, b)[p .. p + w];
    if y1 <= y < y2 {
      var q := Start(w, y + 1);
      assert q == p + w && a <= p && q <= b;
      ShiftedUpAtSlice(d, w, a, b, p, q);
      assert Row(d, w, y + 1) == d[q .. q + w];
    } else if y == y2 {
      ShiftedUpAtSlice(d, w, a, b, p, p);
    } else {
      assert p + w <= a || b + w <= p;
      ShiftedUpAtSlice(d, w, a, b, p, p);
      assert Row(d, w, y) == d[p .. p + w];
    }
  }

  /** The `w` cells at `p` after ShiftedDownAt: blank at `a`, else those at `q`, where `q` is
      `p - w` inside the region and `p` outside it. */
  lemma {:induction false} ShiftedDownAtSlice(d: seq<Cell>, w: nat, a: nat, b: nat, p: nat, q: nat)
    requires a <= b && b + w <= |d| && p + w <= |d| && q + w <= |d|
    requires p == a || (a + w <= p && p <= b && q == p - w) || ((p + w <= a || b + w <= p) && q == p)
    ensures ShiftedDownAt(d, w, a, b)[p .. p + w] == if p == a then Blank(w) else d[q .. q + w]
  {
    if p == a {
      ShiftedDownAtBlank(d, w, a, b);
    } else {
      ShiftedDownAtKept(d, w, a, b, p, q);
    }
  }

  lemma {:induction false} ShiftedDownAtBlank(d: seq<Cell>, w: nat, a: nat, b: nat)
    requires a <= b && b + w <= |d|
    ensures ShiftedDownAt(d, w, a, b)[a .. a + w] == Blank(w)
  {
    var r := ShiftedDownAt(d, w, a, b);
    var want := Blank(w);
    forall j | 0 <= j < w ensures r[a .. a + w][j] == want[j] {
      ShiftedDownAtCell(d, w, a, b, a + j);
    }
  }

  lemma {:induction false} ShiftedDownAtKept(d: seq<Cell>, w: nat, a: nat, b: nat, p: nat, q: nat)
    requires a <= b && b + w <= |d| && p + w <= |d| && q + w <= |d|
    requires (a + w <= p && p <= b && q == p - w) || ((p + w <= a || b + w <= p) && q == p)
    ensures ShiftedDownAt(d, w, a, b)[p .. p + w] == d[q .. q + w]
  {
    var r := ShiftedDownAt(d, w, a, b);
    var want := d[q .. q + w];
    forall j | 0 <= j < w ensures r[p .. p + w][j] == want[j] {
      ShiftedDownAtCell(d, w, a, b, p + j);
    }
  }


  /** `scroll_down` moves every row of the region down by one and blanks its first row; every
      other row keeps its cells. */
  lemma {:induction false} ShiftedDownRows(d: seq<Cell>, w: nat, y1: nat, y2: nat, y: nat)
    requires y1 <= y2 && Start(w, y2) + w <= |d| && Start(w, y) + w <= |d|
    ensures y1 < y <= y2 ==> Row(ShiftedDown(d, w, y1, y2), w, y) == Row(d, w, y - 1)
    ensures y == y1 ==> Row(ShiftedDown(d, w, y1, y2), w, y) == Blank(w)
    ensures y < y1 || y2 < y ==> Row(ShiftedDown(d, w, y1, y2), w, y) == Row(d, w, y)
  {
    if y1 < y <= y2 {
      ShiftedDownRowMoved(d, w, y1, y2, y);
    } else if y == y1 {
      StartMono(w, y1, y2);
      ShiftedDownAtBlank(d, w, Start(w, y1), Start(w, y2));
    } else {
      ShiftedDownRowKept(d, w, y1, y2, y);
    }
  }

  lemma {:induction false} ShiftedDownRowMoved(d: seq<Cell>, w: nat, y1: nat, y2: nat, y: nat)
    requires y1 < y <= y2 && Start(w, y2) + w <= |d| && Start(w, y) + w <= |d|
    ensures Row(ShiftedDown(d, w, y1, y2), w, y) == Row(d, w, y - 1)
  {
    StartMono(w, y, y2);
    StartMono(w, y1, y - 1);
    var a, b, p, q := Start(w, y1), Start(w, y2), Start(w, y), Start(w, y - 1);
    assert p == q + w;
    ShiftedDownAtKept(d, w, a, b, p, q);
  }

  lemma {:induction false} ShiftedDownRowKept(d: seq<Cell>, w: nat, y1: nat, y2: nat, y: nat)
    requires (y < y1 || y2 < y) && y1 <= y2 && Start(w, y2) + w <= |d| && Start(w, y) + w <= |d|
    ensures Row(ShiftedDown(d, w, y1, y2), w, y) == Row(d, w, y)
  {
    StartMono(w, y1, y2);
    if y < y1 {
      StartMono(w, y, y1);
    } else {
      StartMono(w, y2, y);
    }
    ShiftedDownAtKept(d, w, Start(w, y1), Start(w, y2), Start(w, y), Start(w, y));
  }

  lemma {:induction false} ShiftedUpRowMoved(d: seq<Cell>, w: nat, y1: nat, y2: nat, y: nat)
    requires y1 <= y < y2 && Start(w, y2) + w <= |d|
    ensures Start(w, y + 1) + w <= |d|
    ensures Row(ShiftedUp(d, w, y1, y2), w, y) == Row(d, w, y + 1)
  {
    StartMono(w, y + 1, y2);
    StartMono(w, y1, y);
    var a, b, p, q := Start(w, y1), Start(w, y2), Start(w, y), Start(w, y + 1);
    assert q == p + w;
    ShiftedUpAtKept(d, w, a, b, p, q);
  }

  lemma {:induction false} ShiftedUpRowKept(d: seq<Cell>, w: nat, y1: nat, y2: nat, y: nat)
    requires (y < y1 || y2 < y) && y1 <= y2 && Start(w, y2) + w <= |d| && Start(w, y) + w <= |d|
    ensures Row(ShiftedUp(d, w, y1, y2), w, y) == Row(d, w, y)
  {
    StartMono(w, y1, y2);
    if y < y1 {
      StartMono(w, y, y1);
    } else {
      StartMono(w, y2, y);
    }
    ShiftedUpAtKept(d, w, Start(w, y1), Start(w, y2), Start(w, y), Start(w, y));
  }

  /** `scroll_right` on cell positions: the cells from `p` up to `e - 1` move on by one, then
      the cell at `p` is blanked. */
  function ShiftedRightAt(d: seq<Cell>, p: nat, e: nat): (r: seq<Cell>)
    requires p < e <= |d|
    ensures |r| == |d|
    ensures forall i :: 0 <= i < |d| ==> r[i] == if i == p then 0 else if p < i < e then d[i - 1] else d[i]
  {
    Zeroed(Poked(d, p + 1, d[p .. e - 1]), p, p + 1)
  }

  /** `scroll_right(y, x)` on the cells: the cells of row `y` from column `x` move right by one,
      the row's last cell is lost, and column `x` is blanked. */
  function ShiftedRight(d: seq<Cell>, w: nat, y: nat, x: nat): (r: seq<Cell>)
    requires x < w && Start(w, y) + w <= |d|
    ensures |r| == |d|
  {
    ShiftedRightAt(d, Start(w, y) + x, Start(w, y) + w)
  }

  /** Inside its row, `scroll_right` keeps the cells before column `x`, blanks column `x` and
      moves each later cell one column to the right. */
  lemma {:induction false} ShiftedRightRow(d: seq<Cell>, w: nat, y: nat, x: nat, j: nat)
    requires x < w && Start(w, y) + w <= |d| && j < w
    ensures Row(ShiftedRight(d, w, y, x), w, y)[j] ==
      if j < x then Row(d, w, y)[j] else if j == x then 0 else Row(d, w, y)[j - 1]
  {
    var p := Start(w, y);
    RowAt(ShiftedRightAt(d, p + x, p + w), w, y, j);
    RowAt(d, w, y, j);
    if j > 0 {
      RowAt(d, w, y, j - 1);
    }
  }

  /** `scroll_right` changes nothing outside its row. */
  lemma {:induction false} ShiftedRightOutside(d: seq<Cell>, w: nat, y: nat, x: nat, i: nat)
    requires x < w && Start(w, y) + w <= |d| && i < |d|
    requires i < Start(w, y) || Start(w, y) + w <= i
    ensures ShiftedRight(d, w, y, x)[i] == d[i]
  {
  }

  /** The meta of rows `y1 + 1` to `y2` moves up one row when the region has two rows or
      more, then row `y2` is cleared. */
  function MetaUp(m: seq<Option<Meta>>, y1: nat, y2: nat): (r: seq<Option<Meta>>)
    requires y1 <= y2 < |m|
    ensures |r| == |m|
    ensures forall y {:trigger r[y]} :: 0 <= y < |m| ==> r[y] == if y1 <= y < y2 then m[y + 1] else if y == y2 then None else m[y]
  {
    MetaCleared(seq(|m|, y requires 0 <= y < |m| => if y1 <= y < y2 then m[y + 1] else m[y]), y2, y2)
  }

  /** The meta of rows `y1` to `y2 - 1` moves down one row when the region has two rows or
      more, then row `y1` is cleared. */
  function MetaDown(m: seq<Option<Meta>>, y1: nat, y2: nat): (r: seq<Option<Meta>>)
    requires y1 <= y2 < |m|
    ensures |r| == |m|
    ensures forall y {:trigger r[y]} :: 0 <= y < |m| ==> r[y] == if y1 < y <= y2 then m[y - 1] else if y == y1 then None else m[y]
  {
    MetaCleared(seq(|m|, y requires 0 <= y < |m| => if y1 < y <= y2 then m[y - 1] else m[y]), y1, y1)
  }

  /** The meta of rows `y1` to `y2` cleared, the rest kept. */
  function MetaCleared(m: seq<Option<Meta>>, y1: nat, y2: nat): (r: seq<Option<Meta>>)
    requires y1 <= y2 + 1 <= |m|
    ensures |r| == |m|
    ensures forall y :: 0 <= y < |m| ==> r[y] == if y1 <= y <= y2 then None else m[y]
  {
    m[..y1] + seq(y2 + 1 - y1, i => None) + m[y2 + 1..]
  }

  /** Every cell holds a Unicode scalar value in its code point bits, so `dump` of any part of
      the screen succeeds. */
  predicate AllScalar(d: seq<Cell>) {
    forall i :: 0 <= i < |d| ==> IsScalar(CodeOf(d[i]))
  }

  lemma {:induction false} ZeroedScalar(d: seq<Cell>, lo: nat, hi: nat)
    requires lo <= hi <= |d| && AllScalar(d)
    ensures AllScalar(Zeroed(d, lo, hi))
  {
    var r := Zeroed(d, lo, hi);
    forall i | 0 <= i < |r| ensures IsScalar(CodeOf(r[i])) {
      if lo <= i < hi {
        assert r[i] == 0;
      }
    }
  }

  lemma {:induction false} PokedScalar(d: seq<Cell>, pos: nat, s: seq<Cell>)
    requires pos + |s| <= |d| && AllScalar(d) && AllScalar(s)
    ensures AllScalar(Poked(d, pos, s))
  {
  }

  /** Row `y` of a screen of `h` rows lies inside it. */
  lemma {:induction false} RowFits(w: nat, h: nat, y: nat)
    requires y < h
    ensures Start(w, y) + w <= Start(w, h)
  {
    StartMono(w, y + 1, h);
  }

  /** Each of `h` rows of `w` cells lies within the first `n` cells. */
  predicate RowsFit(w: nat, h: nat, n: nat) {
    forall y :: 0 <= y < h ==> Start(w, y) + w <= n
  }

  lemma {:induction false} AllRowsFit(w: nat, h: nat)
    ensures RowsFit(w, h, Start(w, h))
  {
    forall y | 0 <= y < h ensures Start(w, y) + w <= Start(w, h) {
      RowFits(w, h, y);
    }
  }

  /** Sets the cells from `lo` up to `hi` of the array to 0, in place. */
  method FillZero(a: array<Cell>, lo: nat, hi: nat)
    requires lo <= hi <= a.Length
    modifies a
    ensures a[..] == Zeroed(old(a[..]), lo, hi)
  {
    var i := lo;
    while i < hi
      invariant lo <= i <= hi
      invariant forall k :: 0 <= k < a.Length ==> a[k] == if lo <= k < i then 0 else old(a[k])
    {
      a[i] := 0;
      i := i + 1;
    }
  }

  /** Writes `s` into the array from `pos` on, in place. */
  method CopyInto(a: array<Cell>, pos: nat, s: seq<Cell>)
    requires pos + |s| <= a.Length
    modifies a
    ensures a[..] == Poked(old(a[..]), pos, s)
  {
    var i := 0;
    while i < |s|
      invariant 0 <= i <= |s|
      invariant forall k :: 0 <= k < a.Length ==> a[k] == if pos <= k < pos + i then s[k - pos] else old(a[k])
    {
      a[pos + i] := s[i];
      i := i + 1;
    }
  }
  lemma {:induction false} SliceScalar(d: seq<Cell>, lo: nat, hi: nat)
    requires lo <= hi <= |d| && AllScalar(d)
    ensures AllScalar(d[lo .. hi])
  {
    assert forall i :: 0 <= i < hi - lo ==> d[lo .. hi][i] == d[lo + i];
  }

  /** Scrolling keeps every cell a Unicode scalar value. */
  lemma {:induction false} ShiftedUpScalar(d: seq<Cell>, w: nat, y1: nat, y2: nat)
    requires y1 <= y2 && Start(w, y2) + w <= |d| && AllScalar(d)
    ensures AllScalar(ShiftedUp(d, w, y1, y2))
  {
    ShiftedUpSteps(d, w, y1, y2);
    var p, q := Start(w, y1), Start(w, y2);
    SliceScalar(d, p + w, q + w);
    PokedScalar(d, p, d[p + w .. q + w]);
    ZeroedScalar(Poked(d, p, d[p + w .. q + w]), q, q + w);
  }

  lemma {:induction false} ShiftedDownScalar(d: seq<Cell>, w: nat, y1: nat, y2: nat)
    requires y1 <= y2 && Start(w, y2) + w <= |d| && AllScalar(d)
    ensures AllScalar(ShiftedDown(d, w, y1, y2))
  {
    ShiftedDownSteps(d, w, y1, y2);
    var p, q := Start(w, y1), Start(w, y2);
    SliceScalar(d, p, q);
    PokedScalar(d, p + w, d[p .. q]);
    ZeroedScalar(Poked(d, p + w, d[p .. q]), p, p + w);
  }

  lemma {:induction false} ShiftedRightScalar(d: seq<Cell>, w: nat, y: nat, x: nat)
    requires x < w && Start(w, y) + w <= |d| && AllScalar(d)
    ensures AllScalar(ShiftedRight(d, w, y, x))
  {
    var p, e := Start(w, y) + x, Start(w, y) + w;
    SliceScalar(d, p, e - 1);
    PokedScalar(d, p + 1, d[p .. e - 1]);
    ZeroedScalar(Poked(d, p + 1, d[p .. e - 1]), p, p + 1);
  }

  /** `scroll_up(y1, y2)` on the array: `poke(y1, 0, peek(y1 + 1, 0, y2, w))` when `y2 > y1`,
      then `zero_lines(y2, y2)`. */
  method ShiftRowsUp(a: array<Cell>, w: nat, y1: nat, y2: nat)
    requires y1 <= y2 && Start(w, y2) + w <= a.Length
    modifies a
    ensures a[..] == ShiftedUp(old(a[..]), w, y1, y2)
  {
    var d := a[..];
    ShiftedUpSteps(d, w, y1, y2);
    var p, q := Start(w, y1), Start(w, y2);
    if y2 > y1 {
      CopyInto(a, p, d[p + w .. q + w]);
    } else {
      assert Poked(d, p, d[p + w .. q + w]) == d;
    }
    ghost var e := a[..];
    assert e == Poked(d, p, d[p + w .. q + w]);
    FillZero(a, q, q + w);
    assert a[..] == Zeroed(e, q, q + w);
  }

  /** `scroll_down(y1, y2)` on the array: `poke(y1 + 1, 0, peek(y1, 0, y2 - 1, w))` when
      `y2 > y1`, then `zero_lines(y1, y1)`. */
  method ShiftRowsDown(a: array<Cell>, w: nat, y1: nat, y2: nat)
    requires y1 <= y2 && Start(w, y2) + w <= a.Length
    modifies a
    ensures a[..] == ShiftedDown(old(a[..]), w, y1, y2)
  {
    var d := a[..];
    ShiftedDownSteps(d, w, y1, y2);
    var p, q := Start(w, y1), Start(w, y2);
    ghost var e := Poked(d, p + w, d[p .. q]);
    if y2 > y1 {
      // peek(y1, 0, y2 - 1, w) ends where row y2 starts
      CopyInto(a, p + w, d[p .. q]);
    } else {
      assert e == d;
    }
    assert a[..] == e;
    FillZero(a, p, p + w);
  }

  /** `scroll_right(y, x)` on the array: `poke(y, x + 1, peek(y, x, y, w - 1))`, then
      `zero(y, x, y, x)`. */
  method ShiftCellsRight(a: array<Cell>, w: nat, y: nat, x: nat)
    requires x < w && Start(w, y) + w <= a.Length
    modifies a
    ensures a[..] == ShiftedRight(old(a[..]), w, y, x)
  {
    var d := a[..];
    var p, e := Start(w, y) + x, Start(w, y) + w;
    CopyInto(a, p + 1, d[p .. e - 1]);
    ghost var f := a[..];
    FillZero(a, p, p + 1);
    assert a[..] == Zeroed(f, p, p + 1);
  }
}

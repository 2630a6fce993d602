/**
 * The notebook cell bookkeeping of lineterm.py's `Terminal` (`note_cells`): an ordered list
 * of cell indices, the cells by index, the current cell and the highest index handed out,
 * as `add_cell`, `leave_cell`, `select_cell` and `delete_cell` keep them.
 */
module Notebook {
  import opened Entries
  import opened NoteFilter

  /** `{"cellIndex", "cellType", "cellInput", "cellOutput"}` */
  datatype NoteCell = NoteCell(index: nat, cellType: string, input: seq<string>, output: seq<Entry>)

  /** `note_cells` (`maxIndex`, `curIndex`, `cellIndices`, `cells`) and `note_input`. A
      current index of 0 means no cell is current. */
  datatype NoteState = NoteState(
    maxIndex: nat,
    curIndex: nat,
    cellIndices: seq<nat>,
    cells: map<nat, NoteCell>,
    noteInput: seq<string>)

  predicate Distinct(s: seq<nat>) {
    forall i, j :: 0 <= i < j < |s| ==> s[i] != s[j]
  }

  /** The list names every cell once and nothing else, every cell carries its own index, no
      index is 0 or above the highest handed out, and the current index is 0 or a cell's. */
  predicate Consistent(st: NoteState) {
    && Distinct(st.cellIndices)
    && (forall i :: 0 <= i < |st.cellIndices| ==> st.cellIndices[i] in st.cells)
    && (forall k :: k in st.cells ==> k in st.cellIndices && 1 <= k <= st.maxIndex && st.cells[k].index == k)
    && (st.curIndex == 0 || st.curIndex in st.cells)
  }

  /** `s.index(x)`: the first position of `x`. */
  function IndexOf(s: seq<nat>, x: nat): (i: nat)
    requires x in s
    ensures i < |s| && s[i] == x && x !in s[..i]
  {
    if s[0] == x then 0
    else
      var i := IndexOf(s[1..], x) + 1;
      assert s[..i] == [s[0]] + s[1..][..i - 1];
      i
  }

  /** `s.remove(x)`: drops the first occurrence of `x`. */
  function Remove(s: seq<nat>, x: nat): seq<nat>
    requires x in s
  {
    s[..IndexOf(s, x)] + s[IndexOf(s, x) + 1..]
  }

  /** In a list without repeats, removing `x` drops `x` and nothing else, and leaves the list
      without repeats. */
  lemma {:induction false} RemoveSpec(s: seq<nat>, x: nat)
    requires x in s && Distinct(s)
    ensures |Remove(s, x)| == |s| - 1 && Distinct(Remove(s, x))
    ensures forall y :: y in Remove(s, x) <==> y in s && y != x
  {
    var p := IndexOf(s, x);
    var r := Remove(s, x);
    assert forall i :: 0 <= i < |r| ==> r[i] == if i < p then s[i] else s[i + 1];
    forall y | y in s && y != x ensures y in r {
      var i :| 0 <= i < |s| && s[i] == y;
      if i < p {
        assert r[i] == y;
      } else {
        assert r[i - 1] == y;
      }
    }
  }

  /** Every listed index names a cell. */
  lemma {:induction false} Listed(st: NoteState, k: nat)
    requires Consistent(st) && k in st.cellIndices
    ensures k in st.cells
  {
    var i :| 0 <= i < |st.cellIndices| && st.cellIndices[i] == k;
  }

  /** The cell `leave_cell` proposes to switch to from position `loc`: the one above when
      moving up and there is one, else the one below, else (from the last cell) the first,
      else none. */
  function SwitchTarget(s: seq<nat>, loc: nat, moveUp: bool): nat
    requires loc < |s|
  {
    if moveUp && loc > 0 then s[loc - 1]
    else if loc < |s| - 1 then s[loc + 1]
    else if loc > 0 then s[0]
    else 0
  }

  /** In a list of cell indices without repeats, the proposed cell is another listed cell, and
      there is none only when the cell is the only one. */
  lemma {:induction false} SwitchTargetSpec(s: seq<nat>, loc: nat, moveUp: bool)
    requires loc < |s| && Distinct(s) && forall i :: 0 <= i < |s| ==> s[i] != 0
    ensures SwitchTarget(s, loc, moveUp) == 0 <==> |s| == 1
    ensures SwitchTarget(s, loc, moveUp) != 0 ==> SwitchTarget(s, loc, moveUp) in s && SwitchTarget(s, loc, moveUp) != s[loc]
  {
  }

  /** The part of `leave_cell` that always runs once a cell is current: the cell takes the
      output and no cell is current any more. */
  function Cleared(st: NoteState, output: seq<Entry>): NoteState
    requires st.curIndex in st.cells
  {
    st.(curIndex := 0, cells := st.cells[st.curIndex := st.cells[st.curIndex].(output := output)])
  }

  lemma {:induction false} ClearedSpec(st: NoteState, output: seq<Entry>)
    requires Consistent(st) && st.curIndex != 0
    ensures Consistent(Cleared(st, output))
    ensures Cleared(st, output).cells.Keys == st.cells.Keys && Cleared(st, output).cellIndices == st.cellIndices
    ensures Cleared(st, output).cells[st.curIndex].output == output
    ensures forall k :: k in st.cells && k != st.curIndex ==> Cleared(st, output).cells[k] == st.cells[k]
  {
    var r := Cleared(st, output);
    assert r.cells.Keys == st.cells.Keys;
    forall k | k in r.cells ensures k in r.cellIndices && 1 <= k <= r.maxIndex && r.cells[k].index == k {
      assert k in st.cells;
    }
  }

  /** `del cells[cur]` and `cellIndices.remove(cur)` */
  function Dropped(st: NoteState, cur: nat): NoteState
    requires cur in st.cellIndices
  {
    st.(cells := st.cells - {cur}, cellIndices := Remove(st.cellIndices, cur))
  }

  /** Deleting a cell that is not current removes it and its index and nothing else. */
  lemma {:induction false} DroppedSpec(st: NoteState, cur: nat)
    requires Consistent(st) && cur in st.cellIndices && st.curIndex != cur
    ensures Consistent(Dropped(st, cur))
    ensures forall k :: k in Dropped(st, cur).cells <==> k in st.cells && k != cur
  {
    RemoveSpec(st.cellIndices, cur);
    var r := Dropped(st, cur);
    forall i | 0 <= i < |r.cellIndices| ensures r.cellIndices[i] in r.cells {
      assert r.cellIndices[i] in Remove(st.cellIndices, cur);
    }
  }

  /** `leave_cell(delete, move_up)`, where `output` is what `strip_prompt_lines` makes of the
      notebook's scroll buffer: the new state, the cell to switch to (0 for none, also where
      the source returns None), and whether it returned rather than failing its assertion
      that a deleted cell is not the last one. */
  function Left(st: NoteState, delete: bool, moveUp: bool, output: seq<Entry>): (NoteState, nat, bool)
    requires Consistent(st)
  {
    if st.curIndex == 0 then (st, 0, true)
    else
      var cur := st.curIndex;
      var st1 := Cleared(st, output);
      var next := SwitchTarget(st.cellIndices, IndexOf(st.cellIndices, cur), moveUp);
      if !delete then (st1, next, true)
      else if |st1.cells| <= 1 then (st1, next, false)
      else (Dropped(st1, cur), next, true)
  }

  /** Leaving a cell keeps the bookkeeping consistent and leaves no cell current; with no
      cell current it changes nothing. Deleting fails exactly when the current cell is the
      only one. */
  lemma {:induction false} LeftSpec(st: NoteState, delete: bool, moveUp: bool, output: seq<Entry>)
    requires Consistent(st)
    ensures Consistent(Left(st, delete, moveUp, output).0)
    ensures Left(st, delete, moveUp, output).0.curIndex == 0
    ensures Left(st, delete, moveUp, output).0.maxIndex == st.maxIndex
    ensures Left(st, delete, moveUp, output).0.noteInput == st.noteInput
    ensures st.curIndex == 0 ==> Left(st, delete, moveUp, output) == (st, 0, true)
    ensures !delete ==> Left(st, delete, moveUp, output).0.cellIndices == st.cellIndices
    ensures Left(st, delete, moveUp, output).2 <==> !(delete && st.curIndex != 0 && |st.cells| <= 1)
  {
    if st.curIndex != 0 {
      ClearedSpec(st, output);
      if delete && |st.cells| > 1 {
        DroppedSpec(Cleared(st, output), st.curIndex);
      }
    }
  }

  /** Leaving the current cell: it takes the output unless it is deleted; a successful delete
      removes it and its index and nothing else, and otherwise the list and the cells are
      kept. The proposed cell is another existing cell, and there is none only when the cell
      was the only one listed. */
  lemma {:induction false} LeftCurrent(st: NoteState, delete: bool, moveUp: bool, output: seq<Entry>)
    requires Consistent(st) && st.curIndex != 0
    ensures var (st1, next, ok) := Left(st, delete, moveUp, output);
      && (ok && delete ==>
            st1.cellIndices == Remove(st.cellIndices, st.curIndex)
            && forall k :: k in st1.cells <==> k in st.cells && k != st.curIndex)
      && (!(ok && delete) ==>
            st1.cellIndices == st.cellIndices && st1.cells.Keys == st.cells.Keys
            && st1.cells[st.curIndex].output == output)
      && (next != 0 ==> next in st1.cells && next != st.curIndex)
      && (next == 0 <==> |st.cellIndices| == 1)
  {
    var cur := st.curIndex;
    SwitchTargetSpec(st.cellIndices, IndexOf(st.cellIndices, cur), moveUp);
    ClearedSpec(st, output);
    if delete && |st.cells| > 1 {
      DroppedSpec(Cleared(st, output), cur);
    }
  }

  /** `select_cell(cell_index, delete, move_up)`: leaves the current cell, then makes the
      given cell, or the proposed one when 0 is given, current with its output cleared. The
      result is the new state, the selected index, and whether the call returned rather than
      failing an assertion. */
  function Selected(st: NoteState, cellIndex: nat, delete: bool, moveUp: bool, output: seq<Entry>): (NoteState, nat, bool)
    requires Consistent(st)
  {
    var (st1, next, ok) := Left(st, delete, moveUp, output);
    if !ok then (st1, 0, false)
    else
      var target := if cellIndex == 0 then next else cellIndex;
      var st2 := st1.(noteInput := []);
      if target !in st2.cells then (st2, 0, false)
      else (Focused(st2, target), target, true)
  }

  /** The cell `target` becomes current, its output cleared. */
  function Focused(st: NoteState, target: nat): NoteState
    requires target in st.cells
  {
    st.(curIndex := target, cells := st.cells[target := st.cells[target].(output := [])])
  }

  /** Making an existing cell current keeps the bookkeeping consistent and touches no other
      cell. */
  lemma {:induction false} FocusedSpec(st: NoteState, target: nat)
    requires Consistent(st) && target in st.cells
    ensures Consistent(Focused(st, target))
    ensures Focused(st, target).cells.Keys == st.cells.Keys
    ensures Focused(st, target).curIndex == target
    ensures Focused(st, target).cells[target] == st.cells[target].(output := [])
    ensures forall k :: k in st.cells && k != target ==> Focused(st, target).cells[k] == st.cells[k]
  {
    var r := Focused(st, target);
    assert r.cells.Keys == st.cells.Keys;
    forall k | k in r.cells ensures k in r.cellIndices && 1 <= k <= r.maxIndex && r.cells[k].index == k {
      assert k in st.cells;
    }
  }

  /** Selecting keeps the bookkeeping consistent; on success the selected cell is current and
      its output is empty, and the typed input is always dropped once the current cell is
      left. With no cell named, success needs a current cell, and the selected one is the
      neighbour `leave_cell` proposes. */
  lemma {:induction false} SelectedSpec(st: NoteState, cellIndex: nat, delete: bool, moveUp: bool, output: seq<Entry>)
    requires Consistent(st)
    ensures var (st2, r, ok) := Selected(st, cellIndex, delete, moveUp, output);
      && Consistent(st2)
      && (ok ==> r != 0 && st2.curIndex == r && r in st2.cells && st2.cells[r].output == [] && st2.noteInput == [])
      && (ok && cellIndex != 0 ==> r == cellIndex)
      && (ok && cellIndex == 0 ==>
            st.curIndex != 0 && r == SwitchTarget(st.cellIndices, IndexOf(st.cellIndices, st.curIndex), moveUp))
      && (!ok ==> st2.curIndex == 0)
  {
    LeftSpec(st, delete, moveUp, output);
    if st.curIndex == 0 {
      assert 0 !in st.cells;
    }
    var (st1, next, ok) := Left(st, delete, moveUp, output);
    if ok {
      var target := if cellIndex == 0 then next else cellIndex;
      var st2 := st1.(noteInput := []);
      assert Consistent(st2);
      if target in st2.cells {
        assert 0 !in st2.cells;
        FocusedSpec(st2, target);
      }
    }
  }

  /** A map with two keys or more has a key besides any given one. */
  lemma {:induction false} OtherKey(m: map<nat, NoteCell>, cur: nat)
    requires cur in m && |m| > 1
    ensures exists k :: k in m && k != cur
  {
    var rest := m.Keys - {cur};
    assert m.Keys == rest + {cur};
    var k :| k in rest;
  }

  /** `delete_cell()`: `select_cell(delete=True)`. It succeeds exactly when there is a current
      cell and it is not the only one; then that cell and its index are gone, and the cell
      `leave_cell` proposed, the next one or else the first, is current. */
  lemma {:induction false} DeletedSpec(st: NoteState, output: seq<Entry>)
    requires Consistent(st)
    ensures var (st2, r, ok) := Selected(st, 0, true, false, output);
      && (ok <==> st.curIndex != 0 && |st.cells| > 1)
      && (ok ==>
            st.curIndex !in st2.cells && st2.cellIndices == Remove(st.cellIndices, st.curIndex)
            && (forall k :: k in st2.cells <==> k in st.cells && k != st.curIndex)
            && r == SwitchTarget(st.cellIndices, IndexOf(st.cellIndices, st.curIndex), false)
            && st2.curIndex == r)
  {
    LeftSpec(st, true, false, output);
    if st.curIndex == 0 {
      assert 0 !in st.cells;
    } else {
      LeftCurrent(st, true, false, output);
      if |st.cells| > 1 {
        var s := st.cellIndices;
        OtherKey(st.cells, st.curIndex);
        var other :| other in st.cells && other != st.curIndex;
        assert other in s && st.curIndex in s;
      }
    }
  }

  /** `cellIndices[before - 1]` raises IndexError: a negative position that reaches before
      the start of a list of `n` indices. */
  predicate PlaceFails(n: nat, before: int) {
    before < 0 && n + before <= 0
  }

  /** Where `add_cell` puts the new index `idx` in list `s`: at position `before - 1`, where
      a negative position counts from the end of the list as Python's `insert` does; when no
      position is given, right after the cell `prev` that was current, or at the end when none
      was; and at the end when the position is past it. */
  function Placed(s: seq<nat>, prev: nat, idx: nat, before: int): seq<nat>
    requires prev == 0 || prev in s
    requires !PlaceFails(|s|, before)
  {
    var b := if before != 0 then before else if prev != 0 then 2 + IndexOf(s, prev) else 1 + |s|;
    if b > |s| then s + [idx]
    else
      var k := if b >= 1 then b - 1 else |s| + b - 1;
      s[..k] + [idx] + s[k..]
  }

  /** The new index lands where `add_cell` promises and the other indices keep their order:
      without a position, right after the cell that was current or at the end when none was;
      at position `before - 1` for a position in the list; at the end for one past it; and
      for a negative position, right before the cell `cellIndices[before - 1]` names. */
  lemma {:induction false} PlacedSpec(s: seq<nat>, prev: nat, idx: nat, before: int)
    requires prev == 0 || prev in s
    requires !PlaceFails(|s|, before)
    ensures var r := Placed(s, prev, idx, before);
      && |r| == |s| + 1
      && (before == 0 && prev == 0 ==> r == s + [idx])
      && (before == 0 && prev != 0 ==>
            var p := IndexOf(s, prev);
            r == s[..p + 1] + [idx] + s[p + 1..] && r[p + 1] == idx)
      && (1 <= before <= |s| ==>
            r[..before - 1] == s[..before - 1] && r[before - 1] == idx && r[before..] == s[before - 1..])
      && (before > |s| ==> r == s + [idx])
      && (before < 0 ==>
            var k := |s| + before - 1;
            r[..k] == s[..k] && r[k] == idx && r[k + 1..] == s[k..])
  {
    if before == 0 && prev != 0 {
      var p := IndexOf(s, prev);
      if p + 2 > |s| {
        assert s[..p + 1] == s && s[p + 1..] == [];
      }
    }
  }

  /** Inserting an index the list lacks, at any position, keeps it free of repeats and adds
      that index alone. */
  lemma {:induction false} InsertedAt(s: seq<nat>, k: nat, x: nat)
    requires k <= |s| && Distinct(s) && x !in s
    ensures Distinct(s[..k] + [x] + s[k..]) && |s[..k] + [x] + s[k..]| == |s| + 1
    ensures forall y :: y in s[..k] + [x] + s[k..] <==> y in s || y == x
  {
    var r := s[..k] + [x] + s[k..];
    assert forall i :: 0 <= i < |r| ==> r[i] == if i < k then s[i] else if i == k then x else s[i - 1];
    assert s == s[..k] + s[k..];
    forall i, j | 0 <= i < j < |r| ensures r[i] != r[j] {
      if i == k {
        assert r[j] == s[j - 1];
      } else if j == k {
        assert r[i] == s[i];
      }
    }
  }

  /** A new index above every listed one keeps the list free of repeats, wherever it goes. */
  lemma {:induction false} PlacedDistinct(s: seq<nat>, prev: nat, idx: nat, before: int)
    requires prev == 0 || prev in s
    requires !PlaceFails(|s|, before)
    requires Distinct(s) && idx !in s
    ensures Distinct(Placed(s, prev, idx, before)) && |Placed(s, prev, idx, before)| == |s| + 1
    ensures forall y :: y in Placed(s, prev, idx, before) <==> y in s || y == idx
  {
    var b := if before != 0 then before else if prev != 0 then 2 + IndexOf(s, prev) else 1 + |s|;
    var k := if b > |s| then |s| else if b >= 1 then b - 1 else |s| + b - 1;
    assert s + [idx] == s[..|s|] + [idx] + s[|s|..];
    assert Placed(s, prev, idx, before) == s[..k] + [idx] + s[k..];
    InsertedAt(s, k, idx);
  }

  /** The first half of `add_cell` after `leave_cell`: hands out the next index to a new empty
      cell of the given type and makes it current, before the cell is placed in the list. */
  function Registered(st: NoteState, cellType: string): NoteState {
    var idx := st.maxIndex + 1;
    st.(maxIndex := idx, curIndex := idx, cells := st.cells[idx := NoteCell(idx, cellType, [], [])])
  }

  /** The second half of `add_cell`: the registered cell placed in the list after `prev` (0
      for none) or at `before`. */
  function Inserted(st: NoteState, prev: nat, cellType: string, before: int): NoteState
    requires prev == 0 || prev in st.cellIndices
    requires !PlaceFails(|st.cellIndices|, before)
  {
    Registered(st, cellType).(cellIndices := Placed(st.cellIndices, prev, st.maxIndex + 1, before))
  }

  /** The new cell has the next index, is current, empty and of the given type; the list
      grows by its index alone and the bookkeeping stays consistent. */
  lemma {:induction false} InsertedSpec(st: NoteState, prev: nat, cellType: string, before: int)
    requires Consistent(st) && (prev == 0 || prev in st.cellIndices)
    requires !PlaceFails(|st.cellIndices|, before)
    ensures var r := Inserted(st, prev, cellType, before);
      && Consistent(r)
      && r.maxIndex == st.maxIndex + 1 && r.curIndex == r.maxIndex
      && r.cells[r.curIndex] == NoteCell(r.curIndex, cellType, [], [])
      && |r.cellIndices| == |st.cellIndices| + 1
  {
    var idx := st.maxIndex + 1;
    var s := st.cellIndices;
    forall i | 0 <= i < |s| ensures s[i] != idx {
      assert s[i] in st.cells;
    }
    PlacedDistinct(s, prev, idx, before);
    var r := Inserted(st, prev, cellType, before);
    var ns := Placed(s, prev, idx, before);
    assert r.cellIndices == ns;
    forall i | 0 <= i < |ns| ensures ns[i] in r.cells {
      if ns[i] != idx {
        Listed(st, ns[i]);
      }
    }
    forall k | k in r.cells ensures k in ns && 1 <= k <= r.maxIndex && r.cells[k].index == k {
      if k != idx {
        assert k in st.cells;
      }
    }
  }

  /** `add_cell(new_cell_type, before_cell_number)` with the position of the new cell taken
      from the cell that was current when `add_cell` was called: leaves the current cell,
      registers the new one and inserts it after the old one. The flag is false where the
      position raises IndexError; the new cell is then registered but not listed. */
  function Added(st: NoteState, cellType: string, before: int, output: seq<Entry>): (NoteState, bool)
    requires Consistent(st)
  {
    LeftSpec(st, false, false, output);
    var st1 := Left(st, false, false, output).0;
    if PlaceFails(|st1.cellIndices|, before) then (Registered(st1, cellType), false)
    else (Inserted(st1, st.curIndex, cellType, before), true)
  }

  /** `add_cell` as written: it reads `curIndex` after `leave_cell` has set it to 0, so the
      position it computes never depends on the cell that was current. */
  function AddedAsWritten(st: NoteState, cellType: string, before: int, output: seq<Entry>): (NoteState, bool)
    requires Consistent(st)
  {
    LeftSpec(st, false, false, output);
    var st1 := Left(st, false, false, output).0;
    if PlaceFails(|st1.cellIndices|, before) then (Registered(st1, cellType), false)
    else (Inserted(st1, st1.curIndex, cellType, before), true)
  }

  /** As written, a cell added without a position always goes to the end of the list. */
  lemma {:induction false} AddedAsWrittenAppends(st: NoteState, cellType: string, output: seq<Entry>)
    requires Consistent(st)
    ensures AddedAsWritten(st, cellType, 0, output).0.cellIndices == st.cellIndices + [st.maxIndex + 1]
  {
    LeftSpec(st, false, false, output);
    PlacedSpec(st.cellIndices, 0, st.maxIndex + 1, 0);
  }

  /** With cells 1 and 2 and cell 1 current, the new cell 3 lands after cell 2 as written,
      and right after cell 1 once the current cell is read first. */
  lemma {:induction false} AddedAsWrittenExample()
    ensures var st := NoteState(2, 1, [1, 2], map[1 := NoteCell(1, "code", [], []), 2 := NoteCell(2, "code", [], [])], []);
      && Consistent(st)
      && AddedAsWritten(st, "code", 0, []).0.cellIndices == [1, 2, 3]
      && Added(st, "code", 0, []).0.cellIndices == [1, 3, 2]
  {
    var st := NoteState(2, 1, [1, 2], map[1 := NoteCell(1, "code", [], []), 2 := NoteCell(2, "code", [], [])], []);
    assert Consistent(st);
    AddedAsWrittenAppends(st, "code", []);
    LeftSpec(st, false, false, []);
    assert IndexOf([1, 2], 1) == 0;
    PlacedSpec([1, 2], 1, 3, 0);
  }

  /** Adding a cell fails exactly for a negative position reaching before the start of the
      list, and then leaves the new cell current but missing from the list. Otherwise the
      bookkeeping stays consistent and the list grows by the new cell alone. Either way the new
      cell has the next index, is current, empty and of the given type. */
  lemma {:induction false} AddedSpec(st: NoteState, cellType: string, before: int, output: seq<Entry>)
    requires Consistent(st)
    ensures var (r, ok) := Added(st, cellType, before, output);
      && (ok <==> !PlaceFails(|st.cellIndices|, before))
      && r.maxIndex == st.maxIndex + 1 && r.curIndex == r.maxIndex
      && r.cells[r.curIndex] == NoteCell(r.curIndex, cellType, [], [])
      && (!ok ==> r.cellIndices == st.cellIndices && r.curIndex !in r.cellIndices && !Consistent(r))
      && (ok ==> Consistent(r) && |r.cellIndices| == |st.cellIndices| + 1)
  {
    LeftSpec(st, false, false, output);
    var st1 := Left(st, false, false, output).0;
    assert st1.cellIndices == st.cellIndices && st1.maxIndex == st.maxIndex;
    var idx := st.maxIndex + 1;
    if PlaceFails(|st.cellIndices|, before) {
      var r := Registered(st1, cellType);
      assert Added(st, cellType, before, output) == (r, false);
      forall i | 0 <= i < |st.cellIndices| ensures st.cellIndices[i] != idx {
        assert st.cellIndices[i] in st.cells;
      }
      assert idx in r.cells && idx !in r.cellIndices;
    } else {
      assert Added(st, cellType, before, output) == (Inserted(st1, st.curIndex, cellType, before), true);
      InsertedSpec(st1, st.curIndex, cellType, before);
    }
  }

  /** Where an added cell goes: without a position, right after the cell that was current, or
      at the end when none was; with one, at that 1-based place, at the end when past it, or
      counted from the end when negative; the other cells keep their order. */
  lemma {:induction false} AddedPlacement(st: NoteState, cellType: string, before: int, output: seq<Entry>)
    requires Consistent(st) && !PlaceFails(|st.cellIndices|, before)
    ensures var r := Added(st, cellType, before, output).0;
      var s := st.cellIndices;
      var idx := st.maxIndex + 1;
      && (before == 0 && st.curIndex == 0 ==> r.cellIndices == s + [idx])
      && (before == 0 && st.curIndex != 0 ==>
            var p := IndexOf(s, st.curIndex);
            r.cellIndices == s[..p + 1] + [idx] + s[p + 1..])
      && (1 <= before <= |s| ==>
            r.cellIndices[..before - 1] == s[..before - 1] && r.cellIndices[before - 1] == idx
            && r.cellIndices[before..] == s[before - 1..])
      && (before > |s| ==> r.cellIndices == s + [idx])
      && (before < 0 ==>
            var k := |s| + before - 1;
            r.cellIndices[..k] == s[..k] && r.cellIndices[k] == idx && r.cellIndices[k + 1..] == s[k..])
  {
    LeftSpec(st, false, false, output);
    var st1 := Left(st, false, false, output).0;
    assert st1.cellIndices == st.cellIndices && st1.maxIndex == st.maxIndex;
    assert Added(st, cellType, before, output).0.cellIndices == Placed(st.cellIndices, st.curIndex, st.maxIndex + 1, before);
    PlacedSpec(st.cellIndices, st.curIndex, st.maxIndex + 1, before);
  }

  /** `note_cells` and the notebook's prompts and typed input, updated in place. */
  class NoteCells {
    var maxIndex: nat
    var curIndex: nat
    var cellIndices: seq<nat>
    var cells: map<nat, NoteCell>
    var noteInput: seq<string>
    /** `note_prompts` */
    const prompts: seq<string>

    function State(): NoteState
      reads this
    {
      NoteState(maxIndex, curIndex, cellIndices, cells, noteInput)
    }

    predicate Valid()
      reads this
    {
      Consistent(State())
    }

    /** A notebook as it is opened, before its first cell is added. */
    constructor (prompts: seq<string>)
      ensures Valid() && this.prompts == prompts
      ensures State() == NoteState(0, 0, [], map[], [])
    {
      maxIndex, curIndex := 0, 0;
      cellIndices, cells := [], map[];
      noteInput := [];
      this.prompts := prompts;
    }

    /** `leave_cell(delete, move_up)`, given the entries of the notebook's scroll buffer,
        whose prompt lines `strip_prompt_lines` filters into the cell's output. */
    method LeaveCell(delete: bool, moveUp: bool, lines: seq<Entry>) returns (next: nat, ok: bool)
      requires Valid()
      modifies this
      ensures Valid()
      ensures (State(), next, ok) == Left(old(State()), delete, moveUp, Kept(lines, prompts))
    {
      LeftSpec(State(), delete, moveUp, Kept(lines, prompts));
      ghost var st0 := State();
      if curIndex == 0 {
        return 0, true;
      }
      var cur := curIndex;
      var output := StripPromptLines(lines, prompts);
      next := Proposed(moveUp);
      Clear(output);
      if delete {
        if |cells| <= 1 {
          return next, false;
        }
        Drop(cur);
      }
      ok := true;
    }

    /** The cell `leave_cell` proposes to switch to from the current one (0 for none). */
    method Proposed(moveUp: bool) returns (next: nat)
      requires Valid() && curIndex != 0
      ensures next == SwitchTarget(cellIndices, IndexOf(cellIndices, curIndex), moveUp)
    {
      var loc := IndexOf(cellIndices, curIndex);
      if moveUp && loc > 0 {
        next := cellIndices[loc - 1];
      } else if loc < |cellIndices| - 1 {
        next := cellIndices[loc + 1];
      } else if loc > 0 {
        next := cellIndices[0];
      } else {
        next := 0;
      }
    }

    /** The current cell takes the output; none is current any more. */
    method Clear(output: seq<Entry>)
      requires Valid() && curIndex != 0
      modifies this
      ensures Valid()
      ensures State() == Cleared(old(State()), output)
    {
      ClearedSpec(State(), output);
      cells := cells[curIndex := cells[curIndex].(output := output)];
      curIndex := 0;
    }

    /** `del cells[cur]`, `cellIndices.remove(cur)` */
    method Drop(cur: nat)
      requires Valid() && cur in cellIndices && curIndex != cur
      modifies this
      ensures Valid()
      ensures State() == Dropped(old(State()), cur)
    {
      DroppedSpec(State(), cur);
      cells := cells - {cur};
      cellIndices := Remove(cellIndices, cur);
    }

    /** `select_cell(cell_index, delete, move_up)`: the selected index, and whether it
        returned rather than failing an assertion. */
    method SelectCell(cellIndex: nat, delete: bool, moveUp: bool, lines: seq<Entry>) returns (r: nat, ok: bool)
      requires Valid()
      modifies this
      ensures Valid()
      ensures (State(), r, ok) == Selected(old(State()), cellIndex, delete, moveUp, Kept(lines, prompts))
    {
      var next;
      next, ok := LeaveCell(delete, moveUp, lines);
      if !ok {
        return 0, false;
      }
      var target := cellIndex;
      if target == 0 {
        target := next;
      }
      ghost var st1 := State();
      noteInput := [];
      assert State() == st1.(noteInput := []);
      if target !in cells {
        return 0, false;
      }
      Focus(target);
      r := target;
    }

    /** The cell `target` becomes current with its output cleared. */
    method Focus(target: nat)
      requires Valid() && target in cells
      modifies this
      ensures Valid()
      ensures State() == Focused(old(State()), target)
    {
      FocusedSpec(State(), target);
      curIndex := target;
      cells := cells[target := cells[target].(output := [])];
    }

    /** `delete_cell()` */
    method DeleteCell(lines: seq<Entry>) returns (r: nat, ok: bool)
      requires Valid()
      modifies this
      ensures Valid()
      ensures (State(), r, ok) == Selected(old(State()), 0, true, false, Kept(lines, prompts))
      ensures ok <==> old(curIndex) != 0 && |old(cells)| > 1
    {
      DeletedSpec(State(), Kept(lines, prompts));
      r, ok := SelectCell(0, true, false, lines);
    }

    /** `add_cell(new_cell_type, before_cell_number)`, with the current cell read before
        `leave_cell` clears it; false where the position raises IndexError, which leaves the
        new cell current but missing from the list. */
    method AddCell(cellType: string, before: int, lines: seq<Entry>) returns (ok: bool)
      requires Valid()
      modifies this
      ensures ok <==> !PlaceFails(|old(cellIndices)|, before)
      ensures ok ==> Valid()
      ensures (State(), ok) == Added(old(State()), cellType, before, Kept(lines, prompts))
    {
      LeftSpec(State(), false, false, Kept(lines, prompts));
      var prev := curIndex;
      var _, _ := LeaveCell(false, false, lines);
      ok := Insert(prev, cellType, before);
    }

    /** The new cell: the next index, current, placed after `prev` or at `before`; false,
        with the cell left out of the list, where `cellIndices[before - 1]` raises. */
    method Insert(prev: nat, cellType: string, before: int) returns (ok: bool)
      requires Valid() && (prev == 0 || prev in cellIndices)
      modifies this
      ensures ok <==> !PlaceFails(|old(cellIndices)|, before)
      ensures ok ==> Valid() && State() == Inserted(old(State()), prev, cellType, before)
      ensures !ok ==> State() == Registered(old(State()), cellType)
    {
      ghost var st0 := State();
      var idx := maxIndex + 1;
      var s := cellIndices;
      maxIndex, curIndex := idx, idx;
      cells := cells[idx := NoteCell(idx, cellType, [], [])];
      assert State() == Registered(st0, cellType);
      var b := before;
      if b == 0 {
        b := if prev != 0 then 2 + IndexOf(s, prev) else 1 + |s|;
      }
      var placed;
      if b > |s| {
        placed := s + [idx];
      } else if b >= 1 {
        placed := s[..b - 1] + [idx] + s[b - 1..];
      } else if |s| + b - 1 < 0 {
        return false;
      } else {
        placed := s[..|s| + b - 1] + [idx] + s[|s| + b - 1..];
      }
      InsertedSpec(st0, prev, cellType, before);
      assert placed == Placed(s, prev, idx, before);
      cellIndices := placed;
      ok := true;
      assert State() == Inserted(st0, prev, cellType, before);
    }
  }
}

/**
 * The scroll-back buffer `ScreenBuf` of lineterm.py: the rows that have left the screen,
 * kept as entries, with the counters the terminal uses to send only what is new.
 */
module Buffer {
  import opened Wrappers
  import opened Entries

  /** The most entries the buffer keeps before it evicts the oldest command. */
  const MaxScrollLines := 500

  function Last(s: seq<Entry>): Entry
    requires s != []
  {
    s[|s| - 1]
  }

  /** `opts.get("blob")`, empty when the entry names no blob. */
  function BlobOf(e: Entry): string {
    OptOr(e.opts, "blob")
  }

  /** The blob ids named by a run of entries, in order. */
  function BlobIds(s: seq<Entry>): seq<string>
  {
    if s == [] then []
    else (if BlobOf(s[0]) != "" then [BlobOf(s[0])] else []) + BlobIds(s[1..])
  }

  lemma {:induction false} BlobIdsAppend(a: seq<Entry>, b: seq<Entry>)
    ensures BlobIds(a + b) == BlobIds(a) + BlobIds(b)
    decreases |a|
  {
    if a == [] {
      assert a + b == b;
    } else {
      assert (a + b)[0] == a[0];
      assert (a + b)[1..] == a[1..] + b;
      BlobIdsAppend(a[1..], b);
    }
  }

  /** How many entries at the front of `s` belong to command `idx`. */
  function LeadingRun(s: seq<Entry>, idx: int): (n: nat)
    ensures n <= |s|
    ensures forall i :: 0 <= i < n ==> s[i].index == idx
    ensures n == |s| || s[n].index != idx
  {
    if s == [] || s[0].index != idx then 0 else 1 + LeadingRun(s[1..], idx)
  }

  /** Where the run of entries of command `idx` at the end of `s` starts. */
  function TrailingRunStart(s: seq<Entry>, idx: int): (n: nat)
    ensures n <= |s|
    ensures forall i :: n <= i < |s| ==> s[i].index == idx
    ensures n == 0 || s[n - 1].index != idx
  {
    if s == [] || Last(s).index != idx then |s| else TrailingRunStart(s[..|s| - 1], idx)
  }

  /** How many entries an overfull buffer drops: the oldest entry and every entry after it
      that belongs to the same command. */
  function Evicted(s: seq<Entry>): (n: nat)
    requires s != []
    ensures 1 <= n <= |s|
    ensures forall i :: 0 <= i < n ==> s[i].index == s[0].index
    ensures n == |s| || s[n].index != s[0].index
  {
    1 + LeadingRun(s[1..], s[0].index)
  }

  /** The eviction loop of `scroll_buf_up` as written: each pass pops two entries, so it also
      drops the entry after a matching one, and records the blob of the second only. A pass
      that finds a single entry left raises IndexError, here None. */
  function PopPairsAsWritten(s: seq<Entry>, idx: int, blobs: seq<string>): Option<(seq<Entry>, seq<string>)>
    decreases |s|
  {
    if s != [] && s[0].index == idx then
      if |s| < 2 then None
      else PopPairsAsWritten(s[2..], idx, blobs + (if BlobOf(s[1]) != "" then [BlobOf(s[1])] else []))
    else Some((s, blobs))
  }

  function PlainEntry(index: int, line: string): Entry {
    Entry(index, 0, "", "", map[], "", PageletId(0, 0), line, NoMarkup)
  }

  /** With the oldest command's entry popped and one more of its rows in front, the loop as
      written also pops the first row of the next command, which the corrected eviction keeps. */
  lemma {:induction false} EvictionAsWrittenDropsNextCommand()
    ensures var s := [PlainEntry(1, "a"), PlainEntry(1, "b"), PlainEntry(2, "c"), PlainEntry(2, "d")];
      && PopPairsAsWritten(s[1..], 1, []) == Some(([PlainEntry(2, "d")], []))
      && s[Evicted(s)..] == [PlainEntry(2, "c"), PlainEntry(2, "d")]
  {
    var s := [PlainEntry(1, "a"), PlainEntry(1, "b"), PlainEntry(2, "c"), PlainEntry(2, "d")];
    var t := s[1..];
    assert t == [PlainEntry(1, "b"), PlainEntry(2, "c"), PlainEntry(2, "d")];
    assert t[2..] == [PlainEntry(2, "d")];
    assert t[0].index == 1 && |t| >= 2 && BlobOf(t[1]) == "";
    var none: seq<string> := [];
    assert none + [] == none;
    assert PopPairsAsWritten(t, 1, none) == PopPairsAsWritten(t[2..], 1, none);
    assert t[1..] == [PlainEntry(2, "c"), PlainEntry(2, "d")];
    assert LeadingRun(t[1..], 1) == 0;
    assert LeadingRun(t, 1) == 1;
    assert Evicted(s) == 2;
    assert s[2..] == [PlainEntry(2, "c"), PlainEntry(2, "d")];
  }

  /** The entry a prompt row stores must not be replaced by a blank pagelet: an entry of a
      non-plain kind (which `blank_last_entry` may blank) has offset zero. */
  predicate KindsAtOffsetZero(s: seq<Entry>) {
    forall i :: 0 <= i < |s| ==> s[i].kind != "" ==> s[i].offset == 0
  }

  lemma {:induction false} KindsPrefix(s: seq<Entry>, n: nat)
    requires KindsAtOffsetZero(s) && n <= |s|
    ensures KindsAtOffsetZero(s[..n])
  {
  }

  /** `clear_last_entry` acts: the buffer is not empty, a command has been numbered, the last
      entry belongs to the current command, and the caller names no other one (zero names
      none, as Python's truth test reads it). */
  predicate ClearsLast(lines: seq<Entry>, entryIndex: int, lastEntryIndex: Option<int>) {
    && lines != [] && entryIndex > 0 && Last(lines).index == entryIndex
    && !(lastEntryIndex.Some? && lastEntryIndex.value != 0 && lastEntryIndex.value != entryIndex)
  }

  /** The entry `blank_last_entry` puts in place of an edit or form entry. */
  function Blanked(e: Entry, note: int, count: int): Entry {
    Entry(e.index, e.offset, e.dir, "pagelet", map[], "", PageletId(note, count), "", Html(""))
  }

  /** An entry that a new entry following it replaces by a blank pagelet. */
  predicate NeedsBlank(e: Entry) {
    e.kind == "edit_file" || (e.kind == "pagelet" && OptSet(e.opts, "form_input"))
  }

  /** `scroll_buf_up` replaces the last entry instead of adding one: a non-plain row asking for
      overwrite, after a pagelet with the current pagelet id. */
  predicate Overwrites(s: seq<Entry>, offset: int, rowParams: RowParams, note: int, count: int) {
    && offset == 0 && rowParams.kind != "" && OptSet(rowParams.opts, "overwrite")
    && s != [] && Last(s).kind == "pagelet" && Last(s).pageletId == PageletId(note, count)
  }

  /** The entry a pagelet is overwritten with: it keeps its position, command and pagelet id. */
  function Overwritten(e: Entry, line: string, rowParams: RowParams, addClass: string, markup: Markup): Entry {
    Entry(e.index, e.offset, "", rowParams.kind, StoredOpts(rowParams.opts), addClass, e.pageletId, line, markup)
  }

  /** The options an entry stores besides `add_class` and `pagelet_id`. */
  function StoredOpts(opts: map<string, string>): map<string, string> {
    opts - {"add_class", "pagelet_id"}
  }

  /** `len(scroll_lines) <= MAX_SCROLL_LINES` once the entry just appended has made room. */
  function Bounded(s: seq<Entry>): (r: seq<Entry>)
    ensures |s| <= MaxScrollLines + 1 ==> |r| <= MaxScrollLines
    ensures |s| <= MaxScrollLines ==> r == s
  {
    if |s| > MaxScrollLines then s[Evicted(s)..] else s
  }

  /** The blob ids the eviction of Bounded gives up. */
  function EvictedBlobs(s: seq<Entry>): seq<string> {
    if |s| > MaxScrollLines then BlobIds(s[..Evicted(s)]) else []
  }

  /** The buffer once the last entry, if it is an edit or a form, has been blanked. */
  function BlankIfNeeded(s: seq<Entry>, note: int, count: int): (r: seq<Entry>)
    ensures |r| == |s|
  {
    if s != [] && NeedsBlank(Last(s)) then s[..|s| - 1] + [Blanked(Last(s), note, count)] else s
  }

  /** `last_scroll_count` once the last entry has been replaced: that entry is sent again. */
  function Resend(last: int, count: int): int {
    if count > 0 && last >= count then count - 1 else last
  }

  lemma {:induction false} KindsAppend(a: seq<Entry>, b: seq<Entry>)
    requires KindsAtOffsetZero(a) && KindsAtOffsetZero(b)
    ensures KindsAtOffsetZero(a + b)
  {
    forall i | 0 <= i < |a + b| ensures (a + b)[i].kind != "" ==> (a + b)[i].offset == 0 {
      if i >= |a| {
        assert (a + b)[i] == b[i - |a|];
      }
    }
  }

  lemma {:induction false} KindsSuffix(s: seq<Entry>, n: nat)
    requires KindsAtOffsetZero(s) && n <= |s|
    ensures KindsAtOffsetZero(s[n..])
  {
    forall i | 0 <= i < |s| - n ensures s[n..][i].kind != "" ==> s[n..][i].offset == 0 {
      assert s[n..][i] == s[n + i];
    }
  }

  /** The row asks to replace the previous pagelet: a non-plain, non-prompt row with the
      `overwrite` option set. */
  predicate OverwriteRequested(offset: int, rowParams: RowParams) {
    offset == 0 && rowParams.kind != "" && OptSet(rowParams.opts, "overwrite")
  }

  /** The directory a prompt row records: the meta tuple's, on a prompt row that has one. */
  function CommandDir(meta: Option<Meta>, offset: int): string {
    if offset != 0 && meta.Some? then meta.value.dir else ""
  }

  /** The first part of `scroll_buf_up`: a prompt row numbers a new command and resets the
      cleared-entry record; a non-plain row records its blob, first giving up the previous
      blob when it overwrites. */
  function Started(st: BufState, offset: int, rowParams: RowParams): BufState {
    if offset != 0 then
      st.(entryIndex := st.entryIndex + 1,
          clearedCurrentDir := if st.clearedLast then st.clearedCurrentDir else None,
          clearedLast := false)
    else if rowParams.kind != "" then
      st.(deleteBlobIds := st.deleteBlobIds
            + (if OptSet(rowParams.opts, "overwrite") && st.lastBlobId != "" then [st.lastBlobId] else []),
          lastBlobId := OptOr(rowParams.opts, "blob"))
    else st
  }

  /** The state `scroll_buf_up` leaves. */
  function ScrolledUp(old_: BufState, preOffset: nat, line: string, meta: Option<Meta>, offset: int, addClass: string,
                      rowParams: RowParams, markup: Markup): BufState
  {
    var st := Started(old_, offset, rowParams);
    var rowMarkup := if offset != 0 then CommandMarkup(st.entryIndex, CommandDir(meta, offset), preOffset, offset, line) else markup;
    if Overwrites(old_.scrollLines, offset, rowParams, old_.bufNote, old_.currentScrollCount) then
      OverwriteState(st, line, addClass, rowParams, rowMarkup)
    else
      NewEntryState(st, NewEntry(st, line, CommandDir(meta, offset), offset, addClass, rowParams, rowMarkup))
  }

  /** The entry the new-entry path of `scroll_buf_up` stores. */
  function NewEntry(st: BufState, line: string, dir: string, offset: int, addClass: string,
                    rowParams: RowParams, markup: Markup): Entry
  {
    Entry(st.entryIndex, offset, dir, rowParams.kind, StoredOpts(rowParams.opts), addClass,
          PageletId(st.bufNote, st.currentScrollCount + 1), line, markup)
  }

  /** The overwrite path: the last pagelet is replaced and sent again. */
  function OverwriteState(st: BufState, line: string, addClass: string, rowParams: RowParams, markup: Markup): BufState
    requires st.scrollLines != []
  {
    var lines := st.scrollLines;
    st.(scrollLines := lines[..|lines| - 1] + [Overwritten(Last(lines), line, rowParams, addClass, markup)],
        lastScrollCount := Resend(st.lastScrollCount, st.currentScrollCount))
  }

  /** The new-entry path: the previous edit or form entry is blanked, the entry counted and
      appended, and an overfull buffer evicts its oldest command. */
  function NewEntryState(st: BufState, e: Entry): BufState {
    var lines, count := st.scrollLines, st.currentScrollCount;
    var blanking := lines != [] && NeedsBlank(Last(lines));
    var added := BlankIfNeeded(lines, st.bufNote, count) + [e];
    st.(currentScrollCount := count + 1,
        lastScrollCount := if blanking then Resend(st.lastScrollCount, count) else st.lastScrollCount,
        scrollLines := Bounded(added),
        deleteBlobIds := st.deleteBlobIds + EvictedBlobs(added))
  }

  /** A prompt row numbers one more command; no other row changes the number. */
  lemma {:induction false} ScrollNumbersCommands(st: BufState, preOffset: nat, line: string, meta: Option<Meta>, offset: int,
                              addClass: string, rowParams: RowParams, markup: Markup)
    ensures ScrolledUp(st, preOffset, line, meta, offset, addClass, rowParams, markup).entryIndex
      == st.entryIndex + (if offset != 0 then 1 else 0)
  {
  }

  /** A new entry is counted and, while there is room, appended with the row's text; an
      overwrite changes neither the count nor the number of entries. */
  lemma {:induction false} ScrollCounts(st: BufState, preOffset: nat, line: string, meta: Option<Meta>, offset: int,
                     addClass: string, rowParams: RowParams, markup: Markup)
    ensures var r := ScrolledUp(st, preOffset, line, meta, offset, addClass, rowParams, markup);
      if Overwrites(st.scrollLines, offset, rowParams, st.bufNote, st.currentScrollCount) then
        r.currentScrollCount == st.currentScrollCount && |r.scrollLines| == |st.scrollLines|
        && Last(r.scrollLines).line == line
      else
        && r.currentScrollCount == st.currentScrollCount + 1
        && (|st.scrollLines| < MaxScrollLines ==>
              && r.scrollLines[..|st.scrollLines|] == BlankIfNeeded(st.scrollLines, st.bufNote, st.currentScrollCount)
              && Last(r.scrollLines).line == line)
  {
    if Overwrites(st.scrollLines, offset, rowParams, st.bufNote, st.currentScrollCount) {
      ScrollOverwrites(st, preOffset, line, meta, offset, addClass, rowParams, markup);
    } else {
      ScrollAppends(st, preOffset, line, meta, offset, addClass, rowParams, markup);
    }
  }

  lemma {:induction false} ScrollOverwrites(st: BufState, preOffset: nat, line: string, meta: Option<Meta>, offset: int,
                         addClass: string, rowParams: RowParams, markup: Markup)
    requires Overwrites(st.scrollLines, offset, rowParams, st.bufNote, st.currentScrollCount)
    ensures var r := ScrolledUp(st, preOffset, line, meta, offset, addClass, rowParams, markup);
      r.currentScrollCount == st.currentScrollCount && |r.scrollLines| == |st.scrollLines|
      && Last(r.scrollLines).line == line
  {
    var st1 := Started(st, offset, rowParams);
    assert st1.scrollLines == st.scrollLines && st1.currentScrollCount == st.currentScrollCount;
  }

  lemma {:induction false} ScrollAppends(st: BufState, preOffset: nat, line: string, meta: Option<Meta>, offset: int,
                      addClass: string, rowParams: RowParams, markup: Markup)
    requires !Overwrites(st.scrollLines, offset, rowParams, st.bufNote, st.currentScrollCount)
    ensures var r := ScrolledUp(st, preOffset, line, meta, offset, addClass, rowParams, markup);
      && r.currentScrollCount == st.currentScrollCount + 1
      && (|st.scrollLines| < MaxScrollLines ==>
            && r.scrollLines[..|st.scrollLines|] == BlankIfNeeded(st.scrollLines, st.bufNote, st.currentScrollCount)
            && Last(r.scrollLines).line == line)
  {
    var st1 := Started(st, offset, rowParams);
    assert st1.scrollLines == st.scrollLines && st1.currentScrollCount == st.currentScrollCount;
    assert st1.bufNote == st.bufNote;
    var rowMarkup := if offset != 0 then CommandMarkup(st1.entryIndex, CommandDir(meta, offset), preOffset, offset, line) else markup;
    var e := NewEntry(st1, line, CommandDir(meta, offset), offset, addClass, rowParams, rowMarkup);
    assert ScrolledUp(st, preOffset, line, meta, offset, addClass, rowParams, markup) == NewEntryState(st1, e);
    NewEntryCounts(st1, e);
  }

  /** The new-entry path counts the entry and, while there is room, appends it after the
      entries kept. */
  lemma {:induction false} NewEntryCounts(st: BufState, e: Entry)
    ensures NewEntryState(st, e).currentScrollCount == st.currentScrollCount + 1
    ensures |st.scrollLines| < MaxScrollLines ==>
      && NewEntryState(st, e).scrollLines[..|st.scrollLines|] == BlankIfNeeded(st.scrollLines, st.bufNote, st.currentScrollCount)
      && Last(NewEntryState(st, e).scrollLines) == e
  {
    var kept := BlankIfNeeded(st.scrollLines, st.bufNote, st.currentScrollCount);
    if |st.scrollLines| < MaxScrollLines {
      assert Bounded(kept + [e]) == kept + [e];
      assert (kept + [e])[..|st.scrollLines|] == kept;
    }
  }

  /** A buffer within its bound stays within it. */
  lemma {:induction false} ScrollBounded(st: BufState, preOffset: nat, line: string, meta: Option<Meta>, offset: int,
                      addClass: string, rowParams: RowParams, markup: Markup)
    requires |st.scrollLines| <= MaxScrollLines
    ensures |ScrolledUp(st, preOffset, line, meta, offset, addClass, rowParams, markup).scrollLines| <= MaxScrollLines
  {
  }

  /** What an update reported: screen size, cursor, and whether the alternate screen showed. */
  datatype View = View(width: int, height: int, cursorX: int, cursorY: int, alt: bool)

  /** The fields of a ScreenBuf, read together. */
  datatype BufState = BufState(
    entryIndex: int,
    currentScrollCount: int,
    lastScrollCount: int,
    scrollLines: seq<Entry>,
    lastBlobId: string,
    deleteBlobIds: seq<string>,
    fullUpdate: bool,
    clearedCurrentDir: Option<string>,
    clearedLast: bool,
    bufNote: int,
    shown: Option<View>)

  /** The entries sent by an update: the last `current - last` entries, or all of them when
      more were counted than the buffer still holds. */
  function Unsent(s: seq<Entry>, last: int, current: int): (r: seq<Entry>)
    ensures last >= current ==> r == []
    ensures last < current ==> |r| == (if current - last <= |s| then current - last else |s|)
    ensures r == s[|s| - |r|..]
  {
    if last >= current then []
    else if current - last <= |s| then s[|s| - (current - last)..]
    else s
  }

  /** What was appended since the counters last agreed is exactly what the next update sends. */
  lemma {:induction false} UnsentAppended(s: seq<Entry>, count: int, added: seq<Entry>)
    ensures Unsent(s + added, count, count + |added|) == added
  {
    if added != [] {
      assert (s + added)[|s|..] == added;
    }
  }

  /** The backward scan of `clear_last_entry`, from the last entry, which belongs to `idx`. */
  method FindRunStart(lines: seq<Entry>, idx: int) returns (n: nat)
    requires lines != [] && Last(lines).index == idx
    ensures n == TrailingRunStart(lines, idx) && n < |lines|
  {
    n := |lines| - 1;
    while n > 0 && lines[n - 1].index == idx
      invariant 0 <= n < |lines|
      invariant TrailingRunStart(lines, idx) <= n
      decreases n
    {
      n := n - 1;
    }
  }

  /** The blob ids of the entries, gathered one entry at a time. */
  method CollectBlobs(lines: seq<Entry>) returns (blobs: seq<string>)
    ensures blobs == BlobIds(lines)
  {
    blobs := [];
    var k := 0;
    while k < |lines|
      invariant 0 <= k <= |lines|
      invariant blobs == BlobIds(lines[..k])
    {
      assert lines[..k + 1] == lines[..k] + [lines[k]];
      BlobIdsAppend(lines[..k], [lines[k]]);
      var blobId := BlobOf(lines[k]);
      if blobId != "" {
        blobs := blobs + [blobId];
      }
      k := k + 1;
    }
    assert lines[..k] == lines;
  }

  /** The eviction loop of `scroll_buf_up`, corrected to pop one entry per pass: the entries
      left, and the blob ids of those dropped. */
  method PopOldestCommand(lines: seq<Entry>) returns (rest: seq<Entry>, blobs: seq<string>)
    requires lines != []
    ensures rest == lines[Evicted(lines)..]
    ensures blobs == BlobIds(lines[..Evicted(lines)])
  {
    var first := lines[0];
    assert lines[..1] == [first];
    rest := lines[1..];
    blobs := if BlobOf(first) != "" then [BlobOf(first)] else [];
    ghost var n := Evicted(lines);
    ghost var j := 1;
    while rest != [] && rest[0].index == first.index
      invariant 1 <= j <= n
      invariant rest == lines[j..]
      invariant blobs == BlobIds(lines[..j])
      decreases |rest|
    {
      var tem := rest[0];
      assert tem == lines[j] && j < n;
      rest := rest[1..];
      assert lines[..j + 1] == lines[..j] + [tem];
      BlobIdsAppend(lines[..j], [tem]);
      if BlobOf(tem) != "" {
        blobs := blobs + [BlobOf(tem)];
      }
      j := j + 1;
    }
    assert j == n;
  }

  class ScreenBuf {
    /** `len(pdelim[0])`: the width of the prompt prefix, recorded in command markup. */
    const preOffset: nat

    var entryIndex: int
    var currentScrollCount: int
    var lastScrollCount: int
    var scrollLines: seq<Entry>
    var lastBlobId: string
    var deleteBlobIds: seq<string>
    var fullUpdate: bool
    var clearedCurrentDir: Option<string>
    var clearedLast: bool
    var bufNote: int
    /** `width`, `height`, `cursorx`, `cursory` and `alt_screen` as the last update stored them;
        None before the first one. */
    var shown: Option<View>

    function State(): BufState
      reads this
    {
      BufState(entryIndex, currentScrollCount, lastScrollCount, scrollLines, lastBlobId, deleteBlobIds,
               fullUpdate, clearedCurrentDir, clearedLast, bufNote, shown)
    }

    /** The counters bound the buffer: every stored entry was counted, the entries already
        sent are no more than those counted, and commands are numbered from zero up. */
    predicate Valid()
      reads this
    {
      && entryIndex >= 0
      && 0 <= lastScrollCount <= currentScrollCount
      && |scrollLines| <= currentScrollCount
      && KindsAtOffsetZero(scrollLines)
    }

    constructor (pdelim: Option<Delims>)
      ensures Valid()
      ensures preOffset == (if pdelim.Some? then |pdelim.value.prefix| else 0)
      ensures State() == BufState(0, 0, 0, [], "", [], true, None, false, 0, None)
    {
      preOffset := if pdelim.Some? then |pdelim.value.prefix| else 0;
      entryIndex := 0;
      currentScrollCount := 0;
      lastScrollCount := 0;
      scrollLines := [];
      lastBlobId := "";
      deleteBlobIds := [];
      fullUpdate := true;
      clearedCurrentDir := None;
      clearedLast := false;
      bufNote := 0;
      shown := None;
    }

    method SetBufNote(note: int)
      requires Valid()
      modifies this
      ensures Valid()
      ensures State() == old(State()).(bufNote := note)
    {
      bufNote := note;
    }

    /** `clear_buf`: drops every entry and marks everything counted so far as sent. */
    method ClearBuf()
      requires Valid()
      modifies this
      ensures Valid()
      ensures State() == old(State()).(lastScrollCount := currentScrollCount, scrollLines := [], lastBlobId := "",
                                       deleteBlobIds := [], fullUpdate := true)
    {
      lastScrollCount := currentScrollCount;
      scrollLines := [];
      lastBlobId := "";
      deleteBlobIds := [];
      fullUpdate := true;
    }

    /** `clear_last_entry`: drops the entries of the last command when that command is the
        current one (and the one the caller names, if it names one). */
    method ClearLastEntry(lastEntryIndex: Option<int>)
      requires Valid()
      modifies this
      ensures Valid()
      ensures !ClearsLast(old(scrollLines), old(entryIndex), lastEntryIndex) ==> State() == old(State())
      ensures ClearsLast(old(scrollLines), old(entryIndex), lastEntryIndex) ==>
        var lines := old(scrollLines);
        var n := TrailingRunStart(lines, old(entryIndex));
        var count := old(currentScrollCount) - (|lines| - n);
        && n < |lines|
        && State() == old(State()).(
             entryIndex := old(entryIndex) - 1,
             currentScrollCount := count,
             lastScrollCount := if old(lastScrollCount) > count then count else old(lastScrollCount),
             scrollLines := lines[..n],
             deleteBlobIds := old(deleteBlobIds) + BlobIds(lines[n..]),
             clearedLast := true,
             clearedCurrentDir := if old(clearedCurrentDir).None? then Some(lines[n].dir) else old(clearedCurrentDir))
    {
      if ClearsLast(scrollLines, entryIndex, lastEntryIndex) {
        var lines := scrollLines;
        var n := FindRunStart(lines, entryIndex);
        var blobs := CollectBlobs(lines[n..]);
        KindsPrefix(lines, n);
        DropTrailingRun(n, blobs);
      }
    }

    /** The updates `clear_last_entry` makes once it has found where the trailing run starts. */
    method DropTrailingRun(n: nat, blobs: seq<string>)
      requires Valid() && entryIndex > 0 && n < |scrollLines| && KindsAtOffsetZero(scrollLines[..n])
      modifies this
      ensures Valid()
      ensures
        var count := old(currentScrollCount) - (|old(scrollLines)| - n);
        State() == old(State()).(
          entryIndex := old(entryIndex) - 1,
          currentScrollCount := count,
          lastScrollCount := if old(lastScrollCount) > count then count else old(lastScrollCount),
          scrollLines := old(scrollLines)[..n],
          deleteBlobIds := old(deleteBlobIds) + blobs,
          clearedLast := true,
          clearedCurrentDir := if old(clearedCurrentDir).None? then Some(old(scrollLines)[n].dir) else old(clearedCurrentDir))
    {
      var count := currentScrollCount - (|scrollLines| - n);
      entryIndex, currentScrollCount, clearedLast := entryIndex - 1, count, true;
      clearedCurrentDir := if clearedCurrentDir.None? then Some(scrollLines[n].dir) else clearedCurrentDir;
      deleteBlobIds, scrollLines := deleteBlobIds + blobs, scrollLines[..n];
      lastScrollCount := if lastScrollCount > count then count else lastScrollCount;
    }

    /** `blank_last_entry`: the last entry (which must not start a command) becomes an empty
        pagelet with the current pagelet id, and is sent again. */
    method BlankLastEntry()
      requires Valid()
      requires scrollLines != [] ==> Last(scrollLines).offset == 0
      modifies this
      ensures Valid()
      ensures old(scrollLines) == [] ==> State() == old(State())
      ensures old(scrollLines) != [] ==>
        State() == old(State()).(
          scrollLines := old(scrollLines)[..|old(scrollLines)| - 1] + [Blanked(Last(old(scrollLines)), bufNote, currentScrollCount)],
          lastScrollCount := Resend(old(lastScrollCount), currentScrollCount))
    {
      if scrollLines != [] {
        var n := |scrollLines| - 1;
        var b := Blanked(scrollLines[n], bufNote, currentScrollCount);
        KindsPrefix(scrollLines, n);
        KindsAppend(scrollLines[..n], [b]);
        scrollLines := scrollLines[..n] + [b];
        lastScrollCount := Resend(lastScrollCount, currentScrollCount);
      }
    }

    /** The new-entry path of `scroll_buf_up`: an edit or form entry before it is blanked, the
        entry is counted and appended, and an overfull buffer evicts its oldest command. */
    method AppendEntry(e: Entry)
      requires Valid() && (e.kind != "" ==> e.offset == 0)
      modifies this
      ensures Valid()
      ensures State() == NewEntryState(old(State()), e)
    {
      if scrollLines != [] && NeedsBlank(Last(scrollLines)) {
        BlankLastEntry();
      }
      PushEntry(e);
    }

    /** Counts and appends an entry, then evicts the oldest command if the buffer is overfull. */
    method PushEntry(e: Entry)
      requires Valid() && (e.kind != "" ==> e.offset == 0)
      modifies this
      ensures Valid()
      ensures
        var added := old(scrollLines) + [e];
        State() == old(State()).(
          currentScrollCount := old(currentScrollCount) + 1,
          scrollLines := Bounded(added),
          deleteBlobIds := old(deleteBlobIds) + EvictedBlobs(added))
    {
      currentScrollCount := currentScrollCount + 1;
      KindsAppend(scrollLines, [e]);
      scrollLines := scrollLines + [e];
      if |scrollLines| > MaxScrollLines {
        KindsSuffix(scrollLines, Evicted(scrollLines));
        EvictOldest();
      } else {
        assert deleteBlobIds + [] == deleteBlobIds;
      }
    }

    /** `scroll_buf_up`: a row leaves the screen (or a non-plain row arrives) and is stored as
        a new entry, or replaces the last pagelet when it asks to overwrite it. */
    method ScrollBufUp(line: string, meta: Option<Meta>, offset: int, addClass: string, rowParams: RowParams, markup: Markup)
      requires Valid()
      requires offset != 0 ==> rowParams.kind == ""
      modifies this
      ensures Valid()
      ensures State() == ScrolledUp(old(State()), preOffset, line, meta, offset, addClass, rowParams, markup)
    {
      var count := currentScrollCount;
      StartRow(offset, rowParams);
      ghost var st := State();
      var dir := CommandDir(meta, offset);
      var rowMarkup := if offset != 0 then CommandMarkup(entryIndex, dir, preOffset, offset, line) else markup;
      if Overwrites(scrollLines, offset, rowParams, bufNote, count) {
        OverwriteLast(line, rowParams, addClass, rowMarkup);
        assert State() == OverwriteState(st, line, addClass, rowParams, rowMarkup);
      } else {
        var e := Entry(entryIndex, offset, dir, rowParams.kind, StoredOpts(rowParams.opts), addClass,
                       PageletId(bufNote, count + 1), line, rowMarkup);
        assert e == NewEntry(st, line, dir, offset, addClass, rowParams, rowMarkup);
        AppendEntry(e);
        assert State() == NewEntryState(st, e);
      }
    }

    /** The first part of `scroll_buf_up`, before the row is stored. */
    method StartRow(offset: int, rowParams: RowParams)
      requires Valid()
      modifies this
      ensures Valid()
      ensures State() == Started(old(State()), offset, rowParams)
    {
      if offset != 0 {
        // a prompt (command) line
        entryIndex := entryIndex + 1;
        if !clearedLast {
          clearedCurrentDir := None;
        }
        clearedLast := false;
      } else if rowParams.kind != "" {
        var overwrite := OptSet(rowParams.opts, "overwrite");
        if overwrite && lastBlobId != "" {
          deleteBlobIds := deleteBlobIds + [lastBlobId];
        }
        lastBlobId := OptOr(rowParams.opts, "blob");
      }
    }

    /** `append_scroll`: entries saved earlier are counted and appended as they are. */
    method AppendScroll(lines: seq<Entry>)
      requires Valid() && KindsAtOffsetZero(lines)
      modifies this
      ensures Valid()
      ensures State() == old(State()).(currentScrollCount := old(currentScrollCount) + |lines|,
                                       scrollLines := old(scrollLines) + lines)
    {
      KindsAppend(scrollLines, lines);
      currentScrollCount := currentScrollCount + |lines|;
      scrollLines := scrollLines + lines;
    }

    /** The scroll side of `update`: whether the client must redraw everything, and the
        entries it has not been sent yet (all of them when it reconnects). Unless reconnecting,
        everything counted is then marked as sent and the view is recorded. */
    method Update(width: int, height: int, cursorX: int, cursorY: int, alt: bool, reconnecting: bool)
      returns (full: bool, updateScroll: seq<Entry>)
      requires Valid()
      modifies this
      ensures Valid()
      ensures full == (|| old(fullUpdate) || reconnecting
                       || (old(shown).None? || old(shown).value.width != width || old(shown).value.height != height)
                       || alt != (old(shown).Some? && old(shown).value.alt))
      ensures updateScroll == if reconnecting then old(scrollLines)
                              else Unsent(old(scrollLines), old(lastScrollCount), old(currentScrollCount))
      ensures reconnecting ==> State() == old(State())
      ensures !reconnecting ==>
        State() == old(State()).(lastScrollCount := old(currentScrollCount), fullUpdate := false,
                                 shown := Some(View(width, height, cursorX, cursorY, alt)))
    {
      full := fullUpdate || reconnecting;
      var sizeChanged := shown.None? || shown.value.width != width || shown.value.height != height;
      if !reconnecting && sizeChanged {
        full := true;
      }
      var altShown := shown.Some? && shown.value.alt;
      if (alt && !altShown) || (!alt && altShown) {
        full := true;
      }
      if reconnecting {
        updateScroll := scrollLines;
      } else if lastScrollCount < currentScrollCount {
        var k := currentScrollCount - lastScrollCount;
        updateScroll := if k <= |scrollLines| then scrollLines[|scrollLines| - k..] else scrollLines;
      } else {
        updateScroll := [];
      }
      if !reconnecting {
        lastScrollCount := currentScrollCount;
        fullUpdate := false;
        shown := Some(View(width, height, cursorX, cursorY, alt));
      }
    }

    /** The eviction at the end of `scroll_buf_up`: the oldest entry goes, with every entry
        after it that belongs to the same command, and their blobs are marked for deletion. */
    method EvictOldest()
      requires scrollLines != []
      modifies this
      ensures
        var n := Evicted(old(scrollLines));
        State() == old(State()).(scrollLines := old(scrollLines)[n..],
                                 deleteBlobIds := old(deleteBlobIds) + BlobIds(old(scrollLines)[..n]))
    {
      var rest, blobs := PopOldestCommand(scrollLines);
      scrollLines, deleteBlobIds := rest, deleteBlobIds + blobs;
    }

    /** The overwrite path of `scroll_buf_up`: the last pagelet takes the new row's kind,
        options, line and markup, keeps its pagelet id, and is sent again. */
    method OverwriteLast(line: string, rowParams: RowParams, addClass: string, markup: Markup)
      requires Valid() && scrollLines != [] && Last(scrollLines).kind != ""
      requires Last(scrollLines).pageletId == PageletId(bufNote, currentScrollCount)
      modifies this
      ensures Valid()
      ensures State() == OverwriteState(old(State()), line, addClass, rowParams, markup)
    {
      var n := |scrollLines| - 1;
      var e := scrollLines[n];
      var e' := Entry(e.index, e.offset, "", rowParams.kind, StoredOpts(rowParams.opts), addClass,
                      PageletId(bufNote, currentScrollCount), line, markup);
      assert e' == Overwritten(e, line, rowParams, addClass, markup);
      KindsPrefix(scrollLines, n);
      KindsAppend(scrollLines[..n], [e']);
      scrollLines := scrollLines[..n] + [e'];
      lastScrollCount := Resend(lastScrollCount, currentScrollCount);
    }
  }
}

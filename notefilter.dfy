/**
 * `strip_prompt_lines`: filtering the scroll-back of a notebook cell so that
 * prompt lines are dropped unless an error follows them.
 */
module NoteFilter {
  import opened Wrappers
  import opened Strings
  import opened Entries

  /** The line starts with one of the notebook prompts. */
  predicate IsPrompt(line: string, prompts: seq<string>) {
    exists k :: 0 <= k < |prompts| && StartsWith(line, prompts[k])
  }

  /** `"error" in line.lower()`. Only A-Z lower-case into the letters of "error", so ASCII
      lower-casing decides this test as Unicode lower-casing would. */
  predicate HasError(line: string) {
    Contains(AsciiLower(line), "error")
  }

  /** Some entry before the next prompt entry reports an error. */
  predicate ErrorBeforePrompt(rest: seq<Entry>, prompts: seq<string>)
  {
    if rest == [] then false
    else if IsPrompt(rest[0].line, prompts) then false
    else HasError(rest[0].line) || ErrorBeforePrompt(rest[1..], prompts)
  }

  /** The entries `strip_prompt_lines` keeps: every non-prompt entry, and a prompt entry only
      when an error is reported before the next prompt. */
  function Kept(s: seq<Entry>, prompts: seq<string>): seq<Entry>
  {
    if s == [] then []
    else if IsPrompt(s[0].line, prompts) then
      (if ErrorBeforePrompt(s[1..], prompts) then [s[0]] else []) + Kept(s[1..], prompts)
    else [s[0]] + Kept(s[1..], prompts)
  }

  /** The inner loop of `strip_prompt_lines`: does the line start with any prompt? */
  method HasPrompt(line: string, prompts: seq<string>) returns (found: bool)
    ensures found == IsPrompt(line, prompts)
  {
    found := false;
    var k := 0;
    while k < |prompts|
      invariant 0 <= k <= |prompts|
      invariant !IsPromptAmong(line, prompts, k)
    {
      if StartsWith(line, prompts[k]) {
        found := true;
        return;
      }
      k := k + 1;
    }
  }

  /** One of the first `n` prompts starts the line. */
  predicate IsPromptAmong(line: string, prompts: seq<string>, n: nat)
    requires n <= |prompts|
  {
    exists k :: 0 <= k < n && StartsWith(line, prompts[k])
  }

  /** What is still to be emitted once the entries before `rest` have been scanned: the held
      prompt entry if an error follows it, the current block, and the kept part of the rest. */
  function Pending(block: seq<Entry>, prev: Option<Entry>, rest: seq<Entry>, prompts: seq<string>): seq<Entry>
  {
    (if prev.Some? && ErrorBeforePrompt(rest, prompts) then [prev.value] else [])
      + block + Kept(rest, prompts)
  }

  /** Kept and ErrorBeforePrompt on a sequence given by its first entry. */
  lemma {:induction false} KeptCons(e: Entry, rest: seq<Entry>, prompts: seq<string>)
    ensures Kept([e] + rest, prompts) ==
      (if !IsPrompt(e.line, prompts) || ErrorBeforePrompt(rest, prompts) then [e] else []) + Kept(rest, prompts)
    ensures ErrorBeforePrompt([e] + rest, prompts) ==
      (!IsPrompt(e.line, prompts) && (HasError(e.line) || ErrorBeforePrompt(rest, prompts)))
  {
    var s := [e] + rest;
    assert s[0] == e && s[1..] == rest;
  }

  /** Scanning a prompt entry flushes the block and holds the prompt. */
  lemma {:induction false} PendingPrompt(trunc: seq<Entry>, block: seq<Entry>, prev: Option<Entry>, e: Entry, rest: seq<Entry>, prompts: seq<string>)
    requires IsPrompt(e.line, prompts)
    ensures trunc + Pending(block, prev, [e] + rest, prompts) == (trunc + block) + Pending([], Some(e), rest, prompts)
  {
    KeptCons(e, rest, prompts);
  }

  /** Scanning a non-prompt entry appends it to the block; an error report releases the held
      prompt in front of the block. */
  lemma {:induction false} PendingPlain(trunc: seq<Entry>, block: seq<Entry>, prev: Option<Entry>, e: Entry, rest: seq<Entry>, prompts: seq<string>)
    requires !IsPrompt(e.line, prompts)
    ensures HasError(e.line) && prev.Some? ==>
      trunc + Pending(block, prev, [e] + rest, prompts) == trunc + Pending([prev.value] + (block + [e]), None, rest, prompts)
    ensures !(HasError(e.line) && prev.Some?) ==>
      trunc + Pending(block, prev, [e] + rest, prompts) == trunc + Pending(block + [e], prev, rest, prompts)
  {
    KeptCons(e, rest, prompts);
    var k := Kept(rest, prompts);
    assert Kept([e] + rest, prompts) == [e] + k;
    if HasError(e.line) && prev.Some? {
      var p := [prev.value];
      assert Pending(block, prev, [e] + rest, prompts) == p + block + ([e] + k);
      assert Pending(p + (block + [e]), None, rest, prompts) == [] + (p + (block + [e])) + k;
      assert p + block + ([e] + k) == [] + (p + (block + [e])) + k;
    } else {
      var head := if prev.Some? && ErrorBeforePrompt(rest, prompts) then [prev.value] else [];
      assert Pending(block, prev, [e] + rest, prompts) == head + block + ([e] + k);
      assert Pending(block + [e], prev, rest, prompts) == head + (block + [e]) + k;
      assert head + block + ([e] + k) == head + (block + [e]) + k;
    }
  }

  /** `strip_prompt_lines`, proved to return exactly the entries Kept describes. */
  method StripPromptLines(updateScroll: seq<Entry>, prompts: seq<string>) returns (r: seq<Entry>)
    ensures r == Kept(updateScroll, prompts)
  {
    var trunc: seq<Entry> := [];
    var block: seq<Entry> := [];
    var prev: Option<Entry> := None;
    var i := 0;
    while i < |updateScroll|
      invariant 0 <= i <= |updateScroll|
      invariant trunc + Pending(block, prev, updateScroll[i..], prompts) == Kept(updateScroll, prompts)
    {
      var entry := updateScroll[i];
      assert updateScroll[i..] == [entry] + updateScroll[i + 1..];
      var hasPrompt := HasPrompt(entry.line, prompts);
      if hasPrompt {
        PendingPrompt(trunc, block, prev, entry, updateScroll[i + 1..], prompts);
        trunc := trunc + block;
        block := [];
        prev := Some(entry);
      } else {
        var error := HasError(entry.line);
        PendingPlain(trunc, block, prev, entry, updateScroll[i + 1..], prompts);
        block := block + [entry];
        if error {
          if prev.Some? {
            block := [prev.value] + block;
            prev := None;
          }
        }
      }
      i := i + 1;
    }
    assert updateScroll[i..] == [];
    r := trunc + block;
  }

  /** The non-prompt entries of a sequence, in order. */
  function NonPrompts(s: seq<Entry>, prompts: seq<string>): seq<Entry>
  {
    if s == [] then []
    else (if IsPrompt(s[0].line, prompts) then [] else [s[0]]) + NonPrompts(s[1..], prompts)
  }

  /** Filtering keeps every non-prompt entry, in its original order, and drops none. */
  lemma {:induction false} KeptNonPrompts(s: seq<Entry>, prompts: seq<string>)
    ensures NonPrompts(Kept(s, prompts), prompts) == NonPrompts(s, prompts)
    decreases |s|
  {
    if s != [] {
      KeptNonPrompts(s[1..], prompts);
      var k := Kept(s[1..], prompts);
      if IsPrompt(s[0].line, prompts) {
        assert NonPrompts(s, prompts) == NonPrompts(s[1..], prompts);
        if ErrorBeforePrompt(s[1..], prompts) {
          assert Kept(s, prompts) == [s[0]] + k;
          assert ([s[0]] + k)[0] == s[0];
          assert ([s[0]] + k)[1..] == k;
          assert NonPrompts([s[0]] + k, prompts) == NonPrompts(k, prompts);
        } else {
          assert Kept(s, prompts) == k;
        }
      } else {
        assert ([s[0]] + k)[1..] == k;
      }
    }
  }

  /** `a` is `b` with some entries left out. */
  predicate IsSubsequence(a: seq<Entry>, b: seq<Entry>)
    decreases |b|
  {
    if a == [] then true
    else if b == [] then false
    else if a[0] == b[0] then IsSubsequence(a[1..], b[1..])
    else IsSubsequence(a, b[1..])
  }

  /** Filtering only leaves entries out: it never reorders or repeats one. */
  lemma {:induction false} KeptSubsequence(s: seq<Entry>, prompts: seq<string>)
    ensures IsSubsequence(Kept(s, prompts), s)
    decreases |s|
  {
    if s != [] {
      KeptSubsequence(s[1..], prompts);
      var k := Kept(s[1..], prompts);
      if IsPrompt(s[0].line, prompts) && !ErrorBeforePrompt(s[1..], prompts) {
        assert Kept(s, prompts) == k;
        SubsequenceSkip(k, s);
      } else {
        assert Kept(s, prompts) == [s[0]] + k;
        assert ([s[0]] + k)[1..] == k;
      }
    }
  }

  /** Skipping the head of the longer sequence keeps a subsequence a subsequence. */
  lemma {:induction false} SubsequenceSkip(a: seq<Entry>, b: seq<Entry>)
    requires b != [] && IsSubsequence(a, b[1..])
    ensures IsSubsequence(a, b)
    decreases |b|, 0
  {
    if a != [] && a[0] == b[0] {
      SubsequenceTail(a, b[1..]);
    }
  }

  /** Dropping the head of a subsequence keeps it a subsequence. */
  lemma {:induction false} SubsequenceTail(a: seq<Entry>, b: seq<Entry>)
    requires a != [] && IsSubsequence(a, b)
    ensures IsSubsequence(a[1..], b)
    decreases |b|, 1
  {
    if b != [] {
      if a[0] == b[0] {
        if a[1..] != [] {
          SubsequenceSkip(a[1..], b);
        }
      } else {
        SubsequenceTail(a, b[1..]);
        SubsequenceSkip(a[1..], b);
      }
    }
  }

  /** Without any error report, every prompt entry is dropped. */
  lemma {:induction false} KeptWithoutErrors(s: seq<Entry>, prompts: seq<string>)
    requires forall i :: 0 <= i < |s| ==> !HasError(s[i].line)
    ensures Kept(s, prompts) == NonPrompts(s, prompts)
    decreases |s|
  {
    if s != [] {
      NoErrorBeforePrompt(s[1..], prompts);
      KeptWithoutErrors(s[1..], prompts);
    }
  }

  lemma {:induction false} NoErrorBeforePrompt(rest: seq<Entry>, prompts: seq<string>)
    requires forall i :: 0 <= i < |rest| ==> !HasError(rest[i].line)
    ensures !ErrorBeforePrompt(rest, prompts)
    decreases |rest|
  {
    if rest != [] {
      NoErrorBeforePrompt(rest[1..], prompts);
    }
  }

  /** A run of non-prompt entries passes through unchanged. */
  lemma {:induction false} KeptPlain(block: seq<Entry>, rest: seq<Entry>, prompts: seq<string>)
    requires forall i :: 0 <= i < |block| ==> !IsPrompt(block[i].line, prompts)
    ensures Kept(block + rest, prompts) == block + Kept(rest, prompts)
    decreases |block|
  {
    if block != [] {
      assert (block + rest)[1..] == block[1..] + rest;
      KeptPlain(block[1..], rest, prompts);
    } else {
      assert block + rest == rest;
    }
  }

  /** Some line of the run reports an error. */
  predicate BlockHasError(block: seq<Entry>) {
    exists i :: 0 <= i < |block| && HasError(block[i].line)
  }

  /** Before the next prompt, an error is reported exactly when some entry of the run does. */
  lemma {:induction false} ErrorInBlock(block: seq<Entry>, rest: seq<Entry>, prompts: seq<string>)
    requires forall i :: 0 <= i < |block| ==> !IsPrompt(block[i].line, prompts)
    requires rest == [] || IsPrompt(rest[0].line, prompts)
    ensures ErrorBeforePrompt(block + rest, prompts) == BlockHasError(block)
    decreases |block|
  {
    if block != [] {
      assert (block + rest)[1..] == block[1..] + rest;
      ErrorInBlock(block[1..], rest, prompts);
      if exists i :: 0 <= i < |block| && HasError(block[i].line) {
        var i :| 0 <= i < |block| && HasError(block[i].line);
        if i > 0 {
          assert HasError(block[1..][i - 1].line);
        }
      }
    } else {
      assert block + rest == rest;
    }
  }

  /** A prompt entry followed by its block of output is kept, just before that block, exactly
      when some line of the block reports an error. */
  lemma {:induction false} KeptPromptBlock(p: Entry, block: seq<Entry>, rest: seq<Entry>, prompts: seq<string>)
    requires IsPrompt(p.line, prompts)
    requires forall i :: 0 <= i < |block| ==> !IsPrompt(block[i].line, prompts)
    requires rest == [] || IsPrompt(rest[0].line, prompts)
    ensures Kept([p] + (block + rest), prompts)
      == (if BlockHasError(block) then [p] else []) + (block + Kept(rest, prompts))
  {
    KeptCons(p, block + rest, prompts);
    KeptPlain(block, rest, prompts);
    ErrorInBlock(block, rest, prompts);
  }
}

/**
 * Shell-line helpers of lineterm.py: the simplified `shell_quote` and
 * `prompt_offset`, which finds where a shell prompt ends on a screen row.
 */
module Shell {
  import opened Wrappers
  import opened Strings
  import opened Entries

  /** The characters `shell_quote` escapes. */
  predicate IsSpecial(c: char) {
    c == '\'' || c == ' ' || c == ';' || c == '&'
  }

  /** `shell_quote`: a backslash goes in front of each quote, space, semicolon and ampersand,
      one `replace` after another. */
  function ShellQuote(token: string): string {
    ReplaceChar(ReplaceChar(ReplaceChar(ReplaceChar(token, '\'', "\\'"), ' ', "\\ "), ';', "\\;"), '&', "\\&")
  }

  /** The quoting of one character on its own. */
  function EscapeChar(c: char): string {
    if IsSpecial(c) then ['\\', c] else [c]
  }

  /** Character-by-character quoting, the reference ShellQuote is measured against. */
  function Escaped(s: string): string {
    if s == [] then [] else EscapeChar(s[0]) + Escaped(s[1..])
  }

  function CountSpecial(s: string): nat {
    if s == [] then 0 else (if IsSpecial(s[0]) then 1 else 0) + CountSpecial(s[1..])
  }

  /** Drops a backslash that stands in front of a special character: the partner that undoes
      ShellQuote. */
  function Unescape(s: string): string {
    if |s| >= 2 && s[0] == '\\' && IsSpecial(s[1]) then [s[1]] + Unescape(s[2..])
    else if s == [] then []
    else [s[0]] + Unescape(s[1..])
  }

  lemma {:induction false} ReplaceCharAppend(a: string, b: string, c: char, rep: string)
    ensures ReplaceChar(a + b, c, rep) == ReplaceChar(a, c, rep) + ReplaceChar(b, c, rep)
    decreases |a|
  {
    if a == [] {
      assert a + b == b;
    } else {
      var h := if a[0] == c then rep else [a[0]];
      assert (a + b)[0] == a[0];
      assert (a + b)[1..] == a[1..] + b;
      ReplaceCharAppend(a[1..], b, c, rep);
      assert ReplaceChar(a + b, c, rep) == h + ReplaceChar(a[1..] + b, c, rep);
      assert ReplaceChar(a, c, rep) == h + ReplaceChar(a[1..], c, rep);
      assert h + (ReplaceChar(a[1..], c, rep) + ReplaceChar(b, c, rep))
          == (h + ReplaceChar(a[1..], c, rep)) + ReplaceChar(b, c, rep);
    }
  }

  lemma {:induction false} ShellQuoteAppend(a: string, b: string)
    ensures ShellQuote(a + b) == ShellQuote(a) + ShellQuote(b)
  {
    var a1, b1 := ReplaceChar(a, '\'', "\\'"), ReplaceChar(b, '\'', "\\'");
    ReplaceCharAppend(a, b, '\'', "\\'");
    var a2, b2 := ReplaceChar(a1, ' ', "\\ "), ReplaceChar(b1, ' ', "\\ ");
    ReplaceCharAppend(a1, b1, ' ', "\\ ");
    var a3, b3 := ReplaceChar(a2, ';', "\\;"), ReplaceChar(b2, ';', "\\;");
    ReplaceCharAppend(a2, b2, ';', "\\;");
    ReplaceCharAppend(a3, b3, '&', "\\&");
  }

  lemma {:induction false} ReplaceOne(x: char, c: char, rep: string)
    ensures ReplaceChar([x], c, rep) == if x == c then rep else [x]
  {
    assert [x][1..] == [];
  }

  lemma {:induction false} ShellQuoteChar(c: char)
    ensures ShellQuote([c]) == EscapeChar(c)
  {
    ReplaceOne(c, '\'', "\\'");
    var s1 := ReplaceChar([c], '\'', "\\'");
    if c == '\'' {
      ReplaceCharAbsent(s1, ' ', "\\ ");
      ReplaceCharAbsent(s1, ';', "\\;");
      ReplaceCharAbsent(s1, '&', "\\&");
    } else {
      ReplaceOne(c, ' ', "\\ ");
      var s2 := ReplaceChar(s1, ' ', "\\ ");
      if c == ' ' {
        ReplaceCharAbsent(s2, ';', "\\;");
        ReplaceCharAbsent(s2, '&', "\\&");
      } else {
        ReplaceOne(c, ';', "\\;");
        var s3 := ReplaceChar(s2, ';', "\\;");
        if c == ';' {
          ReplaceCharAbsent(s3, '&', "\\&");
        } else {
          ReplaceOne(c, '&', "\\&");
        }
      }
    }
  }

  /** The chained replacements quote each character independently: ShellQuote is Escaped. */
  lemma {:induction false} ShellQuoteEscapes(s: string)
    ensures ShellQuote(s) == Escaped(s)
    decreases |s|
  {
    if s != [] {
      assert s == [s[0]] + s[1..];
      ShellQuoteAppend([s[0]], s[1..]);
      ShellQuoteChar(s[0]);
      ShellQuoteEscapes(s[1..]);
    }
  }

  lemma {:induction false} EscapedLength(s: string)
    ensures |Escaped(s)| == |s| + CountSpecial(s)
    decreases |s|
  {
    if s != [] {
      EscapedLength(s[1..]);
    }
  }

  /** The quoted token is one character longer for every special character it holds. */
  lemma {:induction false} ShellQuoteLength(s: string)
    ensures |ShellQuote(s)| == |s| + CountSpecial(s)
  {
    ShellQuoteEscapes(s);
    EscapedLength(s);
  }

  lemma {:induction false} EscapedEscapes(s: string)
    ensures forall i :: 0 <= i < |Escaped(s)| && IsSpecial(Escaped(s)[i]) ==> i > 0 && Escaped(s)[i - 1] == '\\'
    ensures Escaped(s) != [] ==> !IsSpecial(Escaped(s)[0])
    decreases |s|
  {
    if s != [] {
      EscapedEscapes(s[1..]);
      var e, r := EscapeChar(s[0]), Escaped(s[1..]);
      assert Escaped(s) == e + r;
      forall i | 0 <= i < |e + r| && IsSpecial((e + r)[i]) ensures i > 0 && (e + r)[i - 1] == '\\' {
        if i >= |e| {
          assert (e + r)[i] == r[i - |e|];
          if i - |e| > 0 {
            assert (e + r)[i - 1] == r[i - |e| - 1];
          }
        }
      }
    }
  }

  /** Every special character in a quoted token has a backslash in front of it. */
  lemma {:induction false} ShellQuoteEscapesSpecials(s: string)
    ensures forall i :: 0 <= i < |ShellQuote(s)| && IsSpecial(ShellQuote(s)[i]) ==>
      i > 0 && ShellQuote(s)[i - 1] == '\\'
  {
    ShellQuoteEscapes(s);
    EscapedEscapes(s);
  }

  lemma {:induction false} UnescapeEscaped(s: string)
    ensures Unescape(Escaped(s)) == s
    decreases |s|
  {
    if s != [] {
      var r := Escaped(s[1..]);
      EscapedEscapes(s[1..]);
      UnescapeEscaped(s[1..]);
      if IsSpecial(s[0]) {
        assert Escaped(s) == ['\\', s[0]] + r;
        assert (['\\', s[0]] + r)[2..] == r;
      } else {
        assert Escaped(s) == [s[0]] + r;
        assert ([s[0]] + r)[1..] == r;
      }
    }
  }

  /** Quoting loses nothing: Unescape gives the token back, so different tokens quote differently. */
  lemma {:induction false} ShellQuoteRoundTrip(s: string)
    ensures Unescape(ShellQuote(s)) == s
  {
    ShellQuoteEscapes(s);
    UnescapeEscaped(s);
  }

  /** The row is taken to start with a prompt: its meta says it is the first row of a command,
      or it begins with the (non-empty) prompt prefix. */
  predicate AtPrompt(line: string, d: Delims, meta: Option<Meta>) {
    (meta.Some? && meta.value.continuation == 0) || (d.prefix != "" && StartsWith(line, d.prefix))
  }

  /** `prompt_offset`: the offset just past the first occurrence of the prompt suffix on a row
      that starts with a prompt, or zero. */
  function PromptOffset(line: string, pdelim: Option<Delims>, meta: Option<Meta>): (r: nat)
    ensures r <= |line|
    ensures pdelim.None? ==> r == 0
    ensures r != 0 ==>
      && pdelim.Some? && AtPrompt(line, pdelim.value, meta)
      && var suffix := pdelim.value.suffix;
      && OccursAt(line, suffix, r - |suffix|)
      && forall i :: 0 <= i < r - |suffix| ==> !OccursAt(line, suffix, i)
    ensures (pdelim.Some? && pdelim.value.suffix != "" && AtPrompt(line, pdelim.value, meta)
             && Contains(line, pdelim.value.suffix)) ==> r != 0
  {
    match pdelim
    case None => 0
    case Some(d) =>
      if AtPrompt(line, d, meta) then
        var e := Find(line, d.suffix, 0);
        if e >= 0 then e + |d.suffix| else 0
      else 0
  }
}

/**
 * The few Python string methods the terminal relies on (startswith, find,
 * partition, split, join, replace with a one-character pattern, ASCII
 * lower-casing), written out over `string` so that their behaviour is part
 * of the model rather than assumed.
 */
module Strings {

  /** `s.startswith(prefix)` */
  predicate StartsWith(s: string, prefix: string) {
    |prefix| <= |s| && s[..|prefix|] == prefix
  }

  /** `s.endswith(suffix)` */
  predicate EndsWith(s: string, suffix: string) {
    |suffix| <= |s| && s[|s| - |suffix|..] == suffix
  }

  /** `sub` occurs in `s` at index `i`. */
  predicate OccursAt(s: string, sub: string, i: int) {
    0 <= i && i + |sub| <= |s| && s[i..i + |sub|] == sub
  }

  /** `s.find(sub, start)`: the lowest index at or after `start` where `sub` occurs, or -1. */
  function Find(s: string, sub: string, start: nat): (r: int)
    ensures r == -1 || (start <= r && OccursAt(s, sub, r))
    ensures r == -1 ==> forall i :: start <= i ==> !OccursAt(s, sub, i)
    ensures r >= 0 ==> forall i :: start <= i < r ==> !OccursAt(s, sub, i)
    decreases |s| - start
  {
    if start + |sub| > |s| then -1
    else if s[start..start + |sub|] == sub then start
    else Find(s, sub, start + 1)
  }

  /** `sub in s` */
  predicate Contains(s: string, sub: string) {
    Find(s, sub, 0) >= 0
  }

  /** For a one-character pattern, `c in s` and `s.find(c) >= 0` agree. */
  lemma {:induction false} ContainsChar(s: string, c: char)
    ensures Contains(s, [c]) <==> c in s
  {
    if Contains(s, [c]) {
      var k := Find(s, [c], 0);
      assert s[k..k + 1][0] == s[k];
    }
    if c in s {
      var k :| 0 <= k < |s| && s[k] == c;
      assert s[k..k + 1] == [c];
      assert OccursAt(s, [c], k);
    }
  }

  lemma {:induction false} NoOccurrenceBefore(head: string, sep: string, body: string, i: nat)
    requires sep != [] && sep[0] !in head && i < |head|
    ensures !OccursAt(head + sep + body, sep, i)
  {
    var t := head + sep + body;
    assert t[i..i + |sep|][0] == head[i];
  }

  /** `find` of one character: a position found holds it, and it does not occur between the
      start and that position. */
  lemma {:induction false} FindChar(s: string, c: char, start: nat)
    ensures var j := Find(s, [c], start);
      j >= 0 ==> start <= j < |s| && s[j] == c && c !in s[start..j]
  {
    var j := Find(s, [c], start);
    if j >= 0 {
      assert s[j..j + 1] == [c];
      forall i | 0 <= i < j - start ensures s[start..j][i] != c {
        var n := start + i;
        assert !OccursAt(s, [c], n);
        assert s[n..n + 1] == [s[n]];
      }
    }
  }

  /** Conversely, a character standing at `m`, with none of it between the start and `m`, is
      found at `m`. */
  lemma {:induction false} FindCharAt(s: string, c: char, start: nat, m: nat)
    requires start <= m < |s| && s[m] == c && c !in s[start..m]
    ensures Find(s, [c], start) == m
  {
    assert s[m..m + 1] == [c];
    assert OccursAt(s, [c], m);
    forall i | start <= i < m ensures !OccursAt(s, [c], i) {
      assert s[start..m][i - start] == s[i];
      assert s[i..i + 1] == [s[i]];
    }
  }

  /** A separator whose first character does not occur before it is found where it stands. */
  lemma {:induction false} FindAfter(head: string, sep: string, body: string)
    requires sep != [] && sep[0] !in head
    ensures Find(head + sep + body, sep, 0) == |head|
  {
    var t := head + sep + body;
    assert OccursAt(t, sep, |head|) by {
      assert t[|head|..|head| + |sep|] == sep;
    }
    var f := Find(t, sep, 0);
    if f != |head| {
      assert 0 <= f < |head|;
      NoOccurrenceBefore(head, sep, body, f);
    }
  }

  /** `s.partition(sep)`: the text before the first `sep`, the separator found (or ""), the rest. */
  function Partition(s: string, sep: string): (r: (string, string, string))
    requires sep != ""
    ensures r.1 == "" <==> !Contains(s, sep)
    ensures r.1 != "" ==> r.1 == sep && r.0 + sep + r.2 == s && !Contains(r.0, sep)
    ensures r.1 == "" ==> r.0 == s && r.2 == ""
  {
    var i := Find(s, sep, 0);
    if i < 0 then (s, "", "")
    else
      var head := s[..i];
      assert s == head + sep + s[i + |sep|..] by {
        assert s[i..i + |sep|] == sep;
        assert s == s[..i] + s[i..i + |sep|] + s[i + |sep|..];
      }
      forall j | 0 <= j ensures !OccursAt(head, sep, j) {
        if OccursAt(head, sep, j) {
          assert head[j..j + |sep|] == s[j..j + |sep|];
          assert OccursAt(s, sep, j);
        }
      }
      (head, sep, s[i + |sep|..])
  }

  /** `sep.join(parts)` for a one-character separator. */
  function Join(parts: seq<string>, sep: char): string
  {
    if |parts| == 0 then ""
    else if |parts| == 1 then parts[0]
    else parts[0] + [sep] + Join(parts[1..], sep)
  }

  /** `s.split(sep)` for a one-character separator: the pieces between separators, at least one. */
  function Split(s: string, sep: char): (r: seq<string>)
    ensures |r| >= 1
    decreases |s|
  {
    if s == [] then [""]
    else
      var rest := Split(s[1..], sep);
      if s[0] == sep then [""] + rest
      else [[s[0]] + rest[0]] + rest[1..]
  }

  /** Joining the pieces of a split gives the text back. */
  lemma {:induction false} SplitJoin(s: string, sep: char)
    ensures Join(Split(s, sep), sep) == s
    decreases |s|
  {
    if s != [] {
      var rest := Split(s[1..], sep);
      SplitJoin(s[1..], sep);
      if s[0] == sep {
        assert ([""] + rest)[1..] == rest;
      } else {
        var parts := [[s[0]] + rest[0]] + rest[1..];
        if |rest| > 1 {
          assert parts[1..] == rest[1..];
          assert Join(rest, sep) == rest[0] + [sep] + Join(rest[1..], sep);
        }
      }
      assert s == [s[0]] + s[1..];
    }
  }

  /** No piece holds the separator; a text without it is its own single piece, and a text with
      it splits into more than one. */
  lemma {:induction false} SplitPieces(s: string, sep: char)
    ensures forall k :: 0 <= k < |Split(s, sep)| ==> sep !in Split(s, sep)[k]
    ensures sep !in s ==> Split(s, sep) == [s]
    ensures sep in s ==> |Split(s, sep)| > 1
    decreases |s|
  {
    if s != [] {
      SplitPieces(s[1..], sep);
      var rest := Split(s[1..], sep);
      if s[0] != sep {
        assert sep !in [s[0]] + rest[0];
        assert sep in s ==> sep in s[1..] by {
          if sep in s {
            var k :| 0 <= k < |s| && s[k] == sep;
            assert s[1..][k - 1] == sep;
          }
        }
        if sep !in s {
          assert s == [s[0]] + s[1..];
        }
      }
    }
  }

  /** A join of several pieces is the join of all but the last, the separator, and the last. */
  lemma {:induction false} JoinLast(parts: seq<string>, sep: char)
    requires |parts| >= 2
    ensures Join(parts, sep) == Join(parts[..|parts| - 1], sep) + [sep] + parts[|parts| - 1]
    decreases |parts|
  {
    if |parts| > 2 {
      JoinLast(parts[1..], sep);
      assert parts[1..][..|parts| - 2] == parts[..|parts| - 1][1..];
    }
  }

  /** Every character of every piece occurs in the join. */
  lemma {:induction false} JoinChars(parts: seq<string>, sep: char, k: nat, x: char)
    requires k < |parts| && x in parts[k]
    ensures x in Join(parts, sep)
    decreases |parts|
  {
    if k > 0 {
      JoinChars(parts[1..], sep, k - 1, x);
    }
  }

  /** `s.replace(c, rep)` for a one-character pattern `c`. */
  function ReplaceChar(s: string, c: char, rep: string): (r: string)
    ensures c !in rep ==> c !in r
    ensures forall x :: x in r ==> (x in s && x != c) || x in rep
    decreases |s|
  {
    if s == [] then []
    else (if s[0] == c then rep else [s[0]]) + ReplaceChar(s[1..], c, rep)
  }

  /** Replacing one character by another keeps every other position and the length. */
  lemma {:induction false} ReplaceCharAt(s: string, c: char, d: char)
    ensures |ReplaceChar(s, c, [d])| == |s|
    ensures forall i :: 0 <= i < |s| ==> ReplaceChar(s, c, [d])[i] == if s[i] == c then d else s[i]
    decreases |s|
  {
    if s != [] {
      ReplaceCharAt(s[1..], c, d);
    }
  }

  /** Replacing a character that does not occur changes nothing. */
  lemma {:induction false} ReplaceCharAbsent(s: string, c: char, rep: string)
    requires c !in s
    ensures ReplaceChar(s, c, rep) == s
    decreases |s|
  {
    if s != [] {
      ReplaceCharAbsent(s[1..], c, rep);
    }
  }

  /** Python 2 `str.lower()` on byte strings: only the letters A-Z change. */
  function LowerChar(c: char): char {
    if 'A' <= c <= 'Z' then (c as int + 32) as char else c
  }

  function AsciiLower(s: string): (r: string)
    ensures |r| == |s|
    ensures forall i :: 0 <= i < |s| ==> r[i] == LowerChar(s[i])
  {
    seq(|s|, i requires 0 <= i < |s| => LowerChar(s[i]))
  }
}

/**
 * Turning screen cells into text without control characters below space: `dump` and `uclean` of lineterm.py.
 *
 * A cell is a 32-bit value: the style byte (colours, bold, inverse) sits above
 * bit 24 and the character's code point in the low 24 bits.
 */
module Text {
  import opened Wrappers
  import opened Strings

  type Cell = bv32

  const NUL: char := 0 as char
  const DEL: char := 0x7F as char

  /** The code point mask `UNIMASK`. */
  const UniMask: bv32 := 0xFF_FFFF

  /** A code point Dafny (and `unichr`) can turn into a character. */
  predicate IsScalar(code: bv32) {
    code <= 0x10FFFF && !(0xD800 <= code <= 0xDFFF)
  }

  /** The code point held by a cell: `x & UNIMASK`, the low 24 bits. */
  function CodeOf(x: Cell): (code: bv32)
    ensures code <= UniMask
  {
    x & UniMask
  }

  function ToChar(code: bv32): (c: char)
    requires IsScalar(code)
    ensures c as int == code as int
  {
    (code as int) as char
  }

  /** A non-NUL, non-newline control code is shown as a space. */
  function Visible(code: bv32): bv32 {
    if code < 32 && code != 0 && code != 10 then 32 else code
  }

  /** `u"".join(map(unichr, codes))`: fails where `unichr` would raise. */
  function Chars(codes: seq<bv32>): (r: Option<string>)
    ensures r.Some? <==> forall i :: 0 <= i < |codes| ==> IsScalar(codes[i])
    ensures r.Some? ==> |r.value| == |codes|
    ensures r.Some? ==> forall i :: 0 <= i < |codes| ==> r.value[i] == ToChar(codes[i])
  {
    if codes == [] then Some("")
    else if !IsScalar(codes[0]) then None
    else
      match Chars(codes[1..])
      case None => None
      case Some(rest) => Some([ToChar(codes[0])] + rest)
  }

  /** `s.rstrip(u"\x00")` */
  function RStripNul(s: string): (r: string)
    ensures |r| <= |s| && r == s[..|r|]
    ensures forall i :: |r| <= i < |s| ==> s[i] == NUL
    ensures r == [] || r[|r| - 1] != NUL
  {
    if s == [] || s[|s| - 1] != NUL then s
    else RStripNul(s[..|s| - 1])
  }

  /** `uclean` without the encoding step: optionally trim trailing NULs, then NUL becomes a
      space and DEL a question mark. */
  function UClean(s: string, trim: bool): string
  {
    var t := if trim then RStripNul(s) else s;
    ReplaceChar(ReplaceChar(t, NUL, " "), DEL, "?")
  }

  /** How `uclean` shows one character. */
  function CleanChar(c: char): char {
    if c == NUL then ' ' else if c == DEL then '?' else c
  }

  /** The result holds neither NUL nor DEL, keeps the (trimmed) length, and shows each
      character through CleanChar; trimming drops exactly the trailing NULs. */
  lemma {:induction false} UCleanSpec(s: string, trim: bool)
    ensures NUL !in UClean(s, trim) && DEL !in UClean(s, trim)
    ensures |UClean(s, trim)| == if trim then |RStripNul(s)| else |s|
    ensures forall i :: 0 <= i < |UClean(s, trim)| ==> UClean(s, trim)[i] == CleanChar(s[i])
  {
    var t := if trim then RStripNul(s) else s;
    ReplaceCharAt(t, NUL, ' ');
    var u := ReplaceChar(t, NUL, " ");
    ReplaceCharAt(u, DEL, '?');
    assert NUL !in u;
    assert NUL !in UClean(s, trim) by {
      forall x | x in UClean(s, trim) ensures x != NUL { }
    }
  }

  /** The part of UCleanSpec about the length. */
  lemma {:induction false} UCleanLength(s: string, trim: bool)
    ensures |UClean(s, trim)| == if trim then |RStripNul(s)| else |s|
  {
    var t := if trim then RStripNul(s) else s;
    ReplaceCharAt(t, NUL, ' ');
    ReplaceCharAt(ReplaceChar(t, NUL, " "), DEL, '?');
  }

  /** `dump` (utf-8 build, result not encoded). */
  function Dump(data: seq<Cell>, trim: bool): Option<string>
  {
    match Chars(VisibleCodes(data))
    case None => None
    case Some(s) => Some(UClean(s, trim))
  }

  /** How `dump` shows one cell. */
  function Shown(x: Cell): char
    requires IsScalar(CodeOf(x))
  {
    ShownCode(CodeOf(x))
  }

  /** How `dump` shows one code point. */
  function ShownCode(code: bv32): char
    requires IsScalar(code)
  {
    if code == 0 then ' '
    else if code == 0x7F then '?'
    else if code < 32 && code != 10 then ' '
    else ToChar(code)
  }

  /** How many cells are left once the trailing NUL cells are dropped. */
  function TrimmedLength(data: seq<Cell>): (n: nat)
    ensures n <= |data|
    ensures forall i :: n <= i < |data| ==> CodeOf(data[i]) == 0
    ensures n == 0 || CodeOf(data[n - 1]) != 0
  {
    if data == [] || CodeOf(data[|data| - 1]) != 0 then |data|
    else TrimmedLength(data[..|data| - 1])
  }

  lemma {:induction false} RStripNulLength(s: string, data: seq<Cell>)
    requires |s| == |data|
    requires forall i :: 0 <= i < |s| ==> (s[i] == NUL <==> CodeOf(data[i]) == 0)
    ensures |RStripNul(s)| == TrimmedLength(data)
    decreases |s|
  {
    if s != [] && s[|s| - 1] == NUL {
      RStripNulLength(s[..|s| - 1], data[..|data| - 1]);
    }
  }

  /** The bit-vector comparisons `dump` makes agree with the same comparisons on integers. */
  lemma {:induction false} CodeInt(c: bv32)
    ensures (c < 32) == (c as int < 32) && (c == 0x7F) == (c as int == 0x7F) && (c == 0) == (c as int == 0)
  {
  }

  /** One code point shown through `unichr` and `uclean` is the code point shown by ShownCode. */
  lemma {:induction false} ShownCell(code: bv32)
    requires IsScalar(code)
    ensures IsScalar(Visible(code))
    ensures CleanChar(ToChar(Visible(code))) == ShownCode(code)
    ensures ShownCode(code) == '\n' || (' ' <= ShownCode(code) && ShownCode(code) != DEL)
  {
    CodeInt(code);
  }

  /** `dump` fails exactly when some cell does not hold a scalar value; otherwise it shows
      every cell through Shown, keeps the length (or the trimmed length), and the text holds
      only newlines and characters that are neither C0 controls nor DEL. */
  lemma {:induction false} DumpSpec(data: seq<Cell>, trim: bool)
    ensures Dump(data, trim).Some? <==> forall i :: 0 <= i < |data| ==> IsScalar(CodeOf(data[i]))
    ensures Dump(data, trim).Some? ==>
      var s := Dump(data, trim).value;
      && |s| == (if trim then TrimmedLength(data) else |data|)
      && (forall i :: 0 <= i < |s| ==> s[i] == Shown(data[i]))
      && (forall i :: 0 <= i < |s| ==> s[i] == '\n' || (' ' <= s[i] && s[i] != DEL))
  {
    var codes := VisibleCodes(data);
    forall i | 0 <= i < |data| ensures IsScalar(codes[i]) <==> IsScalar(CodeOf(data[i])) {
      if IsScalar(CodeOf(data[i])) { ShownCell(CodeOf(data[i])); }
    }
    match Chars(codes)
    case None =>
    case Some(t) =>
      assert Dump(data, trim) == Some(UClean(t, trim));
      NulsAgree(data, t);
      DumpLength(data, trim, t);
      DumpShown(data, trim, t);
  }

  /** The code points `dump` hands to `unichr`, control characters other than NUL and
      newline already shown as spaces. */
  function VisibleCodes(data: seq<Cell>): (codes: seq<bv32>)
    ensures |codes| == |data|
  {
    seq(|data|, i requires 0 <= i < |data| => Visible(CodeOf(data[i])))
  }

  /** A cell shows as NUL exactly when its code point is 0. */
  lemma {:induction false} NulCode(c: bv32)
    requires IsScalar(Visible(c))
    ensures ToChar(Visible(c)) == NUL <==> c == 0
  {
    CodeInt(c);
  }

  /** Text with a NUL exactly where the cells hold code point 0 keeps, once cleaned, the
      length of the cells, or their trimmed length. */
  lemma {:induction false} DumpLength(data: seq<Cell>, trim: bool, t: string)
    requires |t| == |data|
    requires forall i :: 0 <= i < |t| ==> (t[i] == NUL <==> CodeOf(data[i]) == 0)
    ensures |UClean(t, trim)| == (if trim then TrimmedLength(data) else |data|)
  {
    if trim {
      RStripNulLength(t, data);
      UCleanLength(t, true);
    } else {
      UCleanLength(t, false);
    }
  }

  /** The text `unichr` gives has a NUL exactly where the cell holds code point 0. */
  lemma {:induction false} NulsAgree(data: seq<Cell>, t: string)
    requires Chars(VisibleCodes(data)) == Some(t)
    ensures |t| == |data|
    ensures forall i :: 0 <= i < |t| ==> (t[i] == NUL <==> CodeOf(data[i]) == 0)
  {
    var codes := VisibleCodes(data);
    forall i | 0 <= i < |t| ensures t[i] == NUL <==> CodeOf(data[i]) == 0 {
      assert t[i] == ToChar(codes[i]);
      NulCode(CodeOf(data[i]));
    }
  }

  /** Each shown character is the cell shown through Shown, a newline or a character that is neither a C0 control nor DEL. */
  lemma {:induction false} DumpShown(data: seq<Cell>, trim: bool, t: string)
    requires Chars(VisibleCodes(data)) == Some(t)
    requires forall i :: 0 <= i < |data| ==> IsScalar(CodeOf(data[i]))
    ensures |UClean(t, trim)| <= |data|
    ensures forall i :: 0 <= i < |UClean(t, trim)| ==>
      UClean(t, trim)[i] == Shown(data[i]) && (UClean(t, trim)[i] == '\n' || (' ' <= UClean(t, trim)[i] && UClean(t, trim)[i] != DEL))
  {
    var codes := VisibleCodes(data);
    UCleanSpec(t, trim);
    var s := UClean(t, trim);
    forall i | 0 <= i < |s|
      ensures s[i] == Shown(data[i])
      ensures s[i] == '\n' || (' ' <= s[i] && s[i] != DEL)
    {
      assert s[i] == CleanChar(t[i]);
      assert t[i] == ToChar(codes[i]);
      ShownCell(CodeOf(data[i]));
    }
  }
}

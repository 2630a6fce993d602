/**
 * Control sequence parameters as lineterm.py reads them (section 5.4 of ECMA-48): the
 * numeric parameters of a CSI sequence, the default a handler gets when there are none, and
 * the scrolling margins `csi_r` derives from them.
 */
module Csi {
  import opened Wrappers
  import opened Strings

  predicate IsDigit(c: char) {
    '0' <= c <= '9'
  }

  /** `int(s)` for the pieces the CSI pattern lets through (digits only): fails on an empty
      piece. */
  function ToNat(s: string): (r: Option<nat>)
    ensures r.Some? <==> s != [] && forall i :: 0 <= i < |s| ==> IsDigit(s[i])
  {
    if s == [] || !IsDigit(s[|s| - 1]) then None
    else
      var digit := (s[|s| - 1] - '0') as nat;
      if |s| == 1 then Some(digit)
      else
        match ToNat(s[..|s| - 1])
        case None => None
        case Some(v) => Some(v * 10 + digit)
  }

  /** The decimal digits of `n`, most significant first. */
  function Digits(n: nat): (s: string)
    ensures s != [] && forall i :: 0 <= i < |s| ==> IsDigit(s[i])
  {
    var last := ['0' + (n % 10) as char];
    if n < 10 then last else Digits(n / 10) + last
  }

  /** Reading the parameter back from its decimal digits gives the parameter. */
  lemma {:induction false} ToNatDigits(n: nat)
    ensures ToNat(Digits(n)) == Some(n)
  {
    var s := Digits(n);
    if n >= 10 {
      ToNatDigits(n / 10);
      assert s[..|s| - 1] == Digits(n / 10);
    }
  }

  /** Every piece read as a number, in order; None where some piece is not one. */
  function ParseAll(pieces: seq<string>): (r: Option<seq<nat>>)
    ensures r.Some? <==> forall k :: 0 <= k < |pieces| ==> ToNat(pieces[k]).Some?
    ensures r.Some? ==> |r.value| == |pieces|
    ensures r.Some? ==> forall k :: 0 <= k < |pieces| ==> r.value[k] == ToNat(pieces[k]).value
  {
    if pieces == [] then Some([])
    else
      match ToNat(pieces[0])
      case None => None
      case Some(v) =>
        match ParseAll(pieces[1..])
        case None => None
        case Some(rest) => Some([v] + rest)
  }

  /** The parameter list a handler gets when the sequence brings none: erase in display and
      erase in line default to 0, the other handlers to 1, as `csi_seq` is set up. */
  function DefaultParamsAsWritten(final: char): seq<nat> {
    if final == 'J' || final == 'K' then [0] else [1]
  }

  /** As above, except that Select Graphic Rendition defaults to 0 (a reset), the default of
      section 8.3.117 of ECMA-48. */
  function DefaultParams(final: char): seq<nat> {
    if final == 'J' || final == 'K' || final == 'm' then [0] else [1]
  }

  /** `csi_dispatch`'s parameter list for parameter text `s`, with the given defaults. */
  function ParamsWith(s: string, default: seq<nat>): seq<nat> {
    match ParseAll(Split(s, ';'))
    case Some(l) => if l == [] then default else l
    case None => default
  }

  /** `csi_dispatch`'s parameter list, with the defaults of DefaultParams. */
  function Params(s: string, final: char): seq<nat> {
    ParamsWith(s, DefaultParams(final))
  }

  /** Every handler gets at least one parameter; a sequence without parameter text, or with an
      empty piece in it, gets the default; otherwise each piece is read as a number. */
  lemma {:induction false} ParamsSpec(s: string, final: char)
    ensures |Params(s, final)| >= 1
    ensures s == "" ==> Params(s, final) == DefaultParams(final)
    ensures (exists k :: 0 <= k < |Split(s, ';')| && Split(s, ';')[k] == "") ==> Params(s, final) == DefaultParams(final)
    ensures (forall k :: 0 <= k < |Split(s, ';')| ==> ToNat(Split(s, ';')[k]).Some?) ==>
      |Params(s, final)| == |Split(s, ';')| &&
      forall k :: 0 <= k < |Split(s, ';')| ==> Params(s, final)[k] == ToNat(Split(s, ';')[k]).value
  {
    assert Split("", ';') == [""];
  }

  /** A single number is passed on as the one parameter. */
  lemma {:induction false} ParamsOne(n: nat, final: char)
    ensures Params(Digits(n), final) == [n]
  {
    SplitPieces(Digits(n), ';');
    ToNatDigits(n);
  }

  /** A bare `ESC [ m` asks for bold under the table's default of 1. */
  lemma {:induction false} BareSgrAsWritten()
    ensures ParamsWith("", DefaultParamsAsWritten('m')) == [1]
  {
    assert Split("", ';') == [""];
  }

  /** With the corrected defaults a bare `ESC [ m` is a reset. */
  lemma {:induction false} BareSgr()
    ensures Params("", 'm') == [0]
  {
    assert Split("", ';') == [""];
  }

  function Min(a: int, b: int): int {
    if a < b then a else b
  }

  function Max(a: int, b: int): int {
    if a < b then b else a
  }

  /** `csi_r` as written: top and bottom margins (0-based) for a screen of `h` rows. */
  function RegionAsWritten(l: seq<nat>, h: nat): (int, int)
    requires |l| >= 1
  {
    var p := if |l| < 2 then [1, h] else l;
    var top := Min(h - 1, p[0] as int - 1);
    var bot := Min(h - 1, p[1] as int - 1);
    (top, Max(top, bot))
  }

  /** A top margin parameter of 0 puts the top of the scrolling region above the screen. */
  lemma {:induction false} RegionAsWrittenZero()
    ensures RegionAsWritten([0, 5], 25) == (-1, 4)
  {
  }

  /** `csi_r` with a margin parameter of 0 read as 1, the first row, so that the region
      always lies on the screen: top and bottom margins (0-based). */
  function Region(l: seq<nat>, h: nat): (r: (int, int))
    requires |l| >= 1
  {
    var p := if |l| < 2 then [1, h] else l;
    var top := Min(h - 1, Max(p[0], 1) - 1);
    var bot := Min(h - 1, Max(p[1], 1) - 1);
    (top, Max(top, bot))
  }

  /** The region is a non-empty band of the screen's rows; without two parameters it is the
      whole screen; margins given in order and on the screen are taken as they are; and it
      differs from the code as written only where the top parameter is 0. */
  lemma {:induction false} RegionSpec(l: seq<nat>, h: nat)
    requires |l| >= 1 && h >= 1
    ensures 0 <= Region(l, h).0 <= Region(l, h).1 <= h - 1
    ensures |l| < 2 ==> Region(l, h) == (0, h - 1)
    ensures |l| >= 2 && 1 <= l[0] <= l[1] <= h ==> Region(l, h) == (l[0] - 1, l[1] - 1)
    ensures (|l| < 2 || l[0] != 0) ==> Region(l, h) == RegionAsWritten(l, h)
  {
  }

  /** `min(limit, p) - 1`, the 0-based row or column `csi_G`, `csi_H` and `csi_d` take from a
      1-based parameter, as written. */
  function PositionAsWritten(p: nat, limit: nat): int {
    Min(limit, p) - 1
  }

  /** A parameter of 0 puts the cursor one place before the first column or row. */
  lemma {:induction false} PositionAsWrittenZero()
    ensures PositionAsWritten(0, 80) == -1
  {
  }

  /** The 0-based row or column for a 1-based parameter, with a parameter of 0 read as 1, as
      VT100-compatible terminals read it, clamped to the last one. */
  function Position(p: nat, limit: nat): int {
    Min(limit, Max(p, 1)) - 1
  }

  /** The position is on the screen; a parameter on the screen names its place 1-based; one
      past the screen's end gives the last place; and it differs from the code as written only
      for a parameter of 0. */
  lemma {:induction false} PositionSpec(p: nat, limit: nat)
    requires limit >= 1
    ensures 0 <= Position(p, limit) < limit
    ensures 1 <= p <= limit ==> Position(p, limit) == p - 1
    ensures p > limit ==> Position(p, limit) == limit - 1
    ensures p != 0 ==> Position(p, limit) == PositionAsWritten(p, limit)
  {
  }

  /** The row and column parameters `csi_H` uses: the first two parameters, or the home
      position (1, 1) when fewer than two are given. */
  function CupParams(l: seq<nat>): (r: (nat, nat))
    requires |l| >= 1
    ensures |l| >= 2 ==> r == (l[0], l[1])
    ensures |l| < 2 ==> r == (1, 1)
  {
    if |l| < 2 then (1, 1) else (l[0], l[1])
  }
}

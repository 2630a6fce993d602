/**
 * Select Graphic Rendition (section 8.3.117 of ECMA-48) as lineterm.py applies it: the
 * style byte of `current_nul`, the value every echoed character is or-ed with.
 *
 * Style byte layout (bits 24 to 31 of a cell): bits 24-26 hold the foreground colour,
 * bit 27 bold, bits 28-30 the background colour.
 */
module Sgr {
  import opened Text

  /** `fg_color` and `bg_color` as every ScreenBuf of the terminal is built with them. */
  const FgColor: bv32 := 0
  const BgColor: bv32 := 7

  /** `(bg_color << STYLE4) | fg_color` */
  const DefaultStyle: bv32 := (BgColor << 4) | FgColor
  /** `(fg_color << STYLE4) | bg_color` */
  const InverseStyle: bv32 := (FgColor << 4) | BgColor
  const BoldStyle: bv32 := 0x08

  /** `default_style << UNI24`: the style a reset restores. */
  const DefaultNul: Cell := DefaultStyle << 24

  lemma {:induction false} DefaultNulStyle()
    ensures StyleOnly(DefaultNul) && Fg(DefaultNul) == FgColor && Bg(DefaultNul) == BgColor && !Bold(DefaultNul)
  {
  }

  function Fg(nul: Cell): bv32 {
    (nul >> 24) & 7
  }

  function Bg(nul: Cell): bv32 {
    (nul >> 28) & 7
  }

  predicate Bold(nul: Cell) {
    nul & (BoldStyle << 24) != 0
  }

  /** A style value carries no code point: or-ing it with a code point keeps the code point. */
  predicate StyleOnly(nul: Cell) {
    nul & UniMask == 0
  }

  /** The parameters that reset the style: default, default foreground, default background,
      positive image. */
  predicate IsReset(p: nat) {
    p == 0 || p == 39 || p == 49 || p == 27
  }

  /** A parameter the handler acts on; every other one is ignored. */
  predicate Handled(p: nat) {
    IsReset(p) || p == 1 || p == 7 || 30 <= p <= 37 || 40 <= p <= 47
  }

  /** `nul | (bold_style << UNI24)` */
  function WithBold(nul: Cell): (r: Cell)
    ensures Bold(r) && Fg(r) == Fg(nul) && Bg(r) == Bg(nul)
    ensures r & UniMask == nul & UniMask
  {
    nul | (BoldStyle << 24)
  }

  /** `inverse_style << UNI24` */
  function InverseNul(): (r: Cell)
    ensures Fg(r) == BgColor && Bg(r) == FgColor && !Bold(r) && StyleOnly(r)
  {
    InverseStyle << 24
  }

  /** `(nul & 0xf8ffffff) | (c << UNI24)` */
  function WithFg(nul: Cell, c: bv32): (r: Cell)
    requires c < 8
    ensures Fg(r) == c && Bg(r) == Bg(nul) && (Bold(r) <==> Bold(nul))
    ensures r & UniMask == nul & UniMask
  {
    (nul & 0xf8ff_ffff) | (c << 24)
  }

  /** `(nul & 0x8fffffff) | (c << (UNI24 + STYLE4))` */
  function WithBg(nul: Cell, c: bv32): (r: Cell)
    requires c < 8
    ensures Bg(r) == c && Fg(r) == Fg(nul) && (Bold(r) <==> Bold(nul))
    ensures r & UniMask == nul & UniMask
  {
    (nul & 0x8fff_ffff) | (c << 28)
  }

  /** The colour number `p - base` of a colour parameter, as a bit field. */
  function Colour(p: nat, base: nat): (c: bv32)
    requires base <= p < base + 8
    ensures c < 8
  {
    (p - base) as bv32
  }

  /** One parameter of `csi_m`. */
  function SgrStep(nul: Cell, p: nat): (r: Cell)
    ensures !Handled(p) ==> r == nul
  {
    if IsReset(p) then DefaultNul
    else if p == 1 then WithBold(nul)
    else if p == 7 then InverseNul()
    else if 30 <= p <= 37 then WithFg(nul, Colour(p, 30))
    else if 40 <= p <= 47 then WithBg(nul, Colour(p, 40))
    else nul
  }

  /** No parameter puts anything into the code point bits of a style. */
  lemma {:induction false} SgrStepStyleOnly(nul: Cell, p: nat)
    requires StyleOnly(nul)
    ensures StyleOnly(SgrStep(nul, p))
  {
    if IsReset(p) {
      DefaultNulStyle();
    } else if p == 1 {
      KeepsCode(nul, WithBold(nul));
    } else if p == 7 {
      assert StyleOnly(InverseNul());
    } else if 30 <= p <= 37 {
      KeepsCode(nul, WithFg(nul, Colour(p, 30)));
    } else if 40 <= p <= 47 {
      KeepsCode(nul, WithBg(nul, Colour(p, 40)));
    } else {
      assert SgrStep(nul, p) == nul;
    }
  }

  lemma {:induction false} KeepsCode(nul: Cell, r: Cell)
    requires StyleOnly(nul) && r & UniMask == nul & UniMask
    ensures StyleOnly(r)
  {
  }

  /** A reset restores the default colours; bold sets the bold bit, inverse swaps the default
      colours, and neither keeps anything else. */
  lemma {:induction false} SgrStepModes(nul: Cell, p: nat)
    ensures IsReset(p) ==> SgrStep(nul, p) == DefaultNul && Fg(DefaultNul) == FgColor && Bg(DefaultNul) == BgColor
    ensures p == 1 ==> Bold(SgrStep(nul, p)) && Fg(SgrStep(nul, p)) == Fg(nul) && Bg(SgrStep(nul, p)) == Bg(nul)
    ensures p == 7 ==> Fg(SgrStep(nul, p)) == BgColor && Bg(SgrStep(nul, p)) == FgColor && !Bold(SgrStep(nul, p))
  {
    DefaultNulStyle();
  }

  /** A colour parameter sets its own colour field to its colour number and keeps the other
      field and the bold bit. */
  lemma {:induction false} SgrStepColours(nul: Cell, p: nat)
    ensures 30 <= p <= 37 ==>
      Fg(SgrStep(nul, p)) == Colour(p, 30) && Bg(SgrStep(nul, p)) == Bg(nul) && (Bold(SgrStep(nul, p)) <==> Bold(nul))
    ensures 40 <= p <= 47 ==>
      Bg(SgrStep(nul, p)) == Colour(p, 40) && Fg(SgrStep(nul, p)) == Fg(nul) && (Bold(SgrStep(nul, p)) <==> Bold(nul))
  {
  }

  /** `csi_m`: the parameters applied in order. */
  function SgrAll(nul: Cell, l: seq<nat>): Cell
  {
    if l == [] then nul else SgrStep(SgrAll(nul, l[..|l| - 1]), l[|l| - 1])
  }

  /** Applying a list of parameters is applying its two halves one after the other. */
  lemma {:induction false} SgrAllAppend(nul: Cell, a: seq<nat>, b: seq<nat>)
    ensures SgrAll(nul, a + b) == SgrAll(SgrAll(nul, a), b)
    decreases |b|
  {
    if b == [] {
      assert a + b == a;
    } else {
      var c := a + b;
      assert c[..|c| - 1] == a + b[..|b| - 1];
      assert c[|c| - 1] == b[|b| - 1];
      SgrAllAppend(nul, a, b[..|b| - 1]);
    }
  }

  /** No parameter list puts anything into the code point bits of a style. */
  lemma {:induction false} SgrAllStyleOnly(nul: Cell, l: seq<nat>)
    requires StyleOnly(nul)
    ensures StyleOnly(SgrAll(nul, l))
    decreases |l|
  {
    if l != [] {
      SgrAllStyleOnly(nul, l[..|l| - 1]);
      SgrStepStyleOnly(SgrAll(nul, l[..|l| - 1]), l[|l| - 1]);
    }
  }

  /** Only what follows the last reset matters: a list whose last reset is at `k` gives the
      style its tail gives the default style. */
  lemma {:induction false} SgrAllAfterReset(nul: Cell, l: seq<nat>, k: nat)
    requires k < |l| && IsReset(l[k])
    ensures SgrAll(nul, l) == SgrAll(DefaultNul, l[k + 1..])
  {
    assert l == l[..k + 1] + l[k + 1..];
    SgrAllAppend(nul, l[..k + 1], l[k + 1..]);
  }

  /** Foreground and background set by one parameter list are independent of the style the
      list started from. */
  lemma {:induction false} ColoursOverride(nul: Cell, fg: nat, bg: nat)
    requires 30 <= fg <= 37 && 40 <= bg <= 47
    ensures Fg(SgrAll(nul, [fg, bg])) == Colour(fg, 30)
    ensures Bg(SgrAll(nul, [fg, bg])) == Colour(bg, 40)
  {
    var l := [fg, bg];
    assert l[..1] == [fg] && l[..1][..0] == [];
    SgrStepColours(nul, fg);
    SgrStepColours(SgrStep(nul, fg), bg);
  }
}

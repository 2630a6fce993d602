/**
 * The UTF-8 accumulator of `Terminal.echo`: bytes from the pty are collected until a
 * multi-byte sequence is complete, then decoded to one code point (section 3 of RFC 3629).
 */
module Utf8 {
  import opened Wrappers
  import opened Text

  /** U+FFFD, what the decoder's "replace" error handler puts in place of a bad sequence. */
  const Replacement: bv32 := 0xFFFD

  /** A continuation byte `10xxxxxx`. */
  predicate IsCont(b: bv8) {
    b & 0xC0 == 0x80
  }

  /** The sequence length a lead byte `11xxxxxx` announces, as `echo` reads its bits; zero for
      a byte announcing five or more. */
  function LeadLength(b: bv8): (n: nat)
    ensures n == 0 || 2 <= n <= 4
  {
    if b & 0x20 == 0 then 2
    else if b & 0x10 == 0 then 3
    else if b & 0x08 == 0 then 4
    else 0
  }

  function Bits(b: bv8, mask: bv32): bv32 {
    (b as bv32) & mask
  }

  /** The value bits of a two-, three- or four-byte sequence: the low bits of the lead byte
      followed by six bits from each continuation byte. */
  function Value(s: seq<bv8>): bv32
    requires 2 <= |s| <= 4
  {
    if |s| == 2 then (Bits(s[0], 0x1F) << 6) | Bits(s[1], 0x3F)
    else if |s| == 3 then (Bits(s[0], 0x0F) << 12) | (Bits(s[1], 0x3F) << 6) | Bits(s[2], 0x3F)
    else (Bits(s[0], 0x07) << 18) | (Bits(s[1], 0x3F) << 12) | (Bits(s[2], 0x3F) << 6) | Bits(s[3], 0x3F)
  }

  /** The lead byte announces the sequence's length and every other byte continues it. */
  predicate Shaped(s: seq<bv8>)
    requires 2 <= |s| <= 4
  {
    && (if |s| == 2 then s[0] & 0xE0 == 0xC0 else if |s| == 3 then s[0] & 0xF0 == 0xE0 else s[0] & 0xF8 == 0xF0)
    && forall i :: 1 <= i < |s| ==> IsCont(s[i])
  }

  /** The least value a sequence of this length may encode: anything below has a shorter form. */
  function MinValue(n: nat): bv32
    requires 2 <= n <= 4
  {
    if n == 2 then 0x80 else if n == 3 then 0x800 else 0x1_0000
  }

  /** The code point a well-formed sequence of one to four bytes encodes (section 3 of
      RFC 3629), None for anything else: a bad lead or continuation byte, an overlong form,
      a surrogate, or a value above U+10FFFF. */
  function Decode(s: seq<bv8>): (r: Option<bv32>)
    ensures r.Some? ==> IsScalar(r.value)
  {
    if |s| == 1 then
      if s[0] < 0x80 then Some(s[0] as bv32) else None
    else if 2 <= |s| <= 4 && Shaped(s) && MinValue(|s|) <= Value(s) && IsScalar(Value(s)) then
      Some(Value(s))
    else None
  }

  function Byte(x: bv32): bv8
    requires x < 0x100
  {
    x as bv8
  }

  /** `10xxxxxx` carrying the low six bits of `x`. */
  function ContByte(x: bv32): (b: bv8)
    ensures IsCont(b) && Bits(b, 0x3F) == x & 0x3F
  {
    Byte(0x80 | (x & 0x3F))
  }

  /** The lead byte of an encoding of `n` bytes: its tag bits, then the bits of `c` above the
      `6 * (n - 1)` carried by the continuation bytes. */
  function Lead2(c: bv32): (b: bv8)
    requires c < 0x800
    ensures b & 0xE0 == 0xC0 && Bits(b, 0x1F) == c >> 6
  {
    Byte(0xC0 | (c >> 6))
  }

  function Lead3(c: bv32): (b: bv8)
    requires c < 0x1_0000
    ensures b & 0xF0 == 0xE0 && Bits(b, 0x0F) == c >> 12
  {
    Byte(0xE0 | (c >> 12))
  }

  function Lead4(c: bv32): (b: bv8)
    requires c < 0x20_0000
    ensures b & 0xF8 == 0xF0 && Bits(b, 0x07) == c >> 18
  {
    Byte(0xF0 | (c >> 18))
  }

  /** The UTF-8 encoding of a scalar value: the shortest form. */
  function Encode(c: bv32): (s: seq<bv8>)
    requires IsScalar(c)
    ensures 1 <= |s| <= 4
  {
    if c < 0x80 then [Byte(c)]
    else if c < 0x800 then [Lead2(c), ContByte(c)]
    else if c < 0x1_0000 then [Lead3(c), ContByte(c >> 6), ContByte(c)]
    else [Lead4(c), ContByte(c >> 12), ContByte(c >> 6), ContByte(c)]
  }

  /** A well-shaped sequence whose value is a scalar value at least as large as its length
      requires decodes to that value. */
  lemma {:induction false} DecodeShaped(s: seq<bv8>, c: bv32)
    requires 2 <= |s| <= 4 && Shaped(s) && Value(s) == c && MinValue(|s|) <= c && IsScalar(c)
    ensures Decode(s) == Some(c)
  {
  }

  lemma {:induction false} DecodeEncode1(c: bv32)
    requires IsScalar(c) && c < 0x80
    ensures Decode(Encode(c)) == Some(c)
  {
  }

  lemma {:induction false} Join2(c: bv32)
    requires c < 0x800
    ensures ((c >> 6) << 6) | (c & 0x3F) == c
  {
  }

  lemma {:induction false} Encoded2(c: bv32)
    requires IsScalar(c) && 0x80 <= c < 0x800
    ensures Encode(c) == [Lead2(c), ContByte(c)]
  {
  }

  lemma {:induction false} Bytes2(b0: bv8, b1: bv8)
    ensures Value([b0, b1]) == (Bits(b0, 0x1F) << 6) | Bits(b1, 0x3F)
  {
  }

  lemma {:induction false} Value2(c: bv32)
    requires c < 0x800
    ensures Value([Lead2(c), ContByte(c)]) == c
  {
    Bytes2(Lead2(c), ContByte(c));
    Join2(c);
  }

  lemma {:induction false} Shaped2(c: bv32)
    requires c < 0x800
    ensures Shaped([Lead2(c), ContByte(c)])
  {
  }

  lemma {:induction false} DecodeEncode2(c: bv32)
    requires IsScalar(c) && 0x80 <= c < 0x800
    ensures Decode(Encode(c)) == Some(c)
  {
    Encoded2(c);
    Value2(c);
    Shaped2(c);
    DecodeShaped(Encode(c), c);
  }

  lemma {:induction false} Join3(c: bv32)
    requires c < 0x1_0000
    ensures ((c >> 12) << 12) | (((c >> 6) & 0x3F) << 6) | (c & 0x3F) == c
  {
  }

  lemma {:induction false} Encoded3(c: bv32)
    requires IsScalar(c) && 0x800 <= c < 0x1_0000
    ensures Encode(c) == [Lead3(c), ContByte(c >> 6), ContByte(c)]
  {
  }

  lemma {:induction false} Bytes3(b0: bv8, b1: bv8, b2: bv8)
    ensures Value([b0, b1, b2]) == (Bits(b0, 0x0F) << 12) | (Bits(b1, 0x3F) << 6) | Bits(b2, 0x3F)
  {
  }

  lemma {:induction false} Value3(c: bv32)
    requires c < 0x1_0000
    ensures Value([Lead3(c), ContByte(c >> 6), ContByte(c)]) == c
  {
    Bytes3(Lead3(c), ContByte(c >> 6), ContByte(c));
    Join3(c);
  }

  lemma {:induction false} Shaped3(c: bv32)
    requires c < 0x1_0000
    ensures Shaped([Lead3(c), ContByte(c >> 6), ContByte(c)])
  {
  }

  lemma {:induction false} DecodeEncode3(c: bv32)
    requires IsScalar(c) && 0x800 <= c < 0x1_0000
    ensures Decode(Encode(c)) == Some(c)
  {
    Encoded3(c);
    Value3(c);
    Shaped3(c);
    DecodeShaped(Encode(c), c);
  }

  lemma {:induction false} Join4(c: bv32)
    requires c < 0x20_0000
    ensures ((c >> 18) << 18) | (((c >> 12) & 0x3F) << 12) | (((c >> 6) & 0x3F) << 6) | (c & 0x3F) == c
  {
  }

  lemma {:induction false} Encoded4(c: bv32)
    requires IsScalar(c) && 0x1_0000 <= c
    ensures Encode(c) == [Lead4(c), ContByte(c >> 12), ContByte(c >> 6), ContByte(c)]
  {
  }

  lemma {:induction false} Bytes4(b0: bv8, b1: bv8, b2: bv8, b3: bv8)
    ensures Value([b0, b1, b2, b3]) == (Bits(b0, 0x07) << 18) | (Bits(b1, 0x3F) << 12) | (Bits(b2, 0x3F) << 6) | Bits(b3, 0x3F)
  {
  }

  lemma {:induction false} Value4(c: bv32)
    requires c < 0x20_0000
    ensures Value([Lead4(c), ContByte(c >> 12), ContByte(c >> 6), ContByte(c)]) == c
  {
    Bytes4(Lead4(c), ContByte(c >> 12), ContByte(c >> 6), ContByte(c));
    Join4(c);
  }

  lemma {:induction false} Shaped4(c: bv32)
    requires c < 0x20_0000
    ensures Shaped([Lead4(c), ContByte(c >> 12), ContByte(c >> 6), ContByte(c)])
  {
  }

  lemma {:induction false} DecodeEncode4(c: bv32)
    requires IsScalar(c) && 0x1_0000 <= c
    ensures Decode(Encode(c)) == Some(c)
  {
    Encoded4(c);
    Value4(c);
    Shaped4(c);
    DecodeShaped(Encode(c), c);
  }

  /** Every scalar value decodes from its encoding. */
  lemma {:induction false} DecodeEncode(c: bv32)
    requires IsScalar(c)
    ensures Decode(Encode(c)) == Some(c)
  {
    if c < 0x80 { DecodeEncode1(c); }
    else if c < 0x800 { DecodeEncode2(c); }
    else if c < 0x1_0000 { DecodeEncode3(c); }
    else { DecodeEncode4(c); }
  }

  lemma {:induction false} ContOf(b: bv8, x: bv32)
    requires IsCont(b) && x & 0x3F == Bits(b, 0x3F)
    ensures ContByte(x) == b
  {
  }

  lemma {:induction false} Split2(x0: bv32, x1: bv32)
    requires x0 < 0x20 && x1 < 0x40
    ensures var v := (x0 << 6) | x1; v >> 6 == x0 && v & 0x3F == x1 && v < 0x800
  {
  }

  lemma {:induction false} Split3(x0: bv32, x1: bv32, x2: bv32)
    requires x0 < 0x10 && x1 < 0x40 && x2 < 0x40
    ensures var v := (x0 << 12) | (x1 << 6) | x2; v >> 12 == x0 && (v >> 6) & 0x3F == x1 && v & 0x3F == x2 && v < 0x1_0000
  {
  }

  lemma {:induction false} Split4(x0: bv32, x1: bv32, x2: bv32, x3: bv32)
    requires x0 < 0x08 && x1 < 0x40 && x2 < 0x40 && x3 < 0x40
    ensures var v := (x0 << 18) | (x1 << 12) | (x2 << 6) | x3;
      v >> 18 == x0 && (v >> 12) & 0x3F == x1 && (v >> 6) & 0x3F == x2 && v & 0x3F == x3 && v < 0x20_0000
  {
  }

  lemma {:induction false} Lead2Of(b: bv8, c: bv32)
    requires b & 0xE0 == 0xC0 && c < 0x800 && c >> 6 == Bits(b, 0x1F)
    ensures Lead2(c) == b
  {
  }

  lemma {:induction false} Lead3Of(b: bv8, c: bv32)
    requires b & 0xF0 == 0xE0 && c < 0x1_0000 && c >> 12 == Bits(b, 0x0F)
    ensures Lead3(c) == b
  {
  }

  lemma {:induction false} Lead4Of(b: bv8, c: bv32)
    requires b & 0xF8 == 0xF0 && c < 0x20_0000 && c >> 18 == Bits(b, 0x07)
    ensures Lead4(c) == b
  {
  }

  lemma {:induction false} Fields2(b0: bv8, b1: bv8)
    ensures var v := Value([b0, b1]); v >> 6 == Bits(b0, 0x1F) && v & 0x3F == Bits(b1, 0x3F) && v < 0x800
  {
    Bytes2(b0, b1);
    Split2(Bits(b0, 0x1F), Bits(b1, 0x3F));
  }

  lemma {:induction false} Fields3(b0: bv8, b1: bv8, b2: bv8)
    ensures var v := Value([b0, b1, b2]);
      v >> 12 == Bits(b0, 0x0F) && (v >> 6) & 0x3F == Bits(b1, 0x3F) && v & 0x3F == Bits(b2, 0x3F) && v < 0x1_0000
  {
    Bytes3(b0, b1, b2);
    Split3(Bits(b0, 0x0F), Bits(b1, 0x3F), Bits(b2, 0x3F));
  }

  lemma {:induction false} Fields4(b0: bv8, b1: bv8, b2: bv8, b3: bv8)
    ensures var v := Value([b0, b1, b2, b3]);
      && v >> 18 == Bits(b0, 0x07) && (v >> 12) & 0x3F == Bits(b1, 0x3F) && (v >> 6) & 0x3F == Bits(b2, 0x3F)
      && v & 0x3F == Bits(b3, 0x3F) && v < 0x20_0000
  {
    Bytes4(b0, b1, b2, b3);
    Split4(Bits(b0, 0x07), Bits(b1, 0x3F), Bits(b2, 0x3F), Bits(b3, 0x3F));
  }

  lemma {:induction false} EncodeDecode2(b0: bv8, b1: bv8)
    requires Shaped([b0, b1]) && 0x80 <= Value([b0, b1]) && IsScalar(Value([b0, b1]))
    ensures Encode(Value([b0, b1])) == [b0, b1]
  {
    var v := Value([b0, b1]);
    assert IsCont([b0, b1][1]);
    Fields2(b0, b1);
    Encoded2(v);
    Lead2Of(b0, v);
    ContOf(b1, v);
  }

  lemma {:induction false} EncodeDecode3(b0: bv8, b1: bv8, b2: bv8)
    requires Shaped([b0, b1, b2]) && 0x800 <= Value([b0, b1, b2]) && IsScalar(Value([b0, b1, b2]))
    ensures Encode(Value([b0, b1, b2])) == [b0, b1, b2]
  {
    var v := Value([b0, b1, b2]);
    assert IsCont([b0, b1, b2][1]) && IsCont([b0, b1, b2][2]);
    assert Lead3(v) == b0 by {
      Fields3(b0, b1, b2);
      Lead3Of(b0, v);
    }
    assert ContByte(v >> 6) == b1 by {
      Fields3(b0, b1, b2);
      ContOf(b1, v >> 6);
    }
    assert ContByte(v) == b2 by {
      Fields3(b0, b1, b2);
      ContOf(b2, v);
    }
    Encoded3(v);
  }

  lemma {:induction false} EncodeDecode4(b0: bv8, b1: bv8, b2: bv8, b3: bv8)
    requires Shaped([b0, b1, b2, b3]) && 0x1_0000 <= Value([b0, b1, b2, b3]) && IsScalar(Value([b0, b1, b2, b3]))
    ensures Encode(Value([b0, b1, b2, b3])) == [b0, b1, b2, b3]
  {
    var v := Value([b0, b1, b2, b3]);
    var s := [b0, b1, b2, b3];
    assert IsCont(s[1]) && IsCont(s[2]) && IsCont(s[3]);
    assert Lead4(v) == b0 by {
      Fields4(b0, b1, b2, b3);
      Lead4Of(b0, v);
    }
    assert ContByte(v >> 12) == b1 by {
      Fields4(b0, b1, b2, b3);
      ContOf(b1, v >> 12);
    }
    assert ContByte(v >> 6) == b2 by {
      Fields4(b0, b1, b2, b3);
      ContOf(b2, v >> 6);
    }
    assert ContByte(v) == b3 by {
      Fields4(b0, b1, b2, b3);
      ContOf(b3, v);
    }
    Encoded4(v);
  }

  /** Only the shortest form decodes: a sequence that decodes is the encoding of its value. */
  lemma {:induction false} EncodeDecode(s: seq<bv8>)
    requires Decode(s).Some?
    ensures Encode(Decode(s).value) == s
  {
    if |s| == 1 {
      assert s == [s[0]];
    } else if |s| == 2 {
      assert s == [s[0], s[1]];
      EncodeDecode2(s[0], s[1]);
    } else if |s| == 3 {
      assert s == [s[0], s[1], s[2]];
      EncodeDecode3(s[0], s[1], s[2]);
    } else {
      assert s == [s[0], s[1], s[2], s[3]];
      EncodeDecode4(s[0], s[1], s[2], s[3]);
    }
  }

  /** `echobuf` and `echobuf_count`: the bytes of an unfinished multi-byte sequence and the
      length its lead byte announced. */
  datatype Accum = Accum(buf: seq<bv8>, count: nat)

  const Idle := Accum([], 0)

  predicate IsLead(b: bv8) {
    b & 0xC0 == 0xC0
  }

  /** What the accumulator can hold: nothing, or a lead byte and fewer continuation bytes
      than it announced. */
  predicate WellFormed(st: Accum) {
    st.buf == [] || (
      && 1 <= |st.buf| < st.count
      && IsLead(st.buf[0]) && LeadLength(st.buf[0]) == st.count
      && forall i :: 1 <= i < |st.buf| ==> IsCont(st.buf[i]))
  }

  /** `echobuf.decode("utf-8", "replace")` for a complete sequence, taken as one code point:
      the value it encodes, or U+FFFD. */
  function DecodeOrReplace(s: seq<bv8>): (c: bv32)
    ensures IsScalar(c)
  {
    match Decode(s)
    case Some(c) => c
    case None => Replacement
  }

  /** One byte through `echo`: the new accumulator and the code point to write, if any. */
  function Step(st: Accum, b: bv8): (r: (Accum, Option<bv32>))
    ensures WellFormed(st) ==> WellFormed(r.0)
    ensures r.1.Some? ==> IsScalar(r.1.value)
    // an ASCII byte is written as it is and leaves an unfinished sequence where it was
    ensures b < 0x80 ==> r == (st, Some(b as bv32))
    // a lead byte starts a new sequence, whatever was pending, and writes nothing
    ensures IsLead(b) ==> r.1 == None && r.0 == (if LeadLength(b) == 0 then Idle else Accum([b], LeadLength(b)))
    // a continuation byte with nothing pending is dropped
    ensures IsCont(b) && st.buf == [] ==> r == (st, None)
  {
    if b & 0x80 != 0 then
      if b & 0x40 != 0 then
        // a lead byte
        var n := LeadLength(b);
        (if n == 0 then Idle else Accum([b], n), None)
      else if st.buf == [] then (st, None)
      else
        var buf := st.buf + [b];
        if |buf| < st.count then (Accum(buf, st.count), None)
        else (Idle, Some(DecodeOrReplace(buf)))
    else (st, Some(b as bv32))
  }

  function Emitted(o: Option<bv32>): seq<bv32> {
    if o.Some? then [o.value] else []
  }

  /** A run of bytes through `echo`: the final accumulator and the code points written. */
  function Feed(st: Accum, bs: seq<bv8>): (Accum, seq<bv32>)
    decreases |bs|
  {
    if bs == [] then (st, [])
    else
      var first := Step(st, bs[0]);
      var rest := Feed(first.0, bs[1..]);
      (rest.0, Emitted(first.1) + rest.1)
  }

  lemma {:induction false} FeedAppend(st: Accum, a: seq<bv8>, b: seq<bv8>)
    ensures Feed(st, a + b) == (Feed(Feed(st, a).0, b).0, Feed(st, a).1 + Feed(Feed(st, a).0, b).1)
    decreases |a|
  {
    if a == [] {
      assert a + b == b;
      assert Feed(st, a).1 + Feed(st, b).1 == Feed(st, b).1;
    } else {
      assert (a + b)[0] == a[0];
      assert (a + b)[1..] == a[1..] + b;
      var first := Step(st, a[0]);
      FeedAppend(first.0, a[1..], b);
      var mid := Feed(first.0, a[1..]);
      var last := Feed(mid.0, b);
      assert Emitted(first.1) + (mid.1 + last.1) == (Emitted(first.1) + mid.1) + last.1;
    }
  }

  lemma {:induction false} LeadOf2(c: bv32)
    requires c < 0x800
    ensures IsLead(Lead2(c)) && LeadLength(Lead2(c)) == 2
  {
  }

  lemma {:induction false} LeadOf3(c: bv32)
    requires c < 0x1_0000
    ensures IsLead(Lead3(c)) && LeadLength(Lead3(c)) == 3
  {
  }

  lemma {:induction false} LeadOf4(c: bv32)
    requires c < 0x20_0000
    ensures IsLead(Lead4(c)) && LeadLength(Lead4(c)) == 4
  {
  }

  lemma {:induction false} ContIsNotLead(b: bv8)
    requires IsCont(b)
    ensures b & 0x80 != 0 && b & 0x40 == 0
  {
  }

  lemma {:induction false} FeedOne(st: Accum, b: bv8)
    ensures Feed(st, [b]) == (Step(st, b).0, Emitted(Step(st, b).1))
  {
    assert [b][1..] == [];
    assert Emitted(Step(st, b).1) + [] == Emitted(Step(st, b).1);
  }

  /** Two steps of `Feed` at once. */
  lemma {:induction false} FeedPair(st: Accum, b0: bv8, b1: bv8)
    ensures Feed(st, [b0, b1]) == (Step(Step(st, b0).0, b1).0, Emitted(Step(st, b0).1) + Emitted(Step(Step(st, b0).0, b1).1))
  {
    assert [b0, b1][1..] == [b1];
    FeedOne(Step(st, b0).0, b1);
  }

  /** The encoding of one character, fed from any state the accumulator can be in, writes
      that character and nothing else; a multi-byte one leaves the accumulator empty. */
  lemma {:induction false} FeedEncoded2(st: Accum, c: bv32)
    requires IsScalar(c) && 0x80 <= c < 0x800
    ensures Feed(st, Encode(c)) == (Idle, [c])
  {
    DecodeEncode(c);
    var s := Encode(c);
    Encoded2(c);
    LeadOf2(c);
    ContIsNotLead(ContByte(c));
    var st1 := Accum([s[0]], 2);
    assert Step(st, s[0]) == (st1, None);
    assert st1.buf + [s[1]] == s;
    assert Step(st1, s[1]) == (Idle, Some(c));
    FeedPair(st, s[0], s[1]);
    assert s == [s[0], s[1]];
    assert Emitted(None) + Emitted(Some(c)) == [c];
  }

  lemma {:induction false} FeedEncoded3(st: Accum, c: bv32)
    requires IsScalar(c) && 0x800 <= c < 0x1_0000
    ensures Feed(st, Encode(c)) == (Idle, [c])
  {
    DecodeEncode(c);
    var s := Encode(c);
    Encoded3(c);
    LeadOf3(c);
    ContIsNotLead(ContByte(c >> 6));
    ContIsNotLead(ContByte(c));
    var st1 := Accum([s[0]], 3);
    var st2 := Accum([s[0], s[1]], 3);
    assert Step(st, s[0]) == (st1, None);
    assert st1.buf + [s[1]] == st2.buf;
    assert Step(st1, s[1]) == (st2, None);
    assert st2.buf + [s[2]] == s;
    assert Step(st2, s[2]) == (Idle, Some(c));
    FeedPair(st, s[0], s[1]);
    assert Emitted(None) + Emitted(None) == [];
    assert Feed(st, [s[0], s[1]]) == (st2, []);
    FeedOne(st2, s[2]);
    assert s == [s[0], s[1]] + [s[2]];
    FeedAppend(st, [s[0], s[1]], [s[2]]);
    assert [] + [c] == [c];
  }

  lemma {:induction false} FeedEncoded4(st: Accum, c: bv32)
    requires IsScalar(c) && 0x1_0000 <= c
    ensures Feed(st, Encode(c)) == (Idle, [c])
  {
    DecodeEncode(c);
    var s := Encode(c);
    Encoded4(c);
    LeadOf4(c);
    ContIsNotLead(ContByte(c >> 12));
    ContIsNotLead(ContByte(c >> 6));
    ContIsNotLead(ContByte(c));
    var st1 := Accum([s[0]], 4);
    var st2 := Accum([s[0], s[1]], 4);
    var st3 := Accum([s[0], s[1], s[2]], 4);
    assert Step(st, s[0]) == (st1, None);
    assert st1.buf + [s[1]] == st2.buf;
    assert Step(st1, s[1]) == (st2, None);
    assert st2.buf + [s[2]] == st3.buf;
    assert Step(st2, s[2]) == (st3, None);
    assert st3.buf + [s[3]] == s;
    assert Step(st3, s[3]) == (Idle, Some(c));
    FeedPair(st, s[0], s[1]);
    assert Emitted(None) + Emitted(None) == [];
    assert Feed(st, [s[0], s[1]]) == (st2, []);
    FeedPair(st2, s[2], s[3]);
    assert Emitted(None) + Emitted(Some(c)) == [c];
    assert Feed(st2, [s[2], s[3]]) == (Idle, [c]);
    assert s == [s[0], s[1]] + [s[2], s[3]];
    FeedAppend(st, [s[0], s[1]], [s[2], s[3]]);
    assert [] + [c] == [c];
  }

  /** The encoding of one character, fed from any state, writes that character and nothing
      else; a multi-byte one leaves the accumulator empty, a one-byte one leaves it as it was. */
  lemma {:induction false} FeedEncoded(st: Accum, c: bv32)
    requires IsScalar(c)
    ensures Feed(st, Encode(c)) == (if c < 0x80 then st else Idle, [c])
  {
    if c < 0x80 {
      var s := Encode(c);
      assert s == [Byte(c)];
      assert Byte(c) as bv32 == c;
      FeedOne(st, s[0]);
    } else if c < 0x800 {
      FeedEncoded2(st, c);
    } else if c < 0x1_0000 {
      FeedEncoded3(st, c);
    } else {
      FeedEncoded4(st, c);
    }
  }

  /** The UTF-8 encoding of a text. */
  function EncodeAll(cs: seq<bv32>): seq<bv8>
    requires forall i :: 0 <= i < |cs| ==> IsScalar(cs[i])
  {
    if cs == [] then [] else EncodeAll(cs[..|cs| - 1]) + Encode(cs[|cs| - 1])
  }

  /** `echo` turns the UTF-8 encoding of any text back into the text's code points, one
      written cell per character, and ends with nothing pending. */
  lemma {:induction false} FeedText(cs: seq<bv32>)
    requires forall i :: 0 <= i < |cs| ==> IsScalar(cs[i])
    ensures Feed(Idle, EncodeAll(cs)) == (Idle, cs)
    decreases |cs|
  {
    if cs != [] {
      var init, c := cs[..|cs| - 1], cs[|cs| - 1];
      assert init + [c] == cs;
      FeedText(init);
      FeedTextStep(init, c);
    }
  }

  /** One more character: its encoding, fed after the text's, writes just that character. */
  lemma {:induction false} FeedTextStep(init: seq<bv32>, c: bv32)
    requires forall i :: 0 <= i < |init| ==> IsScalar(init[i])
    requires IsScalar(c)
    requires Feed(Idle, EncodeAll(init)) == (Idle, init)
    ensures Feed(Idle, EncodeAll(init + [c])) == (Idle, init + [c])
  {
    var a, b := EncodeAll(init), Encode(c);
    EncodeAllSnoc(init, c);
    FeedEncoded(Idle, c);
    assert Feed(Idle, b) == (Idle, [c]);
    FeedAppend(Idle, a, b);
    assert Feed(Idle, a).0 == Idle && Feed(Idle, a).1 == init;
    assert Feed(Feed(Idle, a).0, b) == (Idle, [c]);
  }

  /** The encoding of a text with one more character ends with that character's encoding. */
  lemma {:induction false} EncodeAllSnoc(init: seq<bv32>, c: bv32)
    requires forall i :: 0 <= i < |init| ==> IsScalar(init[i])
    requires IsScalar(c)
    ensures EncodeAll(init + [c]) == EncodeAll(init) + Encode(c)
  {
    assert (init + [c])[..|init|] == init;
  }
}

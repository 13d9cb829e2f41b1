/** Integer printing of libc/src/printf.rs (%d %i %u %x %X %o) and parsing of libc/src/cstdlib.rs
    (`strtol`, `strtoull`; section 7.20.1.4 of ISO C99), and that parsing undoes printing. */
module PrintParse {
  import opened Wrappers
  import opened DiskFormat

  const TWO63 := 0x8000_0000_0000_0000
  const TWO64 := 0x1_0000_0000_0000_0000
  const SPACE: u8 := 32
  const MINUS: u8 := 45
  const PLUS: u8 := 43
  const ZERO: u8 := 48

  type u64 = x: int | 0 <= x < TWO64
  type i64 = x: int | -TWO63 <= x < TWO63

  /** `unsigned_abs` */
  function Magnitude(v: i64): (m: u64) {
    var x: int := v;
    if x < 0 then -x else x
  }

  // --- digits ----------------------------------------------------------------------------------

  function DigitChar(d: nat, upper: bool): (c: u8)
    requires d < 16
  {
    if d < 10 then 48 + d else if upper then 65 + d - 10 else 97 + d - 10
  }

  /** The bases that the conversions use. */
  predicate IsBase(base: nat) { base == 8 || base == 10 || base == 16 }

  function Quot(v: nat, base: nat): (q: nat)
    requires IsBase(base)
    ensures q <= v / 8 && (v < base <==> q == 0) && (v > 0 ==> q < v)
  {
    if base == 8 then v / 8 else if base == 10 then v / 10 else v / 16
  }

  function Rem(v: nat, base: nat): (d: nat)
    requires IsBase(base)
    ensures d < base && (v < base ==> d == v)
  {
    if base == 8 then v % 8 else if base == 10 then v % 10 else v % 16
  }

  lemma QuotRem(v: nat, base: nat)
    requires IsBase(base)
    ensures Quot(v, base) * base + Rem(v, base) == v && Quot(v, base) == v / base && Rem(v, base) == v % base
  {
  }

  /** The digits of `v`, most significant first; zero is one digit. */
  function Digits(v: nat, base: nat, upper: bool): (r: seq<u8>)
    requires IsBase(base)
    ensures |r| >= 1
  {
    if v < base then [DigitChar(v, upper)] else Digits(Quot(v, base), base, upper) + [DigitChar(Rem(v, base), upper)]
  }

  function Pow8(k: nat): (r: nat) { if k == 0 then 1 else 8 * Pow8(k - 1) }

  lemma {:induction false} DigitsShort(v: nat, base: nat, upper: bool, k: nat)
    requires IsBase(base) && 1 <= k && v < Pow8(k)
    ensures |Digits(v, base, upper)| <= k
    decreases k
  {
    assert k == 1 ==> Pow8(k) == 8;
    if v >= base {
      assert v / 8 < Pow8(k - 1);
      DigitsShort(Quot(v, base), base, upper, k - 1);
    }
  }

  /** Numbers of 64 bits have at most 22 digits in base 8 or more. */
  lemma DigitsFit(v: nat, base: nat, upper: bool)
    requires IsBase(base) && v < TWO64
    ensures |Digits(v, base, upper)| <= 22
  {
    assert Pow8(11) == 0x2_0000_0000 by {
      assert Pow8(3) == 512;
      assert Pow8(7) == 4096 * Pow8(3);
      assert Pow8(11) == 4096 * Pow8(7);
    }
    assert Pow8(15) == 4096 * Pow8(11);
    assert Pow8(19) == 4096 * Pow8(15);
    assert Pow8(22) == 512 * Pow8(19);
    DigitsShort(v, base, upper, 22);
  }

  /** `fmt_uint`: the digits at the right end of the buffer. */
  method FmtUint(v: u64, base: nat, upper: bool, buf: array<u8>) returns (i: nat)
    requires IsBase(base) && buf.Length >= 22
    modifies buf
    ensures i <= buf.Length && buf[i..] == Digits(v, base, upper)
  {
    DigitsFit(v, base, upper);
    i := buf.Length;
    if v == 0 {
      i := i - 1;
      buf[i] := ZERO;
    } else {
      var w: int := v;
      while w > 0
        invariant 0 <= w && i <= buf.Length
        invariant Emitted(v, w, base, upper, buf[i..]) && (w > 0 ==> |Digits(w, base, upper)| <= i)
        decreases w
      {
        ghost var tail := buf[i..];
        EmitStep(v, w, base, upper, tail);
        i := i - 1;
        buf[i] := DigitChar(Rem(w, base), upper);
        assert buf[i + 1..] == tail;
        assert buf[i..] == [buf[i]] + buf[i + 1..];
        w := Quot(w, base);
      }
    }
  }

  /** The low digits of `v` have been written, those of `w` remain. */
  ghost predicate Emitted(v: nat, w: nat, base: nat, upper: bool, tail: seq<u8>)
    requires IsBase(base)
  {
    Digits(v, base, upper) == if w == 0 then tail else Digits(w, base, upper) + tail
  }

  lemma EmitStep(v: nat, w: nat, base: nat, upper: bool, tail: seq<u8>)
    requires IsBase(base) && w > 0 && Emitted(v, w, base, upper, tail)
    ensures Emitted(v, Quot(w, base), base, upper, [DigitChar(Rem(w, base), upper)] + tail)
    ensures Quot(w, base) > 0 ==> |Digits(Quot(w, base), base, upper)| < |Digits(w, base, upper)|
  {
    var c := DigitChar(Rem(w, base), upper);
    if w < base {
      assert Digits(w, base, upper) == [c];
    } else {
      var high := Digits(Quot(w, base), base, upper);
      assert Digits(w, base, upper) == high + [c];
      assert high + [c] + tail == high + ([c] + tail);
    }
  }

  /** `fmt_int`: a minus sign in front of the digits of the magnitude. */
  method FmtInt(v: i64, buf: array<u8>) returns (i: nat)
    requires buf.Length >= 23
    modifies buf
    ensures i <= buf.Length
    ensures buf[i..] == (if v < 0 then [MINUS] else []) + Digits(Magnitude(v), 10, false)
  {
    var m := Magnitude(v);
    DigitsFit(m, 10, false);
    i := FmtUint(m, 10, false, buf);
    assert |buf[i..]| <= 22;
    if v < 0 {
      ghost var ds := buf[i..];
      i := i - 1;
      buf[i] := MINUS;
      assert buf[i..] == [MINUS] + ds;
    }
  }

  // --- padding -------------------------------------------------------------------------------------

  function Fill(n: nat, c: u8): (r: seq<u8>)
    ensures |r| == n && forall i :: 0 <= i < n ==> r[i] == c
  {
    seq(n, _ => c)
  }

  /** `pad_and_emit` */
  function Padded(body: seq<u8>, left: bool, zero: bool, width: nat): (r: seq<u8>) {
    var pad := if width > |body| then width - |body| else 0;
    if pad == 0 then body
    else if left then body + Fill(pad, SPACE)
    else if zero then
      if body != [] && body[0] == MINUS then [MINUS] + Fill(pad, ZERO) + body[1..] else Fill(pad, ZERO) + body
    else Fill(pad, SPACE) + body
  }

  /** As long as the body and the width ask for. Spaces behind the body with the minus flag, else before it;
      with the zero flag zeros instead, between a minus sign and the rest. */
  lemma PaddedLaw(body: seq<u8>, left: bool, zero: bool, width: nat)
    ensures var r, n := Padded(body, left, zero, width), |body|;
            && |r| == (if n < width then width else n) && (width <= n ==> r == body)
            && (n < width ==>
                 var pad := width - n;
                 && (left ==> r[..n] == body && forall i :: n <= i < width ==> r[i] == 32)
                 && (!left && !zero ==> r[pad..] == body && forall i :: 0 <= i < pad ==> r[i] == 32)
                 && (!left && zero && n > 0 && body[0] == 45 ==>
                      r[0] == 45 && r[pad + 1..] == body[1..] && forall i :: 1 <= i <= pad ==> r[i] == 48)
                 && (!left && zero && (n == 0 || body[0] != 45) ==>
                      r[pad..] == body && forall i :: 0 <= i < pad ==> r[i] == 48))
  {
  }

  /** `apply_int_prec` on a vector that holds `start` bytes already: `resize` sets its length, so bytes
      already there count toward the padding. */
  function PrecZeros(start: nat, digits: nat, prec: int): (r: nat) {
    var p := if prec < 0 then 0 else prec;
    if digits < p && p - digits > start then p - digits - start else 0
  }

  /** `render_conv` for %d and %i. */
  function RenderInt(v: i64, zero: bool, left: bool, width: nat, prec: int): (r: seq<u8>) {
    var sign := if v < 0 then [MINUS] else [];
    var ds := Digits(Magnitude(v), 10, false);
    if prec < 0 then Padded(sign + ds, left, zero, width)
    else Padded(sign + Fill(PrecZeros(|sign|, |ds|, prec), ZERO) + ds, left, false, width)
  }

  /** `render_conv` for %u, %x, %X and %o. */
  function RenderUint(v: u64, base: nat, upper: bool, zero: bool, left: bool, width: nat, prec: int): (r: seq<u8>)
    requires IsBase(base)
  {
    var ds := Digits(v, base, upper);
    if prec < 0 then Padded(ds, left, zero, width)
    else Padded(Fill(PrecZeros(0, |ds|, prec), ZERO) + ds, left, false, width)
  }

  /** `Vec::resize`: cuts or fills to a length. */
  function Resized(v: seq<u8>, n: nat, c: u8): (r: seq<u8>) {
    if n <= |v| then v[..n] else v + Fill(n - |v|, c)
  }

  /** `apply_int_prec`, on a vector that is empty or holds the sign. */
  method ApplyIntPrec(digits: seq<u8>, prec: int, dst: seq<u8>) returns (r: seq<u8>)
    requires |dst| <= 1
    ensures r == dst + Fill(PrecZeros(|dst|, |digits|, prec), ZERO) + digits
  {
    var p := if prec < 0 then 0 else prec;
    r := dst;
    if |digits| < p {
      r := Resized(r, p - |digits|, ZERO);
    }
    r := r + digits;
  }

  /** `pad_and_emit` on the output vector. */
  method PadAndEmit(out: seq<u8>, body: seq<u8>, left: bool, zero: bool, width: nat) returns (r: seq<u8>)
    ensures r == out + Padded(body, left, zero, width)
  {
    var pad := if width > |body| then width - |body| else 0;
    if pad == 0 {
      r := out + body;
    } else if left {
      r := out + body;
      r := Resized(r, |r| + pad, SPACE);
    } else if zero {
      if body != [] && body[0] == MINUS {
        r := out + [MINUS];
        r := Resized(r, |r| + pad, ZERO);
        r := r + body[1..];
      } else {
        r := Resized(out, |out| + pad, ZERO);
        r := r + body;
      }
    } else {
      r := Resized(out, |out| + pad, SPACE);
      r := r + body;
    }
  }

  /** `render_conv` for %d and %i, through its 32-byte buffer. */
  method RenderSigned(out: seq<u8>, v: i64, zeroFlag: bool, left: bool, width: nat, prec: int) returns (r: seq<u8>)
    ensures r == out + RenderInt(v, zeroFlag && prec < 0, left, width, prec)
  {
    var tmp := new u8[32](_ => 0);
    var zero := zeroFlag && prec < 0;
    var i := FmtInt(v, tmp);
    if prec < 0 {
      r := PadAndEmit(out, tmp[i..], left, zero, width);
    } else {
      var body := SignedBody(tmp[i..], v, prec);
      r := PadAndEmit(out, body, left, false, width);
    }
  }

  /** Keeps the sign outside the zeros of the precision. */
  method SignedBody(text: seq<u8>, v: i64, prec: int) returns (body: seq<u8>)
    requires text == (if v < 0 then [MINUS] else []) + Digits(Magnitude(v), 10, false)
    ensures var sign, ds := if v < 0 then [MINUS] else [], Digits(Magnitude(v), 10, false);
            body == sign + Fill(PrecZeros(|sign|, |ds|, prec), ZERO) + ds
  {
    if v < 0 {
      assert text[1..] == Digits(Magnitude(v), 10, false);
      body := ApplyIntPrec(text[1..], prec, [MINUS]);
    } else {
      assert text == Digits(Magnitude(v), 10, false);
      body := ApplyIntPrec(text, prec, []);
    }
  }

  /** `render_conv` for %u, %x, %X and %o. */
  method RenderUnsigned(out: seq<u8>, v: u64, base: nat, upper: bool, zeroFlag: bool, left: bool, width: nat, prec: int)
    returns (r: seq<u8>)
    requires IsBase(base)
    ensures r == out + RenderUint(v, base, upper, zeroFlag && prec < 0, left, width, prec)
  {
    var tmp := new u8[32](_ => 0);
    var zero := zeroFlag && prec < 0;
    var i := FmtUint(v, base, upper, tmp);
    if prec < 0 {
      r := PadAndEmit(out, tmp[i..], left, zero, width);
    } else {
      ghost var ds := Digits(v, base, upper);
      var body := ApplyIntPrec(tmp[i..], prec, []);
      assert body == Fill(PrecZeros(0, |ds|, prec), ZERO) + ds;
      r := PadAndEmit(out, body, left, false, width);
    }
  }

  /** What every rendering looks like. */
  function Shape(a: nat, neg: bool, b: nat, ds: seq<u8>, c: nat): (r: seq<u8>) {
    Fill(a, SPACE) + (if neg then [MINUS] else []) + Fill(b, ZERO) + ds + Fill(c, SPACE)
  }

  lemma PaddedShape(neg: bool, b: nat, ds: seq<u8>, left: bool, zero: bool, width: nat)
    returns (a: nat, b': nat, c: nat)
    requires ds != [] && ds[0] != MINUS
    ensures !zero ==> b' == b
    ensures Padded((if neg then [MINUS] else []) + Fill(b, ZERO) + ds, left, zero, width) == Shape(a, neg, b', ds, c)
  {
    var sign := if neg then [MINUS] else [];
    var body := sign + Fill(b, ZERO) + ds;
    var pad := if width > |body| then width - |body| else 0;
    a, b', c := 0, b, 0;
    if pad == 0 {
      assert Fill(0, SPACE) + sign == sign && body + Fill(0, SPACE) == body;
    } else if left {
      c := pad;
      assert Fill(0, SPACE) + sign == sign;
    } else if zero {
      b' := b + pad;
      assert Fill(b', ZERO) == Fill(pad, ZERO) + Fill(b, ZERO);
      if neg {
        assert body[1..] == Fill(b, ZERO) + ds;
      } else {
        assert body == Fill(b, ZERO) + ds && body[0] != MINUS;
      }
      assert Padded(body, left, zero, width) == sign + Fill(b', ZERO) + ds;
      assert Fill(0, SPACE) + sign == sign && sign + Fill(b', ZERO) + ds + Fill(0, SPACE) == sign + Fill(b', ZERO) + ds;
    } else {
      a := pad;
      assert Fill(a, SPACE) + body + Fill(0, SPACE) == Fill(a, SPACE) + sign + Fill(b, ZERO) + ds + Fill(0, SPACE);
    }
  }

  lemma {:induction false} DigitsAreDigits(v: nat, base: nat, upper: bool)
    requires IsBase(base)
    ensures Digits(v, base, upper)[0] != MINUS
    ensures forall i :: 0 <= i < |Digits(v, base, upper)| ==>
              DigitVal(Digits(v, base, upper)[i]).Some? && DigitVal(Digits(v, base, upper)[i]).value < base
    decreases v
  {
    if v >= base {
      DigitsAreDigits(Quot(v, base), base, upper);
    }
  }

  // --- parsing ----------------------------------------------------------------------------------------

  function At(s: seq<u8>, i: nat): (c: u8) { if i < |s| then s[i] else 0 }

  predicate IsSpace(c: u8) { c == 32 || 9 <= c <= 13 }

  function DigitVal(c: u8): (r: Option<nat>) {
    if 48 <= c <= 57 then Some(c - 48)
    else if 97 <= c <= 122 then Some(c - 97 + 10)
    else if 65 <= c <= 90 then Some(c - 65 + 10)
    else None
  }

  function SkipSpaces(s: seq<u8>, i: nat): (j: nat)
    ensures j >= i
    decreases |s| - i
  {
    if i < |s| && IsSpace(s[i]) then SkipSpaces(s, i + 1) else i
  }

  /** The digit loop: accumulates modulo 2^64 and returns where it stopped. */
  function Accumulate(s: seq<u8>, i: nat, base: int, val: u64): (r: (u64, nat))
    decreases |s| - i
  {
    if i < |s| && DigitVal(s[i]).Some? && DigitVal(s[i]).value < base then
      Accumulate(s, i + 1, base, (val as int * base + DigitVal(s[i]).value) % TWO64)
    else (val, i)
  }

  /** Base detection: the base and how many prefix bytes it takes. */
  function BasePrefix(s: seq<u8>, i: nat, base: int): (r: (int, nat)) {
    if (base == 0 || base == 16) && At(s, i) == ZERO && (At(s, i + 1) == 120 || At(s, i + 1) == 88) then (16, 2)
    else if base == 0 && At(s, i) == ZERO then (8, 1)
    else if base == 0 then (10, 0)
    else (base, 0)
  }

  /** `parse_uint`: magnitude, sign, and where the number ends (0 if there is none). */
  function ParseUint(s: seq<u8>, base: int): (r: (u64, bool, nat)) {
    var i := SkipSpaces(s, 0);
    var neg := At(s, i) == MINUS;
    var j := if neg || At(s, i) == PLUS then i + 1 else i;
    var (b, skip) := BasePrefix(s, j, base);
    var (val, end) := Accumulate(s, j + skip, b, 0);
    (val, neg, if end > j + skip then end else 0)
  }

  /** `parse_uint` with its loops. */
  method ParseUintLoop(s: seq<u8>, base: int) returns (val: u64, neg: bool, end: nat)
    ensures (val, neg, end) == ParseUint(s, base)
  {
    var i := 0;
    while IsSpace(At(s, i))
      invariant 0 <= i && SkipSpaces(s, 0) == SkipSpaces(s, i)
      decreases |s| - i
    {
      i := i + 1;
    }
    neg := false;
    if At(s, i) == PLUS {
      i := i + 1;
    } else if At(s, i) == MINUS {
      neg := true;
      i := i + 1;
    }
    var b, skip := DetectBase(s, i, base);
    i := i + skip;
    var stop;
    val, stop := DigitLoop(s, i, b);
    end := if stop > i then stop else 0;
  }

  method DetectBase(s: seq<u8>, i: nat, base: int) returns (b: int, skip: nat)
    ensures (b, skip) == BasePrefix(s, i, base)
  {
    b, skip := base, 0;
    if (b == 0 || b == 16) && At(s, i) == ZERO && (At(s, i + 1) == 120 || At(s, i + 1) == 88) {
      b, skip := 16, 2;
    } else if b == 0 && At(s, i) == ZERO {
      b, skip := 8, 1;
    } else if b == 0 {
      b := 10;
    }
  }

  method DigitLoop(s: seq<u8>, start: nat, b: int) returns (val: u64, i: nat)
    ensures (val, i) == Accumulate(s, start, b, 0)
  {
    i, val := start, 0;
    while DigitVal(At(s, i)).Some? && DigitVal(At(s, i)).value < b
      invariant start <= i
      invariant Accumulate(s, start, b, 0) == Accumulate(s, i, b, val)
      decreases |s| - i
    {
      AccumulateStep(s, i, b, val, DigitVal(At(s, i)).value);
      val := (val as int * b + DigitVal(At(s, i)).value) % TWO64;
      i := i + 1;
    }
  }

  lemma AccumulateStep(s: seq<u8>, i: nat, base: int, val: u64, d: nat)
    requires i < |s| && DigitVal(s[i]) == Some(d) && d < base
    ensures Accumulate(s, i, base, val) == Accumulate(s, i + 1, base, (val as int * base + d) % TWO64)
  {
  }

  /** `x as i64`, and its wrapping negation. */
  function AsI64(x: u64): (r: i64) { if x < TWO63 then x else x - TWO64 }
  function WrappingNeg(x: i64): (r: i64) { if x == -TWO63 then x else -x }

  function Strtol(s: seq<u8>, base: int): (r: i64) {
    var (v, neg, _) := ParseUint(s, base);
    if neg then WrappingNeg(AsI64(v)) else AsI64(v)
  }

  function Strtoull(s: seq<u8>, base: int): (r: u64) {
    var (v, neg, _) := ParseUint(s, base);
    if neg then (TWO64 - v) % TWO64 else v
  }

  // --- parsing undoes printing --------------------------------------------------------------------------

  lemma {:induction false} SkipFill(s: seq<u8>, i: nat, n: nat)
    requires i + n <= |s| && (forall k :: i <= k < i + n ==> s[k] == SPACE) && !IsSpace(At(s, i + n))
    ensures SkipSpaces(s, i) == i + n
    decreases n
  {
    if n > 0 {
      SkipFill(s, i + 1, n - 1);
    }
  }

  lemma {:induction false} ZerosAddNothing(s: seq<u8>, i: nat, n: nat, base: int)
    requires i + n <= |s| && base > 0 && forall k :: i <= k < i + n ==> s[k] == ZERO
    ensures Accumulate(s, i, base, 0) == Accumulate(s, i + n, base, 0)
    decreases n
  {
    if n > 0 {
      ZerosAddNothing(s, i + 1, n - 1, base);
    }
  }

  lemma DigitCharVal(d: nat, upper: bool)
    requires d < 16
    ensures DigitVal(DigitChar(d, upper)) == Some(d)
  {
  }

  lemma OneDigit(s: seq<u8>, i: nat, base: nat, high: u64, d: nat, v: u64)
    requires i < |s| && DigitVal(s[i]) == Some(d) && d < base && v == high as int * base + d
    ensures Accumulate(s, i, base, high) == Accumulate(s, i + 1, base, v)
  {
  }

  /** Reading the digits of `v` gives `v`, without wrapping. */
  lemma {:induction false} ReadDigits(s: seq<u8>, i: nat, v: nat, base: nat, upper: bool)
    requires IsBase(base) && v < TWO64 && i + |Digits(v, base, upper)| <= |s|
    requires s[i..i + |Digits(v, base, upper)|] == Digits(v, base, upper)
    ensures Accumulate(s, i, base, 0) == Accumulate(s, i + |Digits(v, base, upper)|, base, v)
    decreases v
  {
    if v < base {
      DigitCharVal(v, upper);
      assert s[i] == s[i..i + 1][0] == DigitChar(v, upper);
      OneDigit(s, i, base, 0, v, v);
    } else {
      var q, d := Quot(v, base), Rem(v, base);
      var high := Digits(q, base, upper);
      SliceParts(s, i, high, DigitChar(d, upper));
      ReadDigits(s, i, q, base, upper);
      DigitCharVal(d, upper);
      QuotRem(v, base);
      OneDigit(s, i + |high|, base, q, d, v);
    }
  }

  lemma SliceParts(s: seq<u8>, i: nat, high: seq<u8>, c: u8)
    requires i + |high| + 1 <= |s| && s[i..i + |high| + 1] == high + [c]
    ensures s[i..i + |high|] == high && s[i + |high|] == c
  {
    var slice := s[i..i + |high| + 1];
    assert s[i..i + |high|] == slice[..|high|];
    assert s[i + |high|] == slice[|high|];
  }

  /** A rendering of any shape parses back to its sign and its digits' value. */
  lemma ParseShape(a: nat, neg: bool, b: nat, v: nat, base: nat, upper: bool, c: nat)
    requires IsBase(base) && v < TWO64
    ensures var r := ParseUint(Shape(a, neg, b, Digits(v, base, upper), c), base);
            r.0 == v && r.1 == neg && r.2 == a + (if neg then 1 else 0) + b + |Digits(v, base, upper)|
  {
    var ds := Digits(v, base, upper);
    DigitsAreDigits(v, base, upper);
    ShapeParts(a, neg, b, ds, c);
    NoPrefix(a, neg, b, v, base, upper, c);
    ParseParts(Shape(a, neg, b, ds, c), a, neg, b, v, base, upper);
  }

  lemma ParseParts(s: seq<u8>, a: nat, neg: bool, b: nat, v: nat, base: nat, upper: bool)
    requires IsBase(base) && v < TWO64
    requires var n, j := |Digits(v, base, upper)|, if neg then a + 1 else a;
             && j + b + n <= |s| && s[j + b..j + b + n] == Digits(v, base, upper)
             && (forall k :: 0 <= k < a ==> s[k] == SPACE) && (forall k :: j <= k < j + b ==> s[k] == ZERO)
             && !IsSpace(At(s, a)) && (if neg then At(s, a) == MINUS else At(s, a) != MINUS && At(s, a) != PLUS)
             && BasePrefix(s, j, base) == (base as int, 0)
             && (At(s, j + b + n) == SPACE || At(s, j + b + n) == 0)
    ensures ParseUint(s, base) == (v, neg, a + (if neg then 1 else 0) + b + |Digits(v, base, upper)|)
  {
    var j := if neg then a + 1 else a;
    SkipFill(s, 0, a);
    ReadNumber(s, j, b, v, base, upper);
    ParseFrom(s, a, j, j, base, base, neg, v, j + b + |Digits(v, base, upper)|);
  }

  /** Zeros, the digits of `v`, and something that ends them. */
  lemma ReadNumber(s: seq<u8>, j: nat, b: nat, v: nat, base: nat, upper: bool)
    requires IsBase(base) && v < TWO64 && j + b + |Digits(v, base, upper)| <= |s|
    requires s[j + b..j + b + |Digits(v, base, upper)|] == Digits(v, base, upper)
    requires forall k :: j <= k < j + b ==> s[k] == ZERO
    requires At(s, j + b + |Digits(v, base, upper)|) == SPACE || At(s, j + b + |Digits(v, base, upper)|) == 0
    ensures Accumulate(s, j, base, 0) == (v, j + b + |Digits(v, base, upper)|)
  {
    var k, e := j + b, j + b + |Digits(v, base, upper)|;
    assert Accumulate(s, j, base, 0) == Accumulate(s, k, base, 0) by { ZerosAddNothing(s, j, b, base); }
    assert Accumulate(s, k, base, 0) == Accumulate(s, e, base, v) by { ReadDigits(s, k, v, base, upper); }
    assert Accumulate(s, e, base, v) == (v, e) by { Stops(s, e, base, v); }
  }

  lemma Stops(s: seq<u8>, i: nat, base: int, val: u64)
    requires At(s, i) == SPACE || At(s, i) == 0
    ensures Accumulate(s, i, base, val) == (val, i)
  {
  }

  lemma ShapeParts(a: nat, neg: bool, b: nat, ds: seq<u8>, c: nat)
    requires ds != [] && ds[0] != MINUS && DigitVal(ds[0]).Some?
    ensures var s, j := Shape(a, neg, b, ds, c), if neg then a + 1 else a;
            && |s| == j + b + |ds| + c
            && (forall k :: 0 <= k < a ==> s[k] == SPACE) && (neg ==> s[a] == MINUS)
            && (forall k :: j <= k < j + b ==> s[k] == ZERO)
            && s[j + b..j + b + |ds|] == ds && s[j + b] == ds[0]
            && (forall k :: j + b + |ds| <= k < |s| ==> s[k] == SPACE)
            && !IsSpace(At(s, a)) && (!neg ==> At(s, a) != MINUS && At(s, a) != PLUS)
  {
  }

  /** No rendering looks like a prefixed number, and the digits end where they should. */
  lemma NoPrefix(a: nat, neg: bool, b: nat, v: nat, base: nat, upper: bool, c: nat)
    requires IsBase(base) && v < TWO64
    ensures var ds := Digits(v, base, upper);
            var s, j := Shape(a, neg, b, ds, c), if neg then a + 1 else a;
            && BasePrefix(s, j, base) == (base as int, 0)
            && (At(s, j + b + |ds|) == SPACE || At(s, j + b + |ds|) == 0)
  {
    var ds := Digits(v, base, upper);
    var s, j := Shape(a, neg, b, ds, c), if neg then a + 1 else a;
    DigitsAreDigits(v, base, upper);
    ShapeParts(a, neg, b, ds, c);
    NotAnX(s, j, b, ds);
  }

  /** Behind a first zero comes a digit or the end, never an `x`. */
  lemma NotAnX(s: seq<u8>, j: nat, b: nat, ds: seq<u8>)
    requires j + b + |ds| <= |s| && ds != [] && s[j + b..j + b + |ds|] == ds
    requires forall k :: j <= k < j + b ==> s[k] == ZERO
    requires forall k :: j + b + |ds| <= k < |s| ==> s[k] == SPACE
    requires forall i :: 0 <= i < |ds| ==> DigitVal(ds[i]).Some? && DigitVal(ds[i]).value < 16
    ensures At(s, j + 1) != 120 && At(s, j + 1) != 88
  {
  }

  /** `end` is just behind the last digit of the text: only padding follows. */
  ghost predicate EndsNumber(text: seq<u8>, end: nat) {
    && 0 < end <= |text| && DigitVal(text[end - 1]).Some?
    && forall k :: end <= k < |text| ==> text[k] == SPACE
  }

  lemma ShapeEnds(a: nat, neg: bool, b: nat, v: nat, base: nat, upper: bool, c: nat)
    requires IsBase(base)
    ensures var ds := Digits(v, base, upper);
            EndsNumber(Shape(a, neg, b, ds, c), a + (if neg then 1 else 0) + b + |ds|)
  {
    var ds := Digits(v, base, upper);
    DigitsAreDigits(v, base, upper);
    ShapeParts(a, neg, b, ds, c);
    var s, j := Shape(a, neg, b, ds, c), if neg then a + 1 else a;
    assert s[j + b..j + b + |ds|][|ds| - 1] == ds[|ds| - 1];
  }

  /** %d and %i: for every value, width, precision and flags, `strtol` in base 10 gives the value back, and
      its end pointer is just behind the digits. */
  lemma IntRoundTrip(v: i64, zero: bool, left: bool, width: nat, prec: int)
    ensures var text := RenderInt(v, zero, left, width, prec);
            Strtol(text, 10) == v && EndsNumber(text, ParseUint(text, 10).2)
  {
    var a, b, c := IntShape(v, zero, left, width, prec);
    ParseShape(a, v < 0, b, Magnitude(v), 10, false, c);
    ShapeEnds(a, v < 0, b, Magnitude(v), 10, false, c);
  }

  /** The rendering of an integer: spaces, sign, zeros, digits, spaces. With a precision the zeros are
      those of the precision. */
  lemma IntShape(v: i64, zero: bool, left: bool, width: nat, prec: int) returns (a: nat, b: nat, c: nat)
    ensures RenderInt(v, zero, left, width, prec) == Shape(a, v < 0, b, Digits(Magnitude(v), 10, false), c)
    ensures prec >= 0 ==> b == PrecZeros(if v < 0 then 1 else 0, |Digits(Magnitude(v), 10, false)|, prec)
  {
    var ds := Digits(Magnitude(v), 10, false);
    DigitsAreDigits(Magnitude(v), 10, false);
    var sign := if v < 0 then [MINUS] else [];
    var zeros := if prec < 0 then 0 else PrecZeros(|sign|, |ds|, prec);
    assert sign + Fill(0, ZERO) + ds == sign + ds;
    a, b, c := PaddedShape(v < 0, zeros, ds, left, zero && prec < 0, width);
  }

  /** %u, %x, %X and %o likewise, with `strtoull` in the matching base. */
  lemma UintRoundTrip(v: u64, base: nat, upper: bool, zero: bool, left: bool, width: nat, prec: int)
    requires IsBase(base)
    ensures var text := RenderUint(v, base, upper, zero, left, width, prec);
            Strtoull(text, base) == v && EndsNumber(text, ParseUint(text, base).2)
  {
    var ds := Digits(v, base, upper);
    DigitsAreDigits(v, base, upper);
    var b := if prec < 0 then 0 else PrecZeros(0, |ds|, prec);
    assert [] + Fill(b, ZERO) + ds == Fill(b, ZERO) + ds;
    assert Fill(0, ZERO) + ds == ds;
    var a, b', c := PaddedShape(false, b, ds, left, zero && prec < 0, width);
    ParseShape(a, false, b', v, base, upper, c);
    ShapeEnds(a, false, b', v, base, upper, c);
  }

  // --- parsing any number ----------------------------------------------------------------------------

  /** The number that digits stand for. */
  function Value(ds: seq<u8>, base: nat): (r: nat)
    requires forall i :: 0 <= i < |ds| ==> DigitVal(ds[i]).Some?
  {
    if ds == [] then 0 else Value(ds[..|ds| - 1], base) * base + DigitVal(ds[|ds| - 1]).value
  }

  /** Digits of base `base`, and behind them something that is none. */
  ghost predicate NumberIn(ds: seq<u8>, rest: seq<u8>, base: nat) {
    && ds != [] && (forall i :: 0 <= i < |ds| ==> DigitVal(ds[i]).Some? && DigitVal(ds[i]).value < base)
    && (rest != [] ==> DigitVal(rest[0]) == None || DigitVal(rest[0]).value >= base)
  }

  lemma ModStep(x: nat, b: nat, d: nat)
    ensures (x % TWO64 * b + d) % TWO64 == (x * b + d) % TWO64
  {
    var q, r := x / TWO64, x % TWO64;
    assert x * b + d == r * b + d + q * b * TWO64;
    ModMany(r * b + d, q * b);
  }

  lemma ModMany(x: nat, k: nat)
    ensures (x + k * TWO64) % TWO64 == x % TWO64
  {
  }

  lemma {:induction false} AccumulateValue(s: seq<u8>, i: nat, ds: seq<u8>, base: nat)
    requires i + |ds| <= |s| && s[i..i + |ds|] == ds
    requires forall k :: 0 <= k < |ds| ==> DigitVal(ds[k]).Some? && DigitVal(ds[k]).value < base
    ensures Accumulate(s, i, base, 0) == Accumulate(s, i + |ds|, base, Value(ds, base) % TWO64)
    decreases |ds|
  {
    if ds != [] {
      var n := |ds| - 1;
      var high, d := Value(ds[..n], base), DigitVal(ds[n]).value;
      SliceParts(s, i, ds[..n], ds[n]);
      assert Accumulate(s, i, base, 0) == Accumulate(s, i + n, base, high % TWO64) by {
        AccumulateValue(s, i, ds[..n], base);
      }
      assert Accumulate(s, i + n, base, high % TWO64) == Accumulate(s, i + n + 1, base, (high * base + d) % TWO64) by {
        AccumulateStep(s, i + n, base, high % TWO64, d);
        ModStep(high, base, d);
      }
    }
  }

  /** Which prefix stands before digits of base `b` when the caller gave `base`: "0x" for 16, a zero for 8
      when the base is to be detected, else nothing, and then nothing that looks like a prefix. */
  ghost predicate Prefixed(base: nat, b: nat, prefix: seq<u8>, after: seq<u8>) {
    || ((prefix == [48, 120] || prefix == [48, 88]) && b == 16 && (base == 0 || base == 16))
    || (prefix == [48] && b == 8 && base == 0 && (after == [] || (after[0] != 120 && after[0] != 88)))
    || (prefix == [] && b == 10 && base == 0 && after != [] && after[0] != 48)
    || (prefix == [] && b == 16 && base == 16 && (|after| < 2 || (after[1] != 120 && after[1] != 88)))
    || (prefix == [] && b == base && base != 0 && base != 16)
  }

  /** `parse_uint` on white space, sign, prefix, digits and anything behind them: the number modulo 2^64, the
      sign, and the position just behind the digits. */
  lemma ParseLaw(text: seq<u8>, space: seq<u8>, sign: seq<u8>, prefix: seq<u8>, ds: seq<u8>, rest: seq<u8>,
                 base: nat, b: nat)
    requires text == space + sign + prefix + ds + rest
    requires forall i :: 0 <= i < |space| ==> space[i] == 32 || 9 <= space[i] <= 13
    requires sign == [] || sign == [43] || sign == [45]
    requires NumberIn(ds, rest, b) && Prefixed(base, b, prefix, ds + rest)
    ensures ParseUint(text, base) ==
            (Value(ds, b) % TWO64, sign == [45], |space| + |sign| + |prefix| + |ds|)
  {
    TextParts(text, space, sign, prefix, ds, rest);
    ParseAt(text, |space|, sign, prefix, ds, rest, base, b);
  }

  lemma ParseAt(s: seq<u8>, i: nat, sign: seq<u8>, prefix: seq<u8>, ds: seq<u8>, rest: seq<u8>, base: nat, b: nat)
    requires sign == [] || sign == [43] || sign == [45]
    requires NumberIn(ds, rest, b) && Prefixed(base, b, prefix, ds + rest)
    requires var j := i + |sign|;
             var k := j + |prefix|;
             && k + |ds| <= |s| && s[j..] == prefix + (ds + rest) && s[k..k + |ds|] == ds
             && At(s, i) == (if sign != [] then sign[0] else if prefix != [] then prefix[0] else ds[0])
             && (k + |ds| < |s| ==> rest != [] && s[k + |ds|] == rest[0])
             && forall x :: 0 <= x < i ==> s[x] == 32 || 9 <= s[x] <= 13
    ensures ParseUint(s, base) == (Value(ds, b) % TWO64, sign == [45], i + |sign| + |prefix| + |ds|)
  {
    var j, c := i + |sign|, if prefix == [] then ds[0] else prefix[0];
    var k := j + |prefix|;
    assert DigitVal(c).Some?;
    SignFound(s, i, j, sign, c);
    PrefixFound(s, j, base, b, prefix, ds + rest);
    NumberFound(s, k, ds, rest, b);
    ParseFrom(s, i, j, k, b, base, sign == [45], Value(ds, b) % TWO64, k + |ds|);
  }

  lemma SignFound(s: seq<u8>, i: nat, j: nat, sign: seq<u8>, c: u8)
    requires i <= |s| && (forall x :: 0 <= x < i ==> s[x] == 32 || 9 <= s[x] <= 13)
    requires sign == [] || sign == [43] || sign == [45]
    requires DigitVal(c).Some? && j == i + |sign| && At(s, i) == if sign == [] then c else sign[0]
    ensures SkipSpaces(s, 0) == i && (sign == [45] <==> At(s, i) == 45)
    ensures j == if At(s, i) == 45 || At(s, i) == 43 then i + 1 else i
  {
    SkipSpace(s, 0, i);
  }

  lemma NumberFound(s: seq<u8>, k: nat, ds: seq<u8>, rest: seq<u8>, b: nat)
    requires NumberIn(ds, rest, b) && k + |ds| <= |s| && s[k..k + |ds|] == ds
    requires k + |ds| < |s| ==> rest != [] && s[k + |ds|] == rest[0]
    ensures Accumulate(s, k, b, 0) == (Value(ds, b) % TWO64, k + |ds|)
  {
    AccumulateValue(s, k, ds, b);
    Ended(s, k + |ds|, b, Value(ds, b) % TWO64);
  }

  lemma ParseFrom(s: seq<u8>, i: nat, j: nat, k: nat, b: nat, base: nat, neg: bool, val: u64, end: nat)
    requires SkipSpaces(s, 0) == i && (neg <==> At(s, i) == 45) && k >= j && end > k
    requires j == if At(s, i) == 45 || At(s, i) == 43 then i + 1 else i
    requires BasePrefix(s, j, base) == (b as int, k - j) && Accumulate(s, k, b, 0) == (val, end)
    ensures ParseUint(s, base) == (val, neg, end)
  {
  }

  lemma Ended(s: seq<u8>, i: nat, base: nat, val: u64)
    requires i <= |s| && (i < |s| ==> DigitVal(s[i]) == None || DigitVal(s[i]).value >= base)
    ensures Accumulate(s, i, base, val) == (val, i)
  {
  }

  lemma TextParts(s: seq<u8>, space: seq<u8>, sign: seq<u8>, prefix: seq<u8>, ds: seq<u8>, rest: seq<u8>)
    requires s == space + sign + prefix + ds + rest && |sign| <= 1 && ds != []
    ensures var i, j := |space|, |space| + |sign|;
            var k := j + |prefix|;
            && s[..i] == space && s[j..] == prefix + (ds + rest) && s[k..k + |ds|] == ds && s[k + |ds|..] == rest
            && At(s, i) == (if sign != [] then sign[0] else if prefix != [] then prefix[0] else ds[0])
            && (k + |ds| < |s| ==> rest != [] && s[k + |ds|] == rest[0])
            && forall x :: 0 <= x < i ==> s[x] == space[x]
  {
  }

  lemma {:induction false} SkipSpace(s: seq<u8>, i: nat, n: nat)
    requires i <= n <= |s| && (forall k :: i <= k < n ==> IsSpace(s[k])) && !IsSpace(At(s, n))
    ensures SkipSpaces(s, i) == n
    decreases n - i
  {
    if i < n {
      SkipSpace(s, i + 1, n);
    }
  }

  lemma PrefixFound(s: seq<u8>, j: nat, base: nat, b: nat, prefix: seq<u8>, after: seq<u8>)
    requires j <= |s| && s[j..] == prefix + after && Prefixed(base, b, prefix, after)
    ensures BasePrefix(s, j, base) == (b as int, |prefix|)
  {
    assert forall i :: 0 <= i ==> At(s, j + i) == At(s[j..], i);
    assert At(s, j) == At(s[j..], 0) && At(s, j + 1) == At(s[j..], 1);
  }

  /** What `strtol` and `strtoull` return on such a text: the signed number, wrapped to 64 bits. */
  lemma StrtolLaw(text: seq<u8>, space: seq<u8>, sign: seq<u8>, prefix: seq<u8>, ds: seq<u8>, rest: seq<u8>,
                  base: nat, b: nat)
    requires text == space + sign + prefix + ds + rest
    requires forall i :: 0 <= i < |space| ==> space[i] == 32 || 9 <= space[i] <= 13
    requires sign == [] || sign == [43] || sign == [45]
    requires NumberIn(ds, rest, b) && Prefixed(base, b, prefix, ds + rest)
    ensures var m: int := Value(ds, b);
            var v := if sign == [45] then -m else m;
            (Strtol(text, base) - v) % TWO64 == 0 && Strtoull(text, base) as int == v % TWO64
  {
    ParseLaw(text, space, sign, prefix, ds, rest, base, b);
    SignedValue(text, base, Value(ds, b), sign == [45]);
  }

  lemma SignedValue(text: seq<u8>, base: int, m: nat, neg: bool)
    requires ParseUint(text, base).0 == m % TWO64 && ParseUint(text, base).1 == neg
    ensures var v := if neg then -(m as int) else m;
            (Strtol(text, base) - v) % TWO64 == 0 && Strtoull(text, base) as int == v % TWO64
  {
    Wraps(m);
  }

  lemma Wraps(v: nat)
    ensures var x := v % TWO64;
            && (AsI64(x) as int - v) % TWO64 == 0 && (WrappingNeg(AsI64(x)) as int + v) % TWO64 == 0
            && (TWO64 - x) % TWO64 == -(v as int) % TWO64
  {
    var q, x := v / TWO64, v % TWO64;
    var a: int := AsI64(x);
    Multiple(0, if x < TWO63 then -q else -q - 1);
    Multiple(0, if x <= TWO63 then q else q + 1);
    Multiple(TWO64 - x, -q - 1);
  }

  lemma Multiple(y: int, k: int)
    ensures (y + k * TWO64) % TWO64 == y % TWO64
  {
  }

  /** "0x1F" is 31 when the base is detected, "017" is 15, " +12z" is 12. */
  lemma ParseExamples()
    ensures Strtol([48, 120, 49, 70], 0) == 31
    ensures Strtol([48, 49, 55], 0) == 15
    ensures Strtol([32, 43, 49, 50, 122], 0) == 12
  {
    assert ParseUint([48, 120, 49, 70], 0) == (31, false, 4);
  }

  // --- precision -----------------------------------------------------------------------------------

  /** How many digits a text shows. */
  function DigitCount(text: seq<u8>): (r: nat) {
    if text == [] then 0 else (if DigitVal(text[0]).Some? then 1 else 0) + DigitCount(text[1..])
  }

  lemma {:induction false} DigitCountAppend(x: seq<u8>, y: seq<u8>)
    ensures DigitCount(x + y) == DigitCount(x) + DigitCount(y)
  {
    if x == [] {
      assert x + y == y;
    } else {
      DigitCountAppend(x[1..], y);
      assert (x + y)[1..] == x[1..] + y;
    }
  }

  lemma {:induction false} DigitCountAll(x: seq<u8>, digits: bool)
    requires forall i :: 0 <= i < |x| ==> DigitVal(x[i]).Some? == digits
    ensures DigitCount(x) == if digits then |x| else 0
  {
    if x != [] {
      DigitCountAll(x[1..], digits);
    }
  }

  lemma ShapeDigits(a: nat, neg: bool, b: nat, v: nat, c: nat)
    ensures DigitCount(Shape(a, neg, b, Digits(v, 10, false), c)) == b + |Digits(v, 10, false)|
  {
    var sign, ds := if neg then [MINUS] else [], Digits(v, 10, false);
    DigitsAreDigits(v, 10, false);
    DigitCountAll(Fill(a, SPACE), false);
    DigitCountAll(sign, false);
    DigitCountAll(Fill(b, ZERO), true);
    DigitCountAll(ds, true);
    DigitCountAll(Fill(c, SPACE), false);
    DigitCountAppend(Fill(a, SPACE), sign);
    DigitCountAppend(Fill(a, SPACE) + sign, Fill(b, ZERO));
    DigitCountAppend(Fill(a, SPACE) + sign + Fill(b, ZERO), ds);
    DigitCountAppend(Fill(a, SPACE) + sign + Fill(b, ZERO) + ds, Fill(c, SPACE));
  }

  /** A precision asks for that many digits at least. The printed text has them if and only if the value is
      not negative or has enough digits anyway: for a negative value the sign already in the vector is
      counted, so one zero is missing. */
  lemma PrecisionMet(v: i64, zero: bool, left: bool, width: nat, prec: nat)
    ensures DigitCount(RenderInt(v, zero, left, width, prec)) >= prec <==>
            v >= 0 || |Digits(Magnitude(v), 10, false)| >= prec
  {
    var a, b, c := IntShape(v, zero, left, width, prec);
    ShapeDigits(a, v < 0, b, Magnitude(v), c);
  }

  /** `%06d` of -42 prints "-00042", `%-6d` prints "-42   ", `%x` and `%X` of 48879 "beef" and "BEEF". */
  lemma PrintExamples()
    ensures RenderInt(-42, true, false, 6, -1) == [45, 48, 48, 48, 52, 50]
    ensures RenderInt(-42, false, true, 6, -1) == [45, 52, 50, 32, 32, 32]
    ensures RenderUint(48879, 16, false, false, false, 0, -1) == [98, 101, 101, 102]
    ensures RenderUint(48879, 16, true, false, false, 0, -1) == [66, 69, 69, 70]
  {
    assert Digits(42, 10, false) == Digits(4, 10, false) + [50] == [52, 50];
    HexDigits(false);
    HexDigits(true);
  }

  lemma HexDigits(upper: bool)
    ensures Digits(48879, 16, upper) == if upper then [66, 69, 69, 70] else [98, 101, 101, 102]
  {
    assert Digits(190, 16, upper) == Digits(11, 16, upper) + [DigitChar(14, upper)];
    assert Digits(3054, 16, upper) == Digits(190, 16, upper) + [DigitChar(14, upper)];
    assert Digits(48879, 16, upper) == Digits(3054, 16, upper) + [DigitChar(15, upper)];
  }

  /** `%.3d` of -5 prints "-05". */
  lemma PrecisionExample()
    ensures RenderInt(-5, false, false, 0, 3) == [MINUS, ZERO, 53]
  {
  }
}

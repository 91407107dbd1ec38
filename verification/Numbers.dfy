/** Printing and reading numbers: base_convert and the sign handling of printk (src/libs/print.c),
    strtol (src/libs/scan.c) and atoi (src/libs/atoi.c), with `long` and `int` of 32 bits. */
module Numbers {
  import opened Words

  const LONG_MAX: int := 0x7FFF_FFFF
  const LONG_MIN: int := -0x8000_0000

  const ZERO: byte := 48
  const PLUS: byte := 43
  const MINUS: byte := 45

  // Numerals and their values.

  /** The value of a digit of any base up to 36, and 36 for any other character. */
  function Digit(c: byte): (d: nat)
    ensures d <= 36
  {
    if 48 <= c <= 57 then c - 48 else if 65 <= c <= 90 then c - 55 else if 97 <= c <= 122 then c - 87 else 36
  }

  /** On characters: ten digits, then the letters of either case from ten on; nothing else is a digit in any
      base. */
  lemma DigitValues(k: nat, c: byte)
    ensures k < 10 ==> Digit('0' as int + k) == k
    ensures k < 26 ==> Digit('a' as int + k) == Digit('A' as int + k) == 10 + k
    ensures k < 6 ==> HexVal('a' as int + k) == HexVal('A' as int + k) == 10 + k
    ensures c < '0' as int || '9' as int < c < 'A' as int || 'Z' as int < c < 'a' as int || 'z' as int < c ==>
              Digit(c) == 36
  {}

  function Value(t: seq<byte>, base: nat): nat
    decreases |t|
  {
    if t == [] then 0 else Extend(Value(t[..|t| - 1], base), base, Digit(t[|t| - 1]))
  }

  function Extend(v: nat, base: nat, digit: nat): nat {
    v * base + digit
  }

  predicate AllDigits(t: seq<byte>, base: nat) {
    forall i :: 0 <= i < |t| ==> Digit(t[i]) < base
  }

  /** Lower-case digits with no needless zero in front. */
  predicate Canonical(t: seq<byte>, base: nat) {
    && t != [] && (|t| > 1 ==> t[0] != ZERO)
    && forall i :: 0 <= i < |t| ==> Digit(t[i]) < base && !(65 <= t[i] <= 90)
  }

  /** The table `digits` (print.c:9). */
  function DigitChar(d: nat): byte
    requires d < 16
  {
    if d < 10 then 48 + d else 87 + d
  }

  /** num / base and num % base, as C computes them. */
  function Divide(num: nat, base: nat): (r: (nat, nat))
    requires base >= 2
    ensures r.1 < base && Extend(r.0, base, r.1) == num
    ensures r.0 <= num && (r.0 == num ==> num == 0)
  {
    DivisionLemma(num, base);
    (num / base, num % base)
  }

  lemma DivisionLemma(x: nat, n: nat)
    requires n >= 2
    ensures x / n * n + x % n == x && 0 <= x % n < n
    ensures 0 <= x / n <= x && (x / n == x ==> x == 0)
  {
    QuotientBounds(x, n);
    if x / n == x {
      TimesMonotonic(2, n, x);
    }
  }

  /** What base_convert_r writes: nothing for zero. */
  function Digits(num: nat, base: nat): seq<byte>
    requires 2 <= base <= 16
    decreases num
  {
    if num == 0 then [] else Digits(Divide(num, base).0, base) + [DigitChar(Divide(num, base).1)]
  }

  function Numeral(num: nat, base: nat): (r: seq<byte>)
    requires 2 <= base <= 16
    ensures r != []
  {
    if num == 0 then [ZERO] else Digits(num, base)
  }

  lemma {:induction false} DigitsMean(num: nat, base: nat)
    requires 2 <= base <= 16
    ensures Value(Digits(num, base), base) == num
    decreases num
  {
    if num > 0 {
      hide Value, Extend, Divide;
      var (q, r) := Divide(num, base);
      DigitsMean(q, base);
      ValueAppend(Digits(q, base), DigitChar(r), base);
    }
  }

  lemma ValueAppend(t: seq<byte>, c: byte, base: nat)
    ensures Value(t + [c], base) == Extend(Value(t, base), base, Digit(c))
  {
    assert (t + [c])[..|t|] == t;
  }

  lemma {:induction false} DigitsCanonical(num: nat, base: nat)
    requires 2 <= base <= 16 && num > 0
    ensures Canonical(Digits(num, base), base) && Digits(num, base)[0] != ZERO
    decreases num
  {
    var (q, r) := Divide(num, base);
    hide Divide;
    if q > 0 {
      DigitsCanonical(q, base);
    } else {
      assert Extend(0, base, r) == r;
    }
  }

  lemma {:induction false} ValuePositive(t: seq<byte>, base: nat)
    requires base >= 2 && t != [] && Digit(t[0]) > 0
    ensures Value(t, base) > 0
    decreases |t|
  {
    if |t| > 1 {
      ValuePositive(t[..|t| - 1], base);
      TimesMonotonic(1, Value(t[..|t| - 1], base), base);
    }
  }

  lemma DigitsAppend(q: nat, c: byte, base: nat)
    requires 2 <= base <= 16 && Digit(c) < base && !(65 <= c <= 90) && Extend(q, base, Digit(c)) > 0
    ensures Digits(Extend(q, base, Digit(c)), base) == Digits(q, base) + [c]
  {
    DivideBack(q, Digit(c), base);
  }

  lemma NoDigits(base: nat)
    ensures Value([], base) == 0 && Extend(0, base, 0) == 0
    ensures 2 <= base <= 16 ==> Digits(0, base) == []
  {}

  /** A number has one canonical numeral, the one that is written. */
  lemma {:induction false} NumeralIsTheCanonicalOne(t: seq<byte>, base: nat)
    requires 2 <= base <= 16 && Canonical(t, base)
    ensures Numeral(Value(t, base), base) == t
    decreases |t|
  {
    hide Value, Extend, Digits;
    var front, last := t[..|t| - 1], t[|t| - 1];
    assert front + [last] == t;
    ValueAppend(front, last, base);
    if |t| > 1 {
      ValuePositive(front, base);
      ValuePositive(t, base);
      NumeralIsTheCanonicalOne(front, base);
      DigitsAppend(Value(front, base), last, base);
    } else if last != ZERO {
      NoDigits(base);
      ValuePositive(t, base);
      DigitsAppend(0, last, base);
    } else {
      NoDigits(base);
    }
  }

  lemma DivideBack(q: nat, r: nat, n: nat)
    requires n >= 2 && r < n
    ensures Divide(Extend(q, n, r), n) == (q, r)
  {
    var (p, s) := Divide(Extend(q, n, r), n);
    hide Divide;
    assert (p - q) * n == r - s;
    if p > q {
      TimesMonotonic(1, p - q, n);
    } else if p < q {
      TimesMonotonic(p - q, -1, n);
    }
  }

  lemma NumeralMeans(num: nat, base: nat)
    requires 2 <= base <= 16
    ensures Value(Numeral(num, base), base) == num && Canonical(Numeral(num, base), base)
  {
    DigitsMean(num, base);
    if num > 0 {
      DigitsCanonical(num, base);
    } else {
      ValueAppend([], ZERO, base);
      assert [] + [ZERO] == [ZERO];
    }
  }

  // Printing.

  /** The digits that fit, in front of what was there. */
  function Overwritten(digits: seq<byte>, size: nat, was: seq<byte>): (r: seq<byte>)
    requires size <= |was|
    ensures |r| == |was|
  {
    var n := Min(|digits|, size);
    digits[..n] + was[n..]
  }

  lemma OverwriteNext(digits: seq<byte>, c: byte, size: nat, was: seq<byte>)
    requires size <= |was|
    ensures Overwritten(digits + [c], size, was) ==
            if |digits| < size then Overwritten(digits, size, was)[|digits| := c] else Overwritten(digits, size, was)
  {}

  /** base_convert_r: the digits that fit go in front, and the result is their number or -1. */
  method BaseConvertR(buffer: array<byte>, size: nat, num: u32, base: nat) returns (r: int)
    requires size <= buffer.Length && 2 <= base <= 16
    modifies buffer
    ensures buffer[..] == Overwritten(Digits(num, base), size, old(buffer[..]))
    ensures r == if |Digits(num, base)| <= size then |Digits(num, base)| else -1
    decreases num
  {
    if num == 0 {
      return 0;
    }
    var (q, d) := Divide(num, base);
    ghost var digits := Digits(q, base);
    assert Digits(num, base) == digits + [DigitChar(d)];
    hide Divide, Digits, DigitChar, Overwritten;
    OverwriteNext(digits, DigitChar(d), size, buffer[..]);
    var depth := BaseConvertR(buffer, size, q, base);
    if depth < 0 || depth >= size {
      return -1;
    }
    buffer[depth] := DigitChar(d);
    r := depth + 1;
  }

  /** The numeral of num in this base and its NUL fit in size bytes. */
  predicate Converts(size: nat, num: u32, base: int) {
    2 <= base <= 16 && |Numeral(num, base)| + 1 <= size
  }

  /** What base_convert leaves in the buffer. */
  function ConvertedTo(size: nat, num: u32, base: int, was: seq<byte>): seq<byte>
    requires size <= |was|
  {
    if Converts(size, num, base) then Numeral(num, base) + [0] + was[|Numeral(num, base)| + 1..]
    else if 2 <= base <= 16 && size >= 2 then Overwritten(Digits(num, base), size - 1, was)
    else was
  }

  lemma ZeroConverted(size: nat, base: nat, was: seq<byte>)
    requires 2 <= base <= 16 && 2 <= size <= |was|
    ensures Converts(size, 0, base) && ConvertedTo(size, 0, base, was) == was[0 := ZERO][1 := 0]
  {
    assert was[0 := ZERO][1 := 0] == [ZERO] + [0] + was[2..];
  }

  lemma NumberConverted(size: nat, num: u32, base: nat, was: seq<byte>)
    requires 2 <= base <= 16 && 2 <= size <= |was| && num > 0
    ensures Converts(size, num, base) <==> |Digits(num, base)| <= size - 1
    ensures ConvertedTo(size, num, base, was) ==
            var d := Digits(num, base); var full := Overwritten(d, size - 1, was);
            if |d| <= size - 1 then full[|d| := 0] else full
  {
    hide Digits;
    var d := Digits(num, base);
    if |d| <= size - 1 {
      assert Overwritten(d, size - 1, was)[|d| := 0] == d + [0] + was[|d| + 1..];
    }
  }

  /** base_convert succeeds exactly when the numeral and its NUL fit. When they do not, the digits
      that did are left in the buffer. */
  method BaseConvert(buffer: array<byte>, size: nat, num: u32, base: int) returns (r: int)
    requires size <= buffer.Length
    modifies buffer
    ensures r == if Converts(size, num, base) then |Numeral(num, base)| else -1
    ensures buffer[..] == ConvertedTo(size, num, base, old(buffer[..]))
  {
    if !(2 <= base <= 16) {
      return -1;
    }
    if size < 2 {
      return -1;
    }
    hide Converts, ConvertedTo, Digits, Overwritten;
    if num == 0 {
      ZeroConverted(size, base, buffer[..]);
      buffer[0] := DigitChar(0);
      buffer[1] := 0;
      return 1;
    }
    NumberConverted(size, num, base, buffer[..]);
    var length := BaseConvertR(buffer, size - 1, num, base);
    if length < 0 {
      return -1;
    }
    buffer[length] := 0;
    r := length;
  }

  function Power2(k: nat): nat { if k == 0 then 1 else 2 * Power2(k - 1) }

  lemma {:induction false} DigitsAreFew(num: nat, base: nat, k: nat)
    requires 2 <= base <= 16 && num < Power2(k)
    ensures |Digits(num, base)| <= k
    decreases num
  {
    if num > 0 {
      var (q, r) := Divide(num, base);
      hide Divide;
      TimesMonotonic(2, base, q);
      DigitsAreFew(q, base, k - 1);
    }
  }

  /** What a conversion of vprintk_c prints, given its argument as a word and, for 's', the string that
      the word points to; None ends the printing (print.c:169). */
  function Shown(opt: char, num: u32, text: seq<byte>): Option<seq<byte>> {
    match opt
    case 's' => Some(text)
    case 'x' => Some(Numeral(num, 16))
    case 'd' => var n := Numeral(Wrap(Abs(Signed(num))), 10); Some(if Signed(num) < 0 then [MINUS] + n else n)
    case 'u' => Some(Numeral(num, 10))
    case 'b' => Some(Numeral(num, 2))
    case 'o' => Some(Numeral(num, 8))
    case _ => None
  }

  function Abs(x: int): nat { if x < 0 then -x else x }

  /** t is the canonical numeral of num in this base. */
  predicate Denotes(t: seq<byte>, num: int, base: nat) {
    Canonical(t, base) && Value(t, base) == num
  }

  /** What the conversions mean: s is the string unchanged; u, o, b and x are the number in base 10, 8, 2 and 16;
      d is in base 10 the word below 2^31, and from there on a minus and 2^32 less the word; there are no
      others. */
  lemma ShownMeans(opt: char, num: u32, text: seq<byte>)
    ensures Shown('s', num, text) == Some(text)
    ensures Shown('u', num, text).Some? && Denotes(Shown('u', num, text).value, num, 10)
    ensures Shown('o', num, text).Some? && Denotes(Shown('o', num, text).value, num, 8)
    ensures Shown('b', num, text).Some? && Denotes(Shown('b', num, text).value, num, 2)
    ensures Shown('x', num, text).Some? && Denotes(Shown('x', num, text).value, num, 16)
    ensures Shown('d', num, text).Some?
    ensures var t := Shown('d', num, text).value;
            if num < 0x8000_0000 then Denotes(t, num, 10)
            else t != [] && t[0] == '-' as int && Denotes(t[1..], 0x1_0000_0000 - num, 10)
    ensures Shown(opt, num, text).None? <==> opt !in {'s', 'u', 'o', 'b', 'x', 'd'}
  {
    hide Numeral, Canonical, Value;
    NumeralMeans(num, 10);
    NumeralMeans(num, 8);
    NumeralMeans(num, 2);
    NumeralMeans(num, 16);
    WrapSmall(Abs(Signed(num)));
    NumeralMeans(Abs(Signed(num)), 10);
    var n := Numeral(Abs(Signed(num)), 10);
    assert ([MINUS] + n)[1..] == n;
  }

  /** One conversion of vprintk_c: for a number, its buffer of 80 bytes is always large enough. */
  method Convert(opt: char, num: u32, str: seq<byte>) returns (out: Option<seq<byte>>)
    ensures out == Shown(opt, num, str)
  {
    if opt == 's' {
      return Some(str);
    }
    var buffer := new byte[80];
    var isSigned, base := opt == 'd', 0;
    match opt {
      case 'x' => base := 16;
      case 'd' => base := 10;
      case 'u' => base := 10;
      case 'b' => base := 2;
      case 'o' => base := 8;
      case _ => return None;
    }
    var magnitude: u32 := if isSigned then Wrap(Abs(Signed(num))) else num;
    FitsEighty(magnitude, base);
    var length := BaseConvert(buffer, 80, magnitude, base);
    var text := buffer[..length];
    assert text == Numeral(magnitude, base);
    out := Some(if isSigned && Signed(num) < 0 then [MINUS] + text else text);
  }

  lemma FitsEighty(num: u32, base: nat)
    requires 2 <= base <= 16
    ensures Converts(80, num, base)
  {
    assert Power2(32) == 0x1_0000_0000 by {
      assert Power2(8) == 0x100;
      assert Power2(16) == 0x1_0000;
      assert Power2(24) == 0x100_0000;
    }
    DigitsAreFew(num, base, 32);
  }

  // Reading.

  /** The character at position i; the string is followed by a NUL. */
  function At(s: seq<byte>, i: nat): byte {
    if i < |s| then s[i] else 0
  }

  predicate IsSpace(c: byte) {
    c == 32 || 9 <= c <= 13
  }

  function SkipSpace(s: seq<byte>, i: nat): (r: nat)
    requires i <= |s|
    ensures i <= r <= |s| && !IsSpace(At(s, r)) && forall k :: i <= k < r ==> IsSpace(s[k])
    decreases |s| - i
  {
    if IsSpace(At(s, i)) then SkipSpace(s, i + 1) else i
  }

  /** The end of the longest run of digits from position i. */
  function RunEnd(s: seq<byte>, i: nat, base: nat): (r: nat)
    requires i <= |s| && base <= 36
    ensures i <= r <= |s| && Digit(At(s, r)) >= base && AllDigits(s[i..r], base)
    decreases |s| - i
  {
    if Digit(At(s, i)) < base then RunEnd(s, i + 1, base) else i
  }

  /** What comes before the digits: the sign, where the digits start, and their base. */
  datatype Header = Header(negative: bool, start: nat, base: nat)

  /** Past the spaces and the sign; and whether the sign is a minus. */
  function SignEnd(s: seq<byte>): (r: (nat, bool))
    ensures r.0 <= |s|
  {
    var p := SkipSpace(s, 0);
    (if At(s, p) == MINUS || At(s, p) == PLUS then p + 1 else p, At(s, p) == MINUS)
  }

  /** The base that 0x or 0b at position q stands for, if that prefix may be used with `base`. */
  function PrefixBase(s: seq<byte>, q: nat, base: nat): Option<nat> {
    if At(s, q) != ZERO then None
    else if (base == 0 || base == 16) && At(s, q + 1) in [120, 88] then Some(16)
    else if (base == 0 || base == 2) && At(s, q + 1) in [98, 66] then Some(2)
    else None
  }

  function ReadHeader(s: seq<byte>, base: nat): (h: Header)
    requires base <= 36
    ensures h.start <= |s| && 1 <= h.base <= 36
  {
    var ((q, negative), prefix) := (SignEnd(s), PrefixBase(s, SignEnd(s).0, base));
    if prefix.Some? then Header(negative, q + 2, prefix.value)
    else Header(negative, q, if base != 0 then base else if At(s, q) == ZERO then 8 else 10)
  }

  function Clamp(x: int): int {
    if x > LONG_MAX then LONG_MAX else if x < LONG_MIN then LONG_MIN else x
  }

  /** The value of the longest digit run, clamped to a long, and the position just past the run, or
      0 when it is empty. */
  function NumberAt(s: seq<byte>, h: Header): (int, nat)
    requires h.start <= |s| && 1 <= h.base <= 36
  {
    var end := RunEnd(s, h.start, h.base);
    var v := Value(s[h.start..end], h.base);
    (Clamp(if h.negative then 0 - v else v), if end > h.start then end else 0)
  }

  /** strtol: the number after spaces, sign and prefix. */
  function Strtol(s: seq<byte>, base: int): (int, nat) {
    if 0 <= base <= 36 then NumberAt(s, ReadHeader(s, base)) else (0, 0)
  }

  /** The cutoff test: acc * base + c is above the limit exactly when acc is above limit / base, or
      equal to it with c above limit % base. */
  lemma CutoffExact(limit: nat, base: nat, acc: nat, c: nat)
    requires base >= 1 && c < base
    ensures var cutoff, cutlim := limit / base, limit % base;
            (acc > cutoff || (acc == cutoff && c > cutlim)) <==> Extend(acc, base, c) > limit
  {
    QuotientBounds(limit, base);
    CutoffTest(limit, base, limit / base, limit % base, acc, c);
  }

  lemma CutoffTest(limit: nat, base: nat, cutoff: nat, cutlim: nat, acc: nat, c: nat)
    requires cutlim < base && c < base && limit == cutoff * base + cutlim
    ensures acc > cutoff || (acc == cutoff && c > cutlim) <==> Extend(acc, base, c) > limit
  {
    if acc > cutoff {
      TimesMonotonic(cutoff + 1, acc, base);
    } else if acc < cutoff {
      TimesMonotonic(acc + 1, cutoff, base);
    }
  }

  /** The method state of the accumulation loop after a prefix of the run: `any` is 0 before the first
      digit, 1 while acc is the value, and -1 for ever once the value has passed the limit. */
  predicate Accumulated(digits: seq<byte>, base: nat, limit: nat, any: int, acc: u32) {
    if Value(digits, base) > limit then any == -1
    else acc == Value(digits, base) && any == if digits == [] then 0 else 1
  }

  lemma AccumulateStep(digits: seq<byte>, c: byte, base: nat, limit: nat, any: int, acc: u32)
    requires base >= 1 && Digit(c) < base && Accumulated(digits, base, limit, any, acc) && limit <= 0x8000_0000
    ensures any >= 0 ==>
              (Extend(acc, base, Digit(c)) > limit <==> Value(digits + [c], base) > limit)
    ensures any >= 0 && Extend(acc, base, Digit(c)) <= limit ==>
              Accumulated(digits + [c], base, limit, 1, Extend(acc, base, Digit(c)))
    ensures any < 0 ==> Value(digits + [c], base) > limit
  {
    ValueAppend(digits, c, base);
    TimesMonotonic(1, base, Value(digits, base));
  }

  /** The beginning of strtol, one character at a time. */
  method ScanHeader(s: seq<byte>, base: nat) returns (h: Header)
    requires base <= 36
    ensures h == ReadHeader(s, base)
  {
    var next, negative, b := 0, false, base;
    while IsSpace(At(s, next))
      invariant next <= |s| && SkipSpace(s, next) == SkipSpace(s, 0)
      decreases |s| - next
    {
      next := next + 1;
    }
    if At(s, next) == MINUS {
      negative, next := true, next + 1;
    } else if At(s, next) == PLUS {
      next := next + 1;
    }
    if (b == 0 || b == 16) && At(s, next) == ZERO && At(s, next + 1) in [120, 88] {
      next, b := next + 2, 16;
    } else if (b == 0 || b == 2) && At(s, next) == ZERO && At(s, next + 1) in [98, 66] {
      next, b := next + 2, 2;
    }
    if b == 0 {
      b := if At(s, next) == ZERO then 8 else 10;
    }
    h := Header(negative, next, b);
  }

  lemma Accumulation(digits: seq<byte>, c: byte, base: nat, limit: u32, any: int, acc: u32)
    requires base >= 1 && Digit(c) < base && Accumulated(digits, base, limit, any, acc) && limit <= 0x8000_0000
    ensures var over := any < 0 || acc > limit / base || (acc == limit / base && Digit(c) > limit % base);
            if over then Accumulated(digits + [c], base, limit, -1, acc)
            else 0 <= Extend(acc, base, Digit(c)) <= limit
                 && Accumulated(digits + [c], base, limit, 1, Extend(acc, base, Digit(c)))
  {
    CutoffExact(limit, base, acc, Digit(c));
    AccumulateStep(digits, c, base, limit, any, acc);
  }

  /** strtol, with its accumulator of 32 bits, which never wraps, and its cutoff test. */
  method StrtolLoop(s: seq<byte>, base: int) returns (value: int, end: nat)
    ensures (value, end) == Strtol(s, base)
  {
    hide Accumulated, Value, ReadHeader, Clamp, Extend, AllDigits, Digit;
    if base < 0 || base > 36 {
      return 0, 0;
    }
    var h := ScanHeader(s, base);
    var i, b := h.start, h.base;
    var limit: u32 := if h.negative then 0x8000_0000 else 0x7FFF_FFFF;
    var cutoff, cutlim := limit / b, limit % b;
    var acc: u32, any := 0, 0;
    assert s[i..i] == [];
    NothingAccumulated(b, limit);
    while Digit(At(s, i)) < b
      invariant h.start <= i <= |s| && Accumulated(s[h.start..i], b, limit, any, acc)
      invariant RunEnd(s, i, b) == RunEnd(s, h.start, b)
      decreases |s| - i
    {
      var c := Digit(At(s, i));
      assert s[h.start..i + 1] == s[h.start..i] + [s[i]];
      Accumulation(s[h.start..i], s[i], b, limit, any, acc);
      if any < 0 || acc > cutoff || (acc == cutoff && c > cutlim) {
        any := -1;
      } else {
        any := 1;
        acc := Extend(acc, b, c);
      }
      i := i + 1;
    }
    AccumulatedIsClamped(s[h.start..i], b, h.negative, limit, any, acc);
    if any < 0 {
      value := if h.negative then LONG_MIN else LONG_MAX;
    } else {
      value := Signed(if h.negative then Wrap(0 - acc) else acc);
    }
    end := if any != 0 then i else 0;
  }

  lemma NothingAccumulated(base: nat, limit: nat)
    ensures Accumulated([], base, limit, 0, 0)
  {}

  lemma AccumulatedIsClamped(digits: seq<byte>, base: nat, negative: bool, limit: u32, any: int, acc: u32)
    requires Accumulated(digits, base, limit, any, acc) && limit == if negative then 0x8000_0000 else 0x7FFF_FFFF
    ensures Clamp(if negative then 0 - Value(digits, base) else Value(digits, base)) ==
            if any < 0 then (if negative then LONG_MIN else LONG_MAX)
            else Signed(if negative then Wrap(0 - acc) else acc)
    ensures any == 0 <==> digits == []
  {
    hide Value;
    NoDigits(base);
  }

  lemma {:induction false} RunToEnd(s: seq<byte>, i: nat, base: nat)
    requires i <= |s| && base <= 36 && forall k :: i <= k < |s| ==> Digit(s[k]) < base
    ensures RunEnd(s, i, base) == |s|
    decreases |s| - i
  {
    if i < |s| {
      RunToEnd(s, i + 1, base);
    }
  }

  /** White space, a sign or none, digits, and what cannot be a digit: strtol gives the value with that sign, cut
      to a long, and the end of the digits. A lone zero before a letter that would make it a prefix is left to
      StandardExactly. */
  lemma StrtolReads(space: seq<byte>, sign: seq<byte>, t: seq<byte>, rest: seq<byte>, base: nat)
    requires 2 <= base <= 36 && t != [] && AllDigits(t, base) && (rest == [] || Digit(rest[0]) >= base)
    requires forall c :: c in space ==> c == ' ' as int || '\t' as int <= c <= '\r' as int
    requires sign == [] || sign == ['+' as int] || sign == ['-' as int]
    requires !(t == ['0' as int] && rest != [] && rest[0] in ['x' as int, 'X' as int, 'b' as int, 'B' as int])
    ensures var v := Value(t, base);
            Strtol(space + sign + t + rest, base)
            == (Clamp(if sign == ['-' as int] then 0 - v else v), |space| + |sign| + |t|)
  {
    hide Value, SkipSpace, RunEnd, Clamp, ReadHeader, AllDigits, Digit;
    var s, q := space + sign + t + rest, |space| + |sign|;
    PartsOf(space, sign, t, rest);
    AllDigitsAre(t, base);
    DigitOfNul();
    RunIs(s, q, q + |t|, base);
    HeaderOf(space, sign, t, rest, base);
    assert s[q..q + |t|] == t;
  }

  lemma AllDigitsAre(t: seq<byte>, base: nat)
    ensures AllDigits(t, base) <==> forall k :: 0 <= k < |t| ==> Digit(t[k]) < base
  {}

  lemma DigitOfNul()
    ensures Digit(0) == 36
  {}

  lemma PartsOf(space: seq<byte>, sign: seq<byte>, t: seq<byte>, rest: seq<byte>)
    ensures var s, q := space + sign + t + rest, |space| + |sign|;
            && (forall k :: 0 <= k < |space| ==> s[k] == space[k])
            && (sign != [] ==> At(s, |space|) == sign[0])
            && (forall k :: q <= k < q + |t| ==> s[k] == t[k - q])
            && At(s, q + |t|) == At(rest, 0)
  {}

  lemma HeaderOf(space: seq<byte>, sign: seq<byte>, t: seq<byte>, rest: seq<byte>, base: nat)
    requires 2 <= base <= 36 && t != [] && AllDigits(t, base) && (rest == [] || Digit(rest[0]) >= base)
    requires forall c :: c in space ==> c == ' ' as int || '\t' as int <= c <= '\r' as int
    requires sign == [] || sign == ['+' as int] || sign == ['-' as int]
    requires !(t == ['0' as int] && rest != [] && rest[0] in ['x' as int, 'X' as int, 'b' as int, 'B' as int])
    ensures ReadHeader(space + sign + t + rest, base) == Header(sign == ['-' as int], |space| + |sign|, base)
  {
    hide SkipSpace;
    var s, p, q := space + sign + t + rest, |space|, |space| + |sign|;
    PartsOf(space, sign, t, rest);
    assert At(s, q) == t[0] && Digit(t[0]) < base;
    assert forall k :: 0 <= k < p ==> space[k] in space;
    SpacesSkipped(s, 0, p);
    if |t| > 1 {
      assert At(s, q + 1) == t[1] && Digit(t[1]) < base;
    }
  }

  lemma {:induction false} SpacesSkipped(s: seq<byte>, i: nat, p: nat)
    requires i <= p <= |s| && !IsSpace(At(s, p)) && forall k :: i <= k < p ==> IsSpace(s[k])
    ensures SkipSpace(s, i) == p
    decreases p - i
  {
    if i < p {
      SpacesSkipped(s, i + 1, p);
    }
  }

  lemma {:induction false} RunIs(s: seq<byte>, i: nat, end: nat, base: nat)
    requires i <= end <= |s| && base <= 36 && Digit(At(s, end)) >= base
    requires forall k :: i <= k < end ==> Digit(s[k]) < base
    ensures RunEnd(s, i, base) == end
    decreases end - i
  {
    if i < end {
      RunIs(s, i + 1, end, base);
    }
  }

  /** Where no number starts, or in a base that is none, strtol gives zero and the start of the string. */
  lemma StrtolStops(s: seq<byte>, base: int)
    requires 0 <= base <= 36 ==>
               && At(s, 0) !in {' ' as int, '\t' as int, '\n' as int, 11, 12, '\r' as int, '+' as int, '-' as int}
               && Digit(At(s, 0)) >= if base == 0 then 10 else base
    ensures Strtol(s, base) == (0, 0)
  {
    hide RunEnd, SkipSpace, Value;
    if 0 <= base <= 36 {
      NoSpaces(s);
      NoNumber(s, ReadHeader(s, base));
    }
  }

  /** At the start of the number stand 0x or 0X, or 0b or 0B, and the base lets the code take it. */
  predicate HexPrefix(s: seq<byte>, base: nat) {
    var q := SignEnd(s).0;
    (base == 0 || base == 16) && At(s, q) == '0' as int && (At(s, q + 1) == 'x' as int || At(s, q + 1) == 'X' as int)
  }

  predicate BinaryPrefix(s: seq<byte>, base: nat) {
    var q := SignEnd(s).0;
    (base == 0 || base == 2) && At(s, q) == '0' as int && (At(s, q + 1) == 'b' as int || At(s, q + 1) == 'B' as int)
  }

  /** 0x is taken as a prefix, and no hexadecimal digit follows it. */
  predicate Dangling(s: seq<byte>, base: nat) {
    HexPrefix(s, base) && Digit(At(s, SignEnd(s).0 + 2)) >= 16
  }

  /** strtol as C99 has it (section 7.20.1.4): the only prefix is 0x, for base 16 or none, and it is
      part of the number only when a hexadecimal digit follows it. */
  function Standard(s: seq<byte>, base: nat): (int, nat)
    requires base == 0 || 2 <= base <= 36
  {
    var (q, negative) := SignEnd(s);
    var hex := (base == 0 || base == 16) && At(s, q) == ZERO && At(s, q + 1) in [120, 88] && Digit(At(s, q + 2)) < 16;
    NumberAt(s, if hex then Header(negative, q + 2, 16)
                else Header(negative, q, if base != 0 then base else if At(s, q) == ZERO then 8 else 10))
  }

  lemma RunStops(s: seq<byte>, i: nat, base: nat)
    requires i <= |s| && base <= 36 && Digit(At(s, i)) >= base
    ensures RunEnd(s, i, base) == i
  {}

  lemma RunOfOne(s: seq<byte>, i: nat, base: nat)
    requires i < |s| && base <= 36 && Digit(s[i]) < base && Digit(At(s, i + 1)) >= base
    ensures RunEnd(s, i, base) == i + 1 && Value(s[i..i + 1], base) == Digit(s[i])
  {
    RunStops(s, i + 1, base);
    assert s[i..i + 1] == [] + [s[i]];
    ValueAppend([], s[i], base);
    NoDigits(base);
    hide Value;
  }

  lemma NoSpaces(s: seq<byte>)
    requires !IsSpace(At(s, 0))
    ensures SkipSpace(s, 0) == 0
  {}

  lemma NoNumber(s: seq<byte>, h: Header)
    requires h.start <= |s| && 1 <= h.base <= 36 && Digit(At(s, h.start)) >= h.base
    ensures NumberAt(s, h) == (0, 0)
  {
    assert s[h.start..h.start] == [];
  }

  lemma LoneZero(s: seq<byte>, h: Header)
    requires h.start < |s| && 2 <= h.base <= 36 && s[h.start] == ZERO && Digit(At(s, h.start + 1)) >= h.base
    ensures NumberAt(s, h) == (0, h.start + 1)
  {
    hide Value, RunEnd;
    RunOfOne(s, h.start, h.base);
  }

  lemma {:induction false} ZeroValue(t: seq<byte>, base: nat)
    requires base >= 2 && AllDigits(t, base)
    ensures Value(t, base) == 0 <==> forall i :: 0 <= i < |t| ==> t[i] == ZERO
    decreases |t|
  {
    if t == [] {
      NoDigits(base);
    } else {
      var front, last := t[..|t| - 1], t[|t| - 1];
      assert front + [last] == t;
      ZeroValue(front, base);
      ValueAppend(front, last, base);
      hide Value;
      if Value(front, base) > 0 {
        TimesMonotonic(1, Value(front, base), base);
      }
      assert Digit(last) == 0 <==> last == ZERO;
    }
  }

  predicate AllZeros(s: seq<byte>, from: nat, to: nat)
    requires to <= |s|
  {
    forall k :: from <= k < to ==> s[k] == ZERO
  }

  /** The number read is zero exactly when its digits are. */
  lemma NumberIsZero(s: seq<byte>, h: Header)
    requires h.start <= |s| && 2 <= h.base <= 36
    ensures NumberAt(s, h).0 == 0 <==> AllZeros(s, h.start, RunEnd(s, h.start, h.base))
  {
    var end := RunEnd(s, h.start, h.base);
    var run := s[h.start..end];
    ZeroValue(run, h.base);
    hide RunEnd, Value;
    if forall i :: 0 <= i < |run| ==> run[i] == ZERO {
      forall k | h.start <= k < end
        ensures s[k] == ZERO
      {
        assert s[k] == run[k - h.start];
      }
    }
  }

  /** A number that is not empty ends past its start. */
  lemma NumberEnd(s: seq<byte>, h: Header)
    requires h.start <= |s| && 1 <= h.base <= 36
    ensures NumberAt(s, h).1 == 0 || NumberAt(s, h).1 > h.start
  {}

  lemma ReadsBinary(s: seq<byte>, base: nat)
    requires (base == 0 || 2 <= base <= 36) && BinaryPrefix(s, base)
    ensures var (q, negative) := SignEnd(s);
            && q + 2 <= |s| && Strtol(s, base) == NumberAt(s, Header(negative, q + 2, 2))
            && Standard(s, base) == (0, q + 1) && Strtol(s, base).1 != q + 1
  {
    hide NumberAt, SkipSpace, RunEnd;
    var (q, negative) := SignEnd(s);
    LoneZero(s, Header(negative, q, if base == 0 then 8 else base));
    NumberEnd(s, Header(negative, q + 2, 2));
  }

  lemma ReadsHexadecimal(s: seq<byte>, base: nat)
    requires (base == 0 || 2 <= base <= 36) && !BinaryPrefix(s, base)
    ensures if Dangling(s, base) then Strtol(s, base) == (0, 0) && Standard(s, base) == (0, SignEnd(s).0 + 1)
            else Strtol(s, base) == Standard(s, base)
  {
    hide NumberAt, SkipSpace, RunEnd;
    if Dangling(s, base) {
      var (q, negative) := SignEnd(s);
      NoNumber(s, ReadHeader(s, base));
      LoneZero(s, Header(negative, q, if base == 0 then 8 else base));
    }
  }

  /** Against the standard: the end is the same exactly when no binary prefix is taken and no prefix
      dangles; the value, exactly when no binary prefix is taken or only zeros follow it. Base 1, which
      C99 leaves undefined, is left out. */
  lemma StandardExactly(s: seq<byte>, base: nat)
    requires base == 0 || 2 <= base <= 36
    ensures Strtol(s, base).1 == Standard(s, base).1 <==> !BinaryPrefix(s, base) && !Dangling(s, base)
    ensures BinaryPrefix(s, base) ==> SignEnd(s).0 + 2 <= |s|
    ensures Strtol(s, base).0 == Standard(s, base).0 <==>
            (BinaryPrefix(s, base) ==> var d := SignEnd(s).0 + 2; AllZeros(s, d, RunEnd(s, d, 2)))
  {
    hide Strtol, Standard, NumberAt, RunEnd, SkipSpace, AllZeros, AllDigits;
    if BinaryPrefix(s, base) {
      ReadsBinary(s, base);
      var (q, negative) := SignEnd(s);
      NumberIsZero(s, Header(negative, q + 2, 2));
    } else {
      ReadsHexadecimal(s, base);
    }
  }

  /** "0b1" is one to the code, with nothing left over, and zero to the standard, which stops at the b. */
  lemma BinaryDiffers()
    ensures Strtol([48, 98, 49], 0) == (1, 3) && Standard([48, 98, 49], 0) == (0, 1)
  {
    hide SkipSpace, RunEnd, Value, Strtol, Standard;
    var s: seq<byte> := [48, 98, 49];
    NoSpaces(s);
    ReadsBinary(s, 0);
    RunOfOne(s, 2, 2);
  }

  /** "0x" has no number in it for the code; for the standard it starts with a zero. */
  lemma DanglingDiffers()
    ensures Strtol([48, 120], 16) == (0, 0) && Standard([48, 120], 16) == (0, 1)
  {
    hide SkipSpace, RunEnd, Value, Strtol, Standard, NumberAt;
    var s: seq<byte> := [48, 120];
    NoSpaces(s);
    ReadsHexadecimal(s, 16);
  }

  // Print, then read.

  /** A written numeral, perhaps after a minus, is read back whole. */
  lemma HeaderOfNumeral(negative: bool, num: nat, base: nat)
    requires 2 <= base <= 16
    ensures var s := if negative then [MINUS] + Numeral(num, base) else Numeral(num, base);
            var p := if negative then 1 else 0;
            && ReadHeader(s, base) == Header(negative, p, base) && RunEnd(s, p, base) == |s|
            && s[p..] == Numeral(num, base)
  {
    hide Numeral, RunEnd, Value, SkipSpace;
    NumeralMeans(num, base);
    var t := Numeral(num, base);
    var s := if negative then [MINUS] + t else t;
    var p := if negative then 1 else 0;
    assert s[p..] == t;
    assert forall k :: p <= k < |s| ==> s[k] == t[k - p];
    RunToEnd(s, p, base);
    NoSpaces(s);
    hide Canonical;
    assert At(s, p) == ZERO ==> At(s, p + 1) == 0;
  }

  lemma NumberToEnd(s: seq<byte>, h: Header)
    requires h.start < |s| && 1 <= h.base <= 36 && RunEnd(s, h.start, h.base) == |s|
    ensures NumberAt(s, h) ==
            (Clamp(if h.negative then 0 - Value(s[h.start..], h.base) else Value(s[h.start..], h.base)), |s|)
  {
    hide Value, RunEnd, Clamp, AllDigits, Digit;
    assert s[h.start..|s|] == s[h.start..];
  }

  /** For every number and base: strtol reads back what was printed, cut at LONG_MAX, and stops at
      the end of it. */
  lemma PrintThenParse(num: u32, base: nat)
    requires 2 <= base <= 16
    ensures Strtol(Numeral(num, base), base) == (Min(num, LONG_MAX), |Numeral(num, base)|)
  {
    hide RunEnd, Value, Canonical, NumberAt, ReadHeader;
    NumeralMeans(num, base);
    HeaderOfNumeral(false, num, base);
    NumberToEnd(Numeral(num, base), Header(false, 0, base));
  }

  /** For every 32-bit integer, INT_MIN included: %d then strtol is the identity. */
  lemma SignedPrintThenParse(num: u32)
    ensures var t := Shown('d', num, []).value; Strtol(t, 10) == (Signed(num), |t|)
  {
    hide Numeral, RunEnd, Value, Canonical, NumberAt, ReadHeader;
    var magnitude: u32 := Wrap(Abs(Signed(num)));
    var t, negative := Shown('d', num, []).value, Signed(num) < 0;
    WrapSmall(Abs(Signed(num)));
    NumeralMeans(magnitude, 10);
    HeaderOfNumeral(negative, magnitude, 10);
    NumberToEnd(t, Header(negative, if negative then 1 else 0, 10));
  }

  // atoi.

  /** isxdigit and hexval. */
  predicate IsXDigit(c: byte) {
    48 <= c <= 57 || 65 <= c <= 70 || 97 <= c <= 102
  }

  function HexVal(c: byte): (v: nat)
    ensures IsXDigit(c) <==> Digit(c) < 16
    ensures IsXDigit(c) ==> v == Digit(c)
  {
    if 48 <= c <= 57 then c - 48 else if 97 <= c <= 102 then c - 87 else if 65 <= c <= 70 then c - 55 else 0
  }

  /** atoi, with a `long` that wraps: the value, modulo 2^32 and read as signed, of the digits after
      0x, or of the decimal digits after an optional minus. */
  function Atoi(s: seq<byte>): int {
    if StartsWithHex(s) then Signed(Wrap(Value(s[2..RunEnd(s, 2, 16)], 16)))
    else
      var p := if At(s, 0) == MINUS then 1 else 0;
      var v := Value(s[p..RunEnd(s, p, 10)], 10);
      Signed(Wrap(if p == 1 then 0 - v else v))
  }

  /** Wrapping early and wrapping late agree. */
  lemma WrapExtend(v: nat, base: nat, d: int)
    ensures Wrap(Wrap(v) * base + d) == Wrap(v * base + d)
  {
    var k := v / 0x1_0000_0000;
    assert Wrap(v) * base == v * base - k * base * 0x1_0000_0000;
    WrapShift(v * base + d, k * base);
  }

  lemma WrapShift(x: int, k: int)
    ensures Wrap(x - k * 0x1_0000_0000) == Wrap(x)
  {}

  lemma WrapMinus(v: nat)
    ensures Wrap(0 - Wrap(v)) == Wrap(0 - v)
  {}

  lemma AtoiStep(s: seq<byte>, start: nat, i: nat, base: nat)
    requires start <= i < |s| && base <= 36 && Digit(s[i]) < base
    ensures Wrap(Value(s[start..i + 1], base)) == Wrap(Wrap(Value(s[start..i], base)) * base + Digit(s[i]))
    ensures RunEnd(s, i, base) == RunEnd(s, i + 1, base)
  {
    hide Wrap, Value;
    assert s[start..i + 1] == s[start..i] + [s[i]];
    ValueAppend(s[start..i], s[i], base);
    WrapExtend(Value(s[start..i], base), base, Digit(s[i]));
  }

  lemma AtoiStart(s: seq<byte>, start: nat, base: nat)
    requires start <= |s|
    ensures Wrap(Value(s[start..start], base)) == 0
  {
    assert s[start..start] == [];
  }

  /** The loop of atoi for either base: each operation wraps, and for the decimal one the character
      is added before '0' is taken away (atoi.c:28). */
  method Accumulate(s: seq<byte>, start: nat, hex: bool) returns (value: u32)
    requires start <= |s|
    ensures var base := if hex then 16 else 10; value == Wrap(Value(s[start..RunEnd(s, start, base)], base))
  {
    hide Value, Wrap, RunEnd, HexVal;
    ghost var base := if hex then 16 else 10;
    var i := start;
    value := 0;
    AtoiStart(s, start, base);
    while At(s, i) != 0 && (if hex then IsXDigit(At(s, i)) else 48 <= At(s, i) <= 57)
      invariant start <= i <= |s| && value == Wrap(Value(s[start..i], base))
      invariant RunEnd(s, i, base) == RunEnd(s, start, base)
      decreases |s| - i
    {
      AtoiStep(s, start, i, base);
      if hex {
        value := Wrap(value * 16 + HexVal(s[i]));
      } else {
        WrapSum(value * 10, s[i]);
        value := Wrap(Wrap(Wrap(value * 10) + s[i]) - ZERO);
      }
      i := i + 1;
    }
    RunStops(s, i, base);
  }

  lemma WrapSum(x: nat, c: byte)
    ensures Wrap(Wrap(Wrap(x) + c) - ZERO) == Wrap(x + c - ZERO)
  {}

  method AtoiLoop(s: seq<byte>) returns (r: int)
    ensures r == Atoi(s)
  {
    hide Value, RunEnd, Wrap;
    if At(s, 0) == ZERO && At(s, 1) == 120 {
      var value := Accumulate(s, 2, true);
      return Signed(value);
    }
    var negative := At(s, 0) == MINUS;
    var start := if negative then 1 else 0;
    var value := Accumulate(s, start, false);
    WrapMinus(Value(s[start..RunEnd(s, start, 10)], 10));
    var v: int := value;
    r := Signed(if negative then Wrap(0 - v) else v);
  }

  // atoi against the standard, which has it read what strtol reads in base 10 (section 7.20.1.2).

  function Power16(k: nat): nat { if k == 0 then 1 else 16 * Power16(k - 1) }

  /** The last digits of a hexadecimal run are its remainder. */
  lemma {:induction false} HexSplit(front: seq<byte>, low: seq<byte>)
    requires AllDigits(low, 16)
    ensures Value(front + low, 16) == Value(front, 16) * Power16(|low|) + Value(low, 16)
    ensures Value(low, 16) < Power16(|low|)
    decreases |low|
  {
    hide Value, Extend, Power16;
    PowerStep(|low|);
    if low == [] {
      assert front + low == front;
      NoDigits(16);
    } else {
      var shorter, last := low[..|low| - 1], low[|low| - 1];
      HexSplit(front, shorter);
      assert shorter + [last] == low && front + low == front + shorter + [last];
      ValueAppend(shorter, last, 16);
      ValueAppend(front + shorter, last, 16);
      SplitStep(Value(front, 16), Power16(|shorter|), Value(shorter, 16), Digit(last));
    }
  }

  lemma PowerStep(k: nat)
    ensures Power16(0) == 1 && (k > 0 ==> Power16(k) == 16 * Power16(k - 1))
  {}

  lemma SplitStep(high: nat, power: nat, low: nat, d: nat)
    requires low < power && d < 16
    ensures Extend(high * power + low, 16, d) == high * (16 * power) + Extend(low, 16, d)
    ensures Extend(low, 16, d) < 16 * power
  {
    assert high * power * 16 == high * (16 * power);
  }

  lemma EightHexDigits()
    ensures Power16(8) == 0x1_0000_0000
  {
    assert Power16(4) == 0x1_0000;
  }

  lemma {:induction false} PowerGrows(k: nat, n: nat)
    requires k <= n
    ensures Power16(k) <= Power16(n)
    decreases n
  {
    if k < n {
      PowerGrows(k, n - 1);
    }
  }

  lemma WrapLow(high: nat, low: u32)
    ensures Wrap(high * 0x1_0000_0000 + low) == low
  {}

  lemma LowWord(t: seq<byte>, low: seq<byte>)
    requires AllDigits(t, 16) && low == t[if |t| > 8 then |t| - 8 else 0..]
    ensures Wrap(Value(t, 16)) == Value(low, 16)
  {
    hide Value, Wrap, Power16;
    var cut := if |t| > 8 then |t| - 8 else 0;
    assert t[..cut] + low == t;
    HexSplit(t[..cut], low);
    EightHexDigits();
    PowerGrows(|low|, 8);
    if cut == 0 {
      assert low == t;
      WrapSmall(Value(t, 16));
    } else {
      WrapLow(Value(t[..cut], 16), Value(low, 16));
    }
  }

  /** The low 32 bits of a hexadecimal run are zero exactly when its last eight digits are. */
  lemma LowWordIsZero(t: seq<byte>)
    requires AllDigits(t, 16)
    ensures Wrap(Value(t, 16)) == 0 <==> forall i :: 0 <= i < |t| && |t| - 8 <= i ==> t[i] == ZERO
  {
    hide Value, Wrap;
    var cut := if |t| > 8 then |t| - 8 else 0;
    var low := t[cut..];
    LowWord(t, low);
    ZeroValue(low, 16);
    hide AllDigits, Digit;
    if forall i :: 0 <= i < |low| ==> low[i] == ZERO {
      forall i | 0 <= i < |t| && |t| - 8 <= i
        ensures t[i] == ZERO
      {
        assert t[i] == low[i - cut];
      }
    }
  }

  /** The decimal number that the standard's atoi reads. */
  function DecimalValue(s: seq<byte>): int {
    var (q, negative) := SignEnd(s);
    var v := Value(s[q..RunEnd(s, q, 10)], 10);
    if negative then 0 - v else v
  }

  predicate StartsWithHex(s: seq<byte>) {
    At(s, 0) == ZERO && At(s, 1) == 120
  }

  /** When the code's atoi agrees with the standard's: after 0x, if the last eight hexadecimal digits are
      zeros; behind spaces or a plus, which it does not skip, if the digits are zeros; else always. */
  predicate AtoiAgrees(s: seq<byte>) {
    if StartsWithHex(s) then
      var end := RunEnd(s, 2, 16); AllZeros(s, if end > 10 then end - 8 else 2, end)
    else if IsSpace(At(s, 0)) || At(s, 0) == PLUS then
      var q := SignEnd(s).0; AllZeros(s, q, RunEnd(s, q, 10))
    else true
  }

  lemma AtoiHexDiffers(s: seq<byte>)
    requires StartsWithHex(s)
    ensures Standard(s, 10).0 == 0 && (Atoi(s) == 0 <==> AtoiAgrees(s))
  {
    NoSpaces(s);
    LoneZero(s, Header(false, 0, 10));
    var end := RunEnd(s, 2, 16);
    LowWordIsZero(s[2..end]);
    hide Value, RunEnd, NumberAt, SkipSpace, Wrap, AllDigits;
    ShiftedZeros(s, end);
  }

  lemma ShiftedZeros(s: seq<byte>, end: nat)
    requires 2 <= end <= |s|
    ensures var run := s[2..end];
            AllZeros(s, if end > 10 then end - 8 else 2, end) <==>
            forall i :: 0 <= i < |run| && |run| - 8 <= i ==> run[i] == ZERO
  {
    var run := s[2..end];
    if forall i :: 0 <= i < |run| && |run| - 8 <= i ==> run[i] == ZERO {
      forall k | (if end > 10 then end - 8 else 2) <= k < end
        ensures s[k] == ZERO
      {
        assert s[k] == run[k - 2];
      }
    }
  }

  lemma NoDigitYet(s: seq<byte>)
    requires IsSpace(At(s, 0)) || At(s, 0) == PLUS
    ensures Atoi(s) == 0
  {
    hide Value, RunEnd, Wrap;
    RunStops(s, 0, 10);
    AtoiStart(s, 0, 10);
  }

  lemma AtoiUnskipped(s: seq<byte>)
    requires IsSpace(At(s, 0)) || At(s, 0) == PLUS
    ensures Atoi(s) == 0 && (Standard(s, 10).0 == 0 <==> AtoiAgrees(s))
  {
    hide Value, NumberAt, SkipSpace, RunEnd, AllZeros, AllDigits, Digit;
    NoDigitYet(s);
    var (q, negative) := SignEnd(s);
    NumberIsZero(s, Header(negative, q, 10));
  }

  /** For every string whose number a `long` can hold, as the standard requires, the code's atoi gives
      the standard's result exactly under the condition above. */
  lemma AtoiStandardExactly(s: seq<byte>)
    requires LONG_MIN <= DecimalValue(s) <= LONG_MAX
    ensures Standard(s, 10).0 == DecimalValue(s)
    ensures Atoi(s) == DecimalValue(s) <==> AtoiAgrees(s)
  {
    hide Value, RunEnd, SkipSpace;
    if StartsWithHex(s) {
      AtoiHexDiffers(s);
    } else if IsSpace(At(s, 0)) || At(s, 0) == PLUS {
      AtoiUnskipped(s);
    } else {
      NoSpaces(s);
    }
  }

  /** Digits of any number, after a minus or not, or after 0x, and what is no digit: atoi gives the integer of 32
      bits that differs from the number by a multiple of 2^32. */
  lemma AtoiReads(sign: seq<byte>, t: seq<byte>, rest: seq<byte>, base: nat)
    requires if base == 16 then sign == ['0' as int, 'x' as int]
             else base == 10 && (sign == [] || sign == ['-' as int]) && !StartsWithHex(sign + t + rest)
    requires AllDigits(t, base) && (rest == [] || Digit(rest[0]) >= base) && At(sign + t + rest, |sign|) != '-' as int
    ensures var r, v := Atoi(sign + t + rest), Value(t, base);
            -0x8000_0000 <= r < 0x8000_0000 && (r - if sign == ['-' as int] then 0 - v else v) % 0x1_0000_0000 == 0
  {
    hide Value, RunEnd, Digit, AllDigits, Wrap, Signed, Atoi;
    var v: int := Value(t, base);
    RunAfter(sign, t, rest, base);
    AtoiOfRun(sign + t + rest, if base == 16 || sign != [] then |sign| else 0, |sign| + |t|, base);
    SignedIsCongruent(if sign == ['-' as int] then 0 - v else v);
  }

  lemma RunAfter(sign: seq<byte>, t: seq<byte>, rest: seq<byte>, base: nat)
    requires base <= 36 && AllDigits(t, base) && (rest == [] || Digit(rest[0]) >= base)
    ensures var s, q := sign + t + rest, |sign|;
            && RunEnd(s, q, base) == q + |t| && s[q..q + |t|] == t
            && forall k :: 0 <= k < |sign| ==> s[k] == sign[k]
  {
    hide RunEnd, Digit, AllDigits;
    AllDigitsAre(t, base);
    DigitOfNul();
    PartsOf([], sign, t, rest);
    assert [] + sign + t + rest == sign + t + rest;
    RunIs(sign + t + rest, |sign|, |sign| + |t|, base);
  }

  /** What atoi makes of the run it finds. */
  lemma AtoiOfRun(s: seq<byte>, q: nat, end: nat, base: nat)
    requires q <= end <= |s| && base <= 36 && RunEnd(s, q, base) == end
    requires if base == 16 then q == 2 && StartsWithHex(s)
             else base == 10 && !StartsWithHex(s) && q == if At(s, 0) == MINUS then 1 else 0
    ensures var v := Value(s[q..end], base);
            Atoi(s) == Signed(Wrap(if base == 10 && q == 1 then 0 - v else v))
  {
    hide Value, RunEnd, Wrap, Signed;
  }

  lemma SignedIsCongruent(x: int)
    ensures var r := Signed(Wrap(x)); -0x8000_0000 <= r < 0x8000_0000 && (r - x) % 0x1_0000_0000 == 0
  {
    var q := x / 0x1_0000_0000;
    assert x == q * 0x1_0000_0000 + Wrap(x);
  }

  /** For every 32-bit integer: %d then atoi is the identity. */
  lemma SignedPrintThenAtoi(num: u32)
    ensures Atoi(Shown('d', num, []).value) == Signed(num)
  {
    hide Numeral, RunEnd, Value, ReadHeader;
    var magnitude: u32 := Wrap(Abs(Signed(num)));
    var t, negative := Shown('d', num, []).value, Signed(num) < 0;
    var p := if negative then 1 else 0;
    WrapSmall(Abs(Signed(num)));
    NumeralMeans(magnitude, 10);
    HeaderOfNumeral(negative, magnitude, 10);
    assert t[p..|t|] == t[p..];
    assert Numeral(magnitude, 10)[0] != MINUS;
  }

  /** %x after 0x, then atoi: the 32 bits read as signed. */
  lemma HexPrintThenAtoi(num: u32)
    ensures Atoi([ZERO, 120] + Shown('x', num, []).value) == Signed(num)
  {
    hide Numeral, Value;
    var t := Numeral(num, 16);
    var s := [ZERO, 120] + t;
    NumeralMeans(num, 16);
    RunToEnd(s, 2, 16);
    assert s[2..|s|] == t;
    WrapSmall(num);
  }

  /** No intermediate value of the decimal loop leaves the range of `long`. */
  predicate StaysInLong(t: seq<byte>) {
    forall k :: 0 <= k < |t| ==> Value(t[..k], 10) * 10 + t[k] <= LONG_MAX
  }

  lemma {:induction false} PrefixSmaller(t: seq<byte>, k: nat)
    requires k <= |t|
    ensures Value(t[..k], 10) <= Value(t, 10)
    decreases |t|
  {
    if k == |t| {
      assert t[..k] == t;
    } else {
      PrefixSmaller(t[..|t| - 1], k);
      assert t[..|t| - 1][..k] == t[..k];
    }
  }

  lemma DigitAppended(t: seq<byte>, k: nat)
    requires k < |t| && AllDigits(t, 10)
    ensures Value(t[..k], 10) * 10 + t[k] == Value(t[..k + 1], 10) + 48
  {
    assert t[..k + 1] == t[..k] + [t[k]];
    ValueAppend(t[..k], t[k], 10);
    assert Digit(t[k]) == t[k] - 48;
  }

  /** Since '0' is taken away last, a run of decimal digits stays in range exactly when its value is
      at most LONG_MAX - 48: larger printed numbers rely on the wrap. */
  lemma StaysInLongExactly(t: seq<byte>)
    requires t != [] && AllDigits(t, 10)
    ensures StaysInLong(t) <==> Value(t, 10) + 48 <= LONG_MAX
  {
    hide Value, AllDigits, Digit;
    var last := |t| - 1;
    DigitAppended(t, last);
    assert t[..last + 1] == t;
    if Value(t, 10) + 48 <= LONG_MAX {
      forall k | 0 <= k < |t|
        ensures Value(t[..k], 10) * 10 + t[k] <= LONG_MAX
      {
        DigitAppended(t, k);
        PrefixSmaller(t, k + 1);
      }
    }
  }
}
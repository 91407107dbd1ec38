/** The machine types of the 32-bit build: bytes, 32-bit unsigned words and their wrap-around. */
module Words {

  type byte = x: int | 0 <= x < 0x100

  type u32 = x: int | 0 <= x < 0x1_0000_0000

  const WORD: int := 0x1_0000_0000

  /** The value an unsigned 32-bit operation leaves in a register. */
  function Wrap(x: int): u32 {
    x % 0x1_0000_0000
  }

  lemma WrapSmall(x: int)
    requires 0 <= x < 0x1_0000_0000
    ensures Wrap(x) == x
  {}

  function Max(a: int, b: int): int { if a > b then a else b }

  function Min(a: int, b: int): int { if a < b then a else b }

  lemma TimesMonotonic(a: int, b: int, c: nat)
    requires a <= b
    ensures a * c <= b * c
  {}

  /** Unsigned division. */
  function Quotient(x: u32, n: nat): (r: u32)
    requires n > 0
    ensures x < n ==> r == 0
    ensures x >= n ==> r >= 1
  {
    QuotientBounds(x, n);
    x / n
  }

  lemma QuotientBounds(x: nat, n: nat)
    requires n > 0
    ensures 0 <= x / n <= x && (x < n <==> x / n == 0)
  {
    var q, r := x / n, x % n;
    assert x == n * q + r;
    if q < 0 {
      TimesMonotonic(q, -1, n);
    } else if q > 0 {
      TimesMonotonic(1, q, n);
      TimesMonotonic(1, n, q);
    }
  }

  /** The value of the same 32 bits read as a two's complement `int`. */
  function Signed(x: u32): int {
    if x < 0x8000_0000 then x else x - 0x1_0000_0000
  }

  datatype Option<+T> = None | Some(value: T) {
    function GetOr(default: T): T {
      if Some? then value else default
    }
  }
}

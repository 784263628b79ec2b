// Fixed-width integers as the virtual machine and the compiler use them: 32-bit
// and 64-bit two's complement, a 64-bit value being two 32-bit stack cells.

module Words {

  const TWO31: int := 0x8000_0000
  const TWO32: int := 0x1_0000_0000
  const TWO63: int := 0x8000_0000_0000_0000
  const TWO64: int := 0x1_0000_0000_0000_0000

  predicate Is32(x: int) { -TWO31 <= x < TWO31 }

  predicate Is64(x: int) { -TWO63 <= x < TWO63 }

  function Wrap32(x: int): (r: int)
    ensures Is32(r)
    ensures Is32(x) ==> r == x
  {
    (x + TWO31) % TWO32 - TWO31
  }

  function Wrap64(x: int): (r: int)
    ensures Is64(r)
    ensures Is64(x) ==> r == x
  {
    (x + TWO63) % TWO64 - TWO63
  }

  function Wrap(wide: bool, x: int): (r: int)
    ensures Is64(r) && (!wide ==> Is32(r))
  {
    if wide then Wrap64(x) else Wrap32(x)
  }

  // The value of a cell's 32 bits read as unsigned.
  function Unsigned(cell: int): (r: int)
    ensures 0 <= r < TWO32
  {
    cell % TWO32
  }

  // The two cells of a 64-bit value; the low one lies below the high one.
  function Low(x: int): (r: int)
    ensures Is32(r)
  {
    Wrap32(x)
  }

  function High(x: int): (r: int)
    ensures Is64(x) ==> Is32(r)
  {
    x / TWO32
  }

  function Join(low: int, high: int): (r: int)
    ensures Is32(high) ==> Is64(r)
  {
    high * TWO32 + Unsigned(low)
  }

  function Width(wide: bool): nat { if wide then 2 else 1 }

  // `v` as it lies on a stack.
  function Cells(v: int, wide: bool): (cells: seq<int>)
    ensures |cells| == Width(wide)
  {
    if wide then [Low(v), High(v)] else [v]
  }

  lemma JoinSplits(x: int)
    ensures Join(Low(x), High(x)) == x
  {
    assert (x + TWO31) % TWO32 == (x % TWO32 + TWO31) % TWO32;
  }

  // What wrapping means: the one value of the width that differs by a multiple of its range.
  lemma WrapExact(wide: bool, x: int)
    ensures if wide then Is64(Wrap(wide, x)) else Is32(Wrap(wide, x))
    ensures (Wrap(wide, x) - x) % (if wide then TWO64 else TWO32) == 0
  {
    if wide {
      MultipleOf(Wrap64(x) - x, TWO64, -((x + TWO63) / TWO64));
    } else {
      MultipleOf(Wrap32(x) - x, TWO32, -((x + TWO31) / TWO32));
    }
  }

  lemma MultipleOf(d: int, m: int, q: int)
    requires m > 0 && d == m * q
    ensures d % m == 0
  {
    QuotientIs(d, m, q);
  }

  lemma QuotientIs(d: int, m: int, q: int)
    requires m > 0 && d == m * q
    ensures d / m == q
  {
    assert d == m * (d / m) + d % m;
    if d / m > q {
      Product(m, d / m - q);
    } else if d / m < q {
      Product(m, q - d / m);
    }
  }

  lemma Product(m: int, k: int)
    requires m > 0 && k > 0
    ensures m * k >= m
  {
  }

  // A 64-bit value lies on the stack as its low 32 bits and, above them, its high ones.
  lemma CellsExact(v: int)
    requires Is64(v)
    ensures Is32(v) ==> Cells(v, false) == [v]
    ensures var c := Cells(v, true);
            |c| == 2 && Is32(c[0]) && Is32(c[1])
            && v == TWO32 * c[1] + (if c[0] < 0 then c[0] + TWO32 else c[0])
  {
    JoinSplits(v);
  }

  // Division as C defines it: towards zero. A zero divisor or an unrepresentable
  // quotient traps.
  function Quotient(a: int, b: int): int
    requires b != 0
  {
    var q := (if a < 0 then -a else a) / (if b < 0 then -b else b);
    if (a < 0) == (b < 0) then q else -q
  }

  predicate Traps(wide: bool, a: int, b: int) {
    b == 0 || (b == -1 && a == (if wide then -TWO63 else -TWO31))
  }

  lemma DivideBound(n: nat, d: nat)
    requires d > 0
    ensures 0 <= n / d && (d == 1 ==> n / d == n) && (d >= 2 ==> 2 * (n / d) <= n)
  {
    var q := n / d;
    assert n == d * q + n % d;
    if d >= 2 { Monotone(2, d, q); }
  }

  lemma Monotone(a: nat, b: nat, q: nat)
    requires a <= b
    ensures a * q <= b * q
  {
  }

  // What is left over is smaller than the divisor and has the sign of the dividend.
  lemma QuotientTruncates(a: int, b: int)
    requires b != 0
    ensures var r := a - b * Quotient(a, b);
            (if a < 0 then -r else r) >= 0 && (if r < 0 then -r else r) < (if b < 0 then -b else b)
  {
    var n, d := if a < 0 then -a else a, if b < 0 then -b else b;
    assert n == d * (n / d) + n % d;
    SignOfProduct(b, n / d);
  }

  lemma SignOfProduct(b: int, q: int)
    ensures (-b) * q == -(b * q) && b * (-q) == -(b * q)
  {
  }

  lemma QuotientFits(wide: bool, a: int, b: int)
    requires !Traps(wide, a, b) && Is64(a) && (!wide ==> Is32(a))
    ensures Wrap(wide, Quotient(a, b)) == Quotient(a, b)
  {
    DivideBound(if a < 0 then -a else a, if b < 0 then -b else b);
  }
}

/** Go's fixed-width integers: wrap-around and division that truncates toward zero. */
module GoInt {

  const TWO32 := 0x1_0000_0000
  const TWO63 := 0x8000_0000_0000_0000
  const TWO64 := 0x1_0000_0000_0000_0000

  type Int64 = x: int | -TWO63 <= x < TWO63
  type Uint64 = x: int | 0 <= x < TWO64

  /** Two's complement of 64 bits. */
  function Wrap64(n: int): Int64 {
    (n + TWO63) % TWO64 - TWO63
  }

  function AbsoluteValue(n: int): (r: nat)
    ensures n != 0 ==> r > 0
  {
    if n < 0 then -n else n
  }

  function TruncDiv(a: int, b: int): int
    requires b != 0
  {
    var q := AbsoluteValue(a) / AbsoluteValue(b);
    if (a >= 0) == (b > 0) then q else -q
  }

  function TruncMod(a: int, b: int): int
    requires b != 0
  {
    a - b * TruncDiv(a, b)
  }

  /** Wrapping keeps the residue, and keeps the number exactly when it fits. */
  lemma WrapIsExactIff(n: int)
    ensures (Wrap64(n) - n) % TWO64 == 0
    ensures Wrap64(n) == n <==> -TWO63 <= n < TWO63
  {
    var q := (n + TWO63) / TWO64;
    assert Wrap64(n) - n == (-q) * TWO64;
  }

  /** The quotient is the one whose remainder is smaller than the divisor and has the sign of the dividend. */
  lemma TruncDivMeaning(a: int, b: int)
    requires b != 0
    ensures var r := TruncMod(a, b);
      && a == b * TruncDiv(a, b) + r && AbsoluteValue(r) < AbsoluteValue(b)
      && (a >= 0 ==> r >= 0) && (a <= 0 ==> r <= 0)
  {
    hide TruncDiv, AbsoluteValue;
    var p := WholePart(a, b);
    RestHasSign(a, AbsoluteValue(b), p, b * TruncDiv(a, b));
  }

  lemma RestHasSign(a: int, y: int, p: int, product: int)
    requires p >= 0 && 0 <= AbsoluteValue(a) - p < y && product == if a >= 0 then p else -p
    ensures AbsoluteValue(a - product) < y && (a >= 0 ==> a - product >= 0) && (a <= 0 ==> a - product <= 0)
  {
  }

  /** The multiple of the divisor that is divided out, up to its sign. */
  lemma WholePart(a: int, b: int) returns (p: int)
    requires b != 0
    ensures p >= 0 && 0 <= AbsoluteValue(a) - p < AbsoluteValue(b)
    ensures b * TruncDiv(a, b) == if a >= 0 then p else -p
  {
    hide TruncDiv, AbsoluteValue;
    var x, y := AbsoluteValue(a), AbsoluteValue(b);
    var q := x / y;
    DivisionWithRest(x, y, q);
    SignedProduct(a, b, q);
    p := y * q;
  }

  lemma DivisionWithRest(x: nat, y: nat, q: nat)
    requires y > 0 && q == x / y
    ensures 0 <= x - y * q < y && 0 <= y * q
  {
  }

  lemma ProductSigns(y: int, q: int)
    ensures (-y) * q == -(y * q) && y * (-q) == -(y * q) && (-y) * (-q) == y * q
  {
  }

  lemma SignedProduct(a: int, b: int, q: nat)
    requires b != 0 && q == AbsoluteValue(a) / AbsoluteValue(b)
    ensures b * TruncDiv(a, b) == if a >= 0 then AbsoluteValue(b) * q else -(AbsoluteValue(b) * q)
  {
    ProductSigns(AbsoluteValue(b), q);
  }
}

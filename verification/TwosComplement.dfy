/** Two's complement integers: the bitwise operations of the byte codecs as arithmetic. */
module TwosComplement {

  ghost function Pow2(k: nat): (r: nat)
    ensures r >= 1
  {
    if k == 0 then 1 else 2 * Pow2(k - 1)
  }

  /** Shifting by n bytes multiplies by this. */
  function Pow256(n: nat): (r: nat)
    ensures r >= 1
  {
    if n == 0 then 1 else 256 * Pow256(n - 1)
  }

  lemma {:induction false} Pow256IsPow2(n: nat)
    ensures Pow256(n) == Pow2(8 * n)
  {
    if n > 0 {
      Pow256IsPow2(n - 1);
      var m := 8 * (n - 1);
      assert Pow2(m + 8) == 2 * Pow2(m + 7) == 4 * Pow2(m + 6) == 8 * Pow2(m + 5) == 16 * Pow2(m + 4);
      assert Pow2(m + 4) == 2 * Pow2(m + 3) == 4 * Pow2(m + 2) == 8 * Pow2(m + 1) == 16 * Pow2(m);
    }
  }

  /** Bitwise or, bit by bit. */
  function Or(a: int, b: int): int
    decreases if a < 0 then -a else a
  {
    if a == 0 then b
    else if b == 0 then a
    else if a == -1 then -1
    else 2 * Or(a / 2, b / 2) + (if a % 2 == 1 || b % 2 == 1 then 1 else 0)
  }

  /** The bit of a number with this weight. */
  ghost predicate Bit(x: int, k: nat)
    decreases k
  {
    if k == 0 then x % 2 == 1 else Bit(x / 2, k - 1)
  }

  lemma {:induction false} BitsOfConstants(k: nat)
    ensures !Bit(0, k) && Bit(-1, k)
    decreases k
  {
    if k > 0 {
      BitsOfConstants(k - 1);
    }
  }

  lemma {:induction false} OrBits(a: int, b: int, k: nat)
    ensures Bit(Or(a, b), k) <==> Bit(a, k) || Bit(b, k)
    decreases k
  {
    BitsOfConstants(k);
    if a != 0 && b != 0 && a != -1 && k > 0 {
      OrBits(a / 2, b / 2, k - 1);
      assert Or(a, b) / 2 == Or(a / 2, b / 2);
    }
  }

  lemma {:induction false} OrDisjointBits(c: int, b: nat, k: nat)
    requires b < Pow2(k)
    ensures Or(c * Pow2(k), b) == c * Pow2(k) + b == Or(b, c * Pow2(k))
    decreases k
  {
    if k > 0 {
      var a, h := c * Pow2(k), c * Pow2(k - 1);
      assert a == 2 * h;
      OrDisjointBits(c, b / 2, k - 1);
      assert a / 2 == h && a % 2 == 0;
    }
  }

  /** Numbers without a common bit are combined by adding them. */
  lemma OrDisjoint(c: int, b: nat, n: nat)
    requires b < Pow256(n)
    ensures Or(c * Pow256(n), b) == c * Pow256(n) + b == Or(b, c * Pow256(n))
  {
    Pow256IsPow2(n);
    OrDisjointBits(c, b, 8 * n);
  }

  /** The value of a 32-bit int after wrapping around. */
  function WrapInt(x: int): (r: int)
    ensures -0x8000_0000 <= r < 0x8000_0000 && (r - x) % 0x1_0000_0000 == 0
  {
    (x + 0x8000_0000) % 0x1_0000_0000 - 0x8000_0000
  }
}

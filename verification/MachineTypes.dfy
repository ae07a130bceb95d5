/** Machine integers, and the wrapped offset arithmetic that every ring operation uses. */
module MachineTypes {

  newtype byte = x: int | 0 <= x < 256

  newtype int32 = x: int | -0x8000_0000 <= x < 0x8000_0000

  predicate Divides(d: nat, x: nat) {
    d > 0 && x % d == 0
  }

  /** The offset `k` bytes past `o` in a ring of `len` bytes. The postcondition is the linear
      form the proofs use: at most one wrap-around happens. */
  function Adv(o: nat, k: nat, len: nat): (r: nat)
    requires len > 0
    ensures r < len
    ensures o + k < len ==> r == o + k
    ensures len <= o + k < 2 * len ==> r == o + k - len
  {
    if len <= o + k < 2 * len then
      ModOnce(o + k, len);
      (o + k) % len
    else
      (o + k) % len
  }

  lemma ModOnce(x: nat, len: nat)
    requires 0 < len <= x < 2 * len
    ensures x % len == x - len
  {
  }

  lemma AdvIsMod(o: nat, k: nat, len: nat)
    requires len > 0
    ensures Adv(o, k, len) == (o + k) % len
  {
  }

  lemma LastWhole(e: nat, len: nat)
    requires 0 < e && !Divides(e, len)
    ensures (len / e) * e < len < (len / e) * e + e
  {
  }

  lemma MulAtLeast(k: int, d: nat)
    requires k > 0
    ensures k * d >= d
  {
  }

  lemma MulSwap(x: int, y: int, z: int)
    ensures x * (y * z) == y * (x * z)
  {
  }

  lemma MulAssoc(x: int, y: int, z: int)
    ensures (x * y) * z == x * (y * z)
  {
  }

  lemma MulDistribute(x: int, y: int, z: int)
    ensures (x + y) * z == x * z + y * z
  {
  }

  lemma MulMonotone(x: int, y: int, d: nat)
    requires x <= y
    ensures x * d <= y * d
  {
  }

  lemma CompareMultiples(x: int, y: int, d: nat)
    requires d > 0
    ensures x * d < y * d <==> x < y
    ensures x * d == y * d <==> x == y
  {
    if x < y {
      MulAtLeast(y - x, d);
      MulDistribute(y, -x, d);
    } else if x > y {
      MulAtLeast(x - y, d);
      MulDistribute(x, -y, d);
    }
  }

  lemma QuotientUnique(p: int, r: nat, q: int, s: nat, d: nat)
    requires r < d && s < d && p * d + r == q * d + s
    ensures p == q && r == s
  {
    assert (p - q) * d == p * d - q * d;
    if p > q {
      MulAtLeast(p - q, d);
    } else if p < q {
      MulAtLeast(q - p, d);
    }
  }

  /** A quotient and a remainder in range are the quotient and the remainder. */
  lemma DivModUnique(x: nat, q: int, r: nat, d: nat)
    requires r < d && x == q * d + r
    ensures x / d == q && x % d == r
  {
    var p, m := x / d, x % d;
    assert x == p * d + m;
    QuotientUnique(p, m, q, r, d);
  }

  /** Adding a multiple of the modulus does not change a remainder. */
  lemma ModShift(x: nat, q: nat, d: nat)
    requires d > 0
    ensures (x + q * d) % d == x % d
  {
    assert x + q * d == (x / d + q) * d + x % d;
    DivModUnique(x + q * d, x / d + q, x % d, d);
  }

  /** Reducing a summand first does not change the reduced sum. */
  lemma ModAddLeft(x: nat, y: nat, d: nat)
    requires d > 0
    ensures (x % d + y) % d == (x + y) % d
  {
    ModShift(x % d + y, x / d, d);
    assert x + y == (x % d + y) + (x / d) * d;
  }
}

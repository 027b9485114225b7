/** Machine integers of the C sources, and the powers of two they wrap at. */
module Machine {
  type uint8 = x: int | 0 <= x < 0x100
  type uint16 = x: int | 0 <= x < 0x1_0000
  type uint32 = x: int | 0 <= x < 0x1_0000_0000

  /** Conversion of an `int` to `uint16_t`. */
  function U16(x: int): uint16 {
    x % 0x1_0000
  }

  /** Conversion of an `int` to `uint32_t`, and the wrap-around of unsigned arithmetic. */
  function U32(x: int): uint32 {
    x % 0x1_0000_0000
  }

  function Pow2(n: nat): (r: nat)
    ensures r >= 1
  {
    if n == 0 then 1 else 2 * Pow2(n - 1)
  }

  lemma {:induction false} Pow2Add(a: nat, b: nat)
    ensures Pow2(a + b) == Pow2(a) * Pow2(b)
  {
    if a > 0 {
      Pow2Add(a - 1, b);
    }
  }

  lemma Pow2At32()
    ensures Pow2(32) == 0x1_0000_0000
  {
    assert Pow2(8) == 256;
    Pow2Add(8, 8);
    Pow2Add(16, 16);
  }

  lemma Pow2Monotone(a: nat, b: nat)
    requires a <= b
    ensures Pow2(a) <= Pow2(b)
  {
  }

  /** Quotient and remainder are determined by `q * d + r` with `0 <= r < d`. */
  lemma DivModUnique(n: int, d: int, q: int, r: int)
    requires n == q * d + r && 0 <= r < d
    ensures n / d == q && n % d == r
  {
    var k := n / d - q;
    assert k * d == r - n % d by {
      assert k * d == n / d * d - q * d;
    }
    if k != 0 {
      NonzeroMultiple(k, d);
    }
  }

  lemma NonzeroMultiple(k: int, d: int)
    requires 0 < d && k != 0
    ensures k * d >= d || k * d <= -d
  {
  }

  /** Reducing modulo a multiple of `s` first changes nothing. */
  lemma ModNested(x: int, d: int, s: int)
    requires 0 < s && 0 < d
    ensures 0 < d * s && x % (d * s) % s == x % s
  {
    var q, r := x / (d * s), x % (d * s);
    var q', r' := r / s, r % s;
    assert x == (q * d + q') * s + r' by {
      assert q * (d * s) == q * d * s;
      assert (q * d + q') * s == q * d * s + q' * s;
    }
    DivModUnique(x, s, q * d + q', r');
  }

  lemma ModPow2Nested(x: int, s: nat, t: nat)
    requires s <= t
    ensures x % Pow2(t) % Pow2(s) == x % Pow2(s)
  {
    Pow2Add(t - s, s);
    ModNested(x, Pow2(t - s), Pow2(s));
  }

  // ---------- Numbers and bit vectors ----------

  lemma ByteValue(n: int)
    requires 0 <= n < 0x100
    ensures (n as bv8) as int == n
  {
    var b := ByteOf(n);
    SameByte(b);
  }

  lemma {:induction false} ByteOf(n: nat) returns (b: bv8)
    requires n < 0x100
    ensures b as int == n
  {
    if n == 0 {
      b := 0;
    } else {
      var c := ByteOf(n - 1);
      NextByte(c);
      b := c + 1;
    }
  }

  lemma NextByte(b: bv8)
    requires b != 0xFF
    ensures (b + 1) as int == b as int + 1
  {
  }

  lemma SameByte(b: bv8)
    ensures (b as int) as bv8 == b
  {
  }

  /** Every 16-bit number is the value of a word, and converts to it. */
  lemma WordValue(n: int)
    requires 0 <= n < 0x1_0000
    ensures (n as bv16) as int == n
  {
    var w := WordOf(n);
    SameWord(w);
  }

  lemma WordOf(n: nat) returns (w: bv16)
    requires n < 0x1_0000
    ensures w as int == n
  {
    var hi := ByteOf(n / 0x100);
    var lo := ByteOf(n % 0x100);
    w := (hi as bv16 << 8) | lo as bv16;
    Joined(hi, lo);
  }

  lemma Joined(hi: bv8, lo: bv8)
    ensures ((hi as bv16 << 8) | lo as bv16) as int == 0x100 * (hi as int) + lo as int
  {
  }

  lemma SameWord(w: bv16)
    ensures (w as int) as bv16 == w
  {
  }
}

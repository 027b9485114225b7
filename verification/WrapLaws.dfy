/** What becomes of a sprite whose 16-bit coordinate wraps: it comes round again, a little off, and may or may
    not get to its target in the end. */
module WrapLaws {
  import opened Machine
  import opened VideoMemory
  import opened Animation
  import opened TrailLaws

  // ---------- Powers of two and odd numbers ----------

  /** The largest power of two that divides `n`. */
  function LowBit(n: nat): (g: nat)
    requires n >= 1
    ensures g >= 1
  {
    if n % 2 == 1 then 1 else 2 * LowBit(n / 2)
  }

  lemma {:induction false} LowBitFactor(n: nat) returns (odd: nat)
    requires n >= 1
    ensures odd % 2 == 1 && n == LowBit(n) * odd
  {
    if n % 2 == 1 {
      odd := n;
    } else {
      odd := LowBitFactor(n / 2);
    }
  }

  lemma {:induction false} LowBitDividesPow2(n: nat, m: nat) returns (c: nat)
    requires 1 <= n < Pow2(m)
    ensures Pow2(m) == LowBit(n) * c
  {
    if n % 2 == 1 {
      c := Pow2(m);
    } else {
      c := LowBitDividesPow2(n / 2, m - 1);
    }
  }

  /** An odd number has an inverse modulo every power of two. */
  lemma {:induction false} OddInverse(odd: nat, m: nat) returns (x: nat, e: int)
    requires odd % 2 == 1
    ensures odd * x == 1 + Pow2(m) * e
  {
    if m == 0 {
      x, e := 1, odd - 1;
    } else {
      x, e := OddInverse(odd, m - 1);
      x, e := InverseLifts(odd, Pow2(m - 1), x, e);
    }
  }

  /** From an inverse modulo `p` to one modulo twice that. */
  lemma InverseLifts(odd: nat, p: nat, x: nat, e: int) returns (x': nat, e': int)
    requires odd % 2 == 1 && odd * x == 1 + p * e
    ensures odd * x' == 1 + 2 * p * e'
  {
    if e % 2 == 0 {
      Halved(p, e);
      x', e' := x, e / 2;
    } else {
      Distribute(odd, x + p, p);
      Distribute(p, e + odd, odd);
      Halved(p, e + odd);
      x', e' := x + p, (e + odd) / 2;
    }
  }

  lemma Halved(p: nat, e: int)
    requires e % 2 == 0
    ensures p * e == 2 * p * (e / 2)
  {
  }

  lemma Distribute(g: int, a: int, b: int)
    ensures g * a - g * b == g * (a - b)
  {
  }

  // ---------- One coordinate ----------

  /** The 16-bit sum of `k` steps, as if there were no target. */
  function Free(start: uint16, speed: nat, k: nat): uint16 {
    U16(start + k * speed)
  }

  lemma FreeStep(start: uint16, speed: nat, k: nat)
    ensures Free(start, speed, k + 1) == U16(Free(start, speed, k) + speed)
    ensures Free(start, speed, 0) == start
  {
    NextStep(k, speed);
  }

  lemma {:induction false} AlongIsFree(start: uint16, target: uint16, speed: nat, k: nat)
    requires forall j | 0 <= j <= k :: Free(start, speed, j) < target
    ensures Along(start, target, speed, k) == Free(start, speed, k)
  {
    hide Free;
    if k == 0 {
      FreeStep(start, speed, 0);
    } else {
      AlongIsFree(start, target, speed, k - 1);
      FreeStep(start, speed, k - 1);
    }
  }

  /** The sprite gets to its target exactly when some sum is as large as the target. */
  lemma {:induction false} FirstReach(start: uint16, target: uint16, speed: nat, k: nat) returns (j: nat)
    requires start < target && Free(start, speed, k) >= target
    ensures Along(start, target, speed, j) == target
  {
    hide Free;
    FreeStep(start, speed, 0);
    if i: nat :| i < k && Free(start, speed, i) >= target {
      j := FirstReach(start, target, speed, i);
    } else {
      j := k;
      AlongIsFree(start, target, speed, k - 1);
      FreeStep(start, speed, k - 1);
    }
  }

  /** The largest 16-bit number that differs from `start` by a multiple of `g`. */
  function Highest(start: uint16, g: nat): int
    requires g >= 1
  {
    0xFFFF - (0xFFFF - start) % g
  }

  lemma Regroup(a: int, b: int, c: int, d: int)
    ensures a * b * (c * d) == c * a * (d * b)
  {
  }

  /** No sum is larger than that, for the largest power of two in the speed. */
  lemma FreeAtMost(start: uint16, speed: nat, k: nat)
    requires 1 <= speed < 0x1_0000
    ensures Free(start, speed, k) <= Highest(start, LowBit(speed))
  {
    hide LowBit, Highest;
    var g := LowBit(speed);
    var odd := LowBitFactor(speed);
    Pow2At16();
    var c := LowBitDividesPow2(speed, 16);
    var q := (start + k * speed) / 0x1_0000;
    Regroup(1, k, g, odd);
    Regroup(1, q, g, c);
    Distribute(g, odd * k, c * q);
    MultipleAtMost(start, g, odd * k - c * q);
  }

  lemma Pow2At16()
    ensures Pow2(16) == 0x1_0000
  {
    assert Pow2(8) == 256;
    Pow2Add(8, 8);
  }

  lemma MultipleAtMost(start: uint16, g: nat, z: int)
    requires g >= 1 && start + g * z <= 0xFFFF
    ensures start + g * z <= Highest(start, g)
  {
    var n := 0xFFFF - start;
    if z > n / g {
      Distribute(g, z, n / g);
      AtLeastOnce(g, z - n / g);
    } else {
      Distribute(g, n / g, z);
      AtLeastOnce(g, n / g - z);
    }
  }

  lemma AtLeastOnce(g: nat, z: int)
    ensures z >= 0 ==> g * z >= 0
    ensures z >= 1 ==> g * z >= g
  {
  }

  /** And that one is a sum. */
  lemma FreeGetsThere(start: uint16, speed: nat) returns (k: nat)
    requires 1 <= speed < 0x1_0000
    ensures Free(start, speed, k) == Highest(start, LowBit(speed))
  {
    hide LowBit, Pow2;
    var g := LowBit(speed);
    var odd := LowBitFactor(speed);
    var inverse, e := OddInverse(odd, 16);
    Pow2At16();
    var top := (0xFFFF - start) / g;
    k := top * inverse;
    Regroup(top, inverse, g, odd);
    Expand(g * top, odd * inverse, e);
    AtLeastOnce(g, top);
    DivModUnique(start + k * speed, 0x1_0000, g * top * e, start + g * top);
  }

  lemma Expand(u: int, v: int, e: int)
    requires v == 1 + 0x1_0000 * e
    ensures u * v == u + 0x1_0000 * (u * e)
  {
  }

  lemma AlongArrivesIff(start: uint16, target: uint16, speed: nat)
    requires start < target && 1 <= speed < 0x1_0000
    ensures (exists k: nat :: Along(start, target, speed, k) == target) <==> Highest(start, LowBit(speed)) >= target
  {
    hide Free, Highest, LowBit;
    if Highest(start, LowBit(speed)) >= target {
      var k := FreeGetsThere(start, speed);
      var j := FirstReach(start, target, speed, k);
    } else {
      forall k: nat
        ensures Along(start, target, speed, k) < target
      {
        forall j: nat | j <= k
          ensures Free(start, speed, j) < target
        {
          FreeAtMost(start, speed, j);
        }
        AlongIsFree(start, target, speed, k);
      }
    }
  }

  // ---------- The sprite ----------

  /** However often its coordinate wraps, the sprite arrives at some tick if and only if the largest 16-bit
      number that agrees with the start, up to multiples of the largest power of two in the speed, is at least
      the target. */
  lemma ArrivesEventuallyIff(motion: Motion)
    requires motion.Sensible()
    ensures (exists k: nat :: motion.Arrived(k)) <==>
            if motion.Horizontal() then Highest(motion.xi, LowBit(motion.speed)) >= motion.xf
            else Highest(motion.yi, LowBit(motion.speed)) >= motion.yf
  {
    hide Highest;
    var start, target := if motion.Horizontal() then motion.xi else motion.yi,
                         if motion.Horizontal() then motion.xf else motion.yf;
    AlongArrivesIff(start, target, motion.speed);
    forall k: nat
      ensures motion.Arrived(k) <==> Along(start, target, motion.speed, k) == target
    {
    }
    if k: nat :| motion.Arrived(k) {
      assert Along(start, target, motion.speed, k) == target;
    } else {
      assert Highest(start, LowBit(motion.speed)) < target;
    }
  }

  /** Odd speeds always arrive; a speed of two from an even start never arrives at 65535. */
  lemma OddSpeedsArrive(motion: Motion)
    requires motion.Sensible()
    ensures motion.speed % 2 == 1 ==> exists k: nat :: motion.Arrived(k)
    ensures motion == Motion(0, 0, 0xFFFF, 0, 2) ==> forall k: nat :: !motion.Arrived(k)
  {
    ArrivesEventuallyIff(motion);
  }
}

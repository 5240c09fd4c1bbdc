/**
 Two-word 128-bit arithmetic: comparison, increment with carry, and the
 sub-prefix candidate computation used by prefix delegation.  Words are machine
 words: every addition and shift wraps modulo 2^64 as in the source.
 */
module Words128 {
  const TWO32 := 0x1_0000_0000
  const TWO64 := 0x1_0000_0000_0000_0000
  const TWO128 := TWO64 * TWO64

  type Word = x: nat | x < TWO64

  datatype Words = Words(hi: Word, lo: Word) {
    function Value(): nat {
      hi * TWO64 + lo
    }
  }

  function OfValue(n: nat): (w: Words)
    requires n < TWO128
    ensures w.Value() == n
  {
    Words(n / TWO64, n % TWO64)
  }

  /** Distinct word pairs denote distinct numbers, so the pair is a canonical form. */
  lemma ValueInjective(a: Words, b: Words)
    requires a.Value() == b.Value()
    ensures a == b
  {
  }

  /** Three-way comparison, high word first. */
  function Cmp(a: Words, b: Words): (r: int)
    ensures r < 0 <==> a.Value() < b.Value()
    ensures r > 0 <==> a.Value() > b.Value()
    ensures r == 0 <==> a == b
  {
    if a.hi < b.hi then -1
    else if a.hi > b.hi then 1
    else if a.lo < b.lo then -1
    else if a.lo > b.lo then 1
    else 0
  }

  /** Increment with carry between the words; wraps only at the very top. */
  function AddOne(w: Words): (r: Words)
    ensures w.Value() < TWO128 - 1 ==> r.Value() == w.Value() + 1
    ensures w.Value() == TWO128 - 1 ==> r.Value() == 0
  {
    if w.lo == TWO64 - 1 then Words((w.hi + 1) % TWO64, 0) else Words(w.hi, w.lo + 1)
  }

  // ---------- Shifts ----------

  function Pow2(n: nat): (r: nat)
    ensures r >= 1
  {
    if n == 0 then 1 else 2 * Pow2(n - 1)
  }

  /** x << n on a 64-bit word. */
  function Shl(x: Word, n: nat): Word {
    (x * Pow2(n)) % TWO64
  }

  /** x >> n on a 64-bit word. */
  function Shr(x: Word, n: nat): (r: Word) {
    DivShrinks(x, Pow2(n));
    x / Pow2(n)
  }

  lemma DivShrinks(x: nat, d: nat)
    requires d >= 1
    ensures 0 <= x / d <= x
  {
    assert x == d * (x / d) + x % d;
    if x / d > x {
      MulMono(1, d, x / d);
    }
  }

  lemma MulMono(a: int, b: int, k: nat)
    requires a <= b
    ensures a * k <= b * k
  {
  }

  lemma {:induction false} Pow2Add(m: nat, n: nat)
    ensures Pow2(m + n) == Pow2(m) * Pow2(n)
  {
    if m != 0 {
      Pow2Add(m - 1, n);
      calc {
        Pow2(m + n);
        2 * Pow2(m - 1 + n);
        2 * (Pow2(m - 1) * Pow2(n));
        Pow2(m) * Pow2(n);
      }
    }
  }

  lemma {:induction false} Pow2Mono(m: nat, n: nat)
    requires m < n
    ensures Pow2(m) < Pow2(n)
  {
    if m + 1 < n {
      Pow2Mono(m, n - 1);
    }
  }

  lemma Pow2At64()
    ensures Pow2(64) == TWO64
  {
    assert Pow2(4) == 16;
    Pow2Add(4, 4);
    Pow2Add(8, 8);
    Pow2Add(16, 16);
    Pow2Add(32, 32);
  }

  // ---------- Candidate sub-prefixes ----------

  /** `base` advanced by `i` sub-prefixes of length `len`, as the source computes it. */
  function PrefixCandidate(base: Words, len: nat, i: Word): Words
    requires len <= 128
  {
    var shift := 128 - len;
    if shift >= 64 then
      Words((base.hi + Shl(i, shift - 64)) % TWO64, base.lo)
    else
      var lo := (base.lo + Shl(i, 64 - shift)) % TWO64;
      var hi := (base.hi + Shr(i, shift)) % TWO64;
      Words(if lo < base.lo then (hi + 1) % TWO64 else hi, lo)
  }

  /** For delegated lengths up to 64 the computation is base + i * 2^(128-len) in
      128-bit space. */
  lemma PrefixCandidateUpTo64(base: Words, len: nat, i: Word)
    requires len <= 64
    ensures PrefixCandidate(base, len, i).Value() == (base.Value() + i * Pow2(128 - len)) % TWO128
  {
    var k := 64 - len;
    Pow2At64();
    Pow2Add(64, k);
    var step := i * Pow2(k);
    assert i * Pow2(128 - len) == step * TWO64 by {
      assert 128 - len == 64 + k;
      MulSwap(i, Pow2(k), TWO64);
    }
    AddShifted(base, step);
  }

  lemma AddShifted(base: Words, step: nat)
    ensures Words((base.hi + step % TWO64) % TWO64, base.lo).Value()
            == (base.Value() + step * TWO64) % TWO128
  {
    var q, r := step / TWO64, step % TWO64;
    assert step == q * TWO64 + r;
    AddHigh(base, r);
    ModDropsMultiple(base.Value() + r * TWO64, q);
    assert base.Value() + step * TWO64 == base.Value() + r * TWO64 + q * TWO128;
  }

  lemma AddHigh(base: Words, h: Word)
    ensures Words((base.hi + h) % TWO64, base.lo).Value() == (base.Value() + h * TWO64) % TWO128
  {
    var s := base.hi + h;
    if s < TWO64 {
      ModIs(base.Value() + h * TWO64, 0, s * TWO64 + base.lo);
    } else {
      ModIs(base.Value() + h * TWO64, 1, (s - TWO64) * TWO64 + base.lo);
    }
  }

  lemma ModIs(n: nat, q: nat, r: nat)
    requires n == q * TWO128 + r && r < TWO128
    ensures n % TWO128 == r
  {
  }

  lemma ModDropsMultiple(n: nat, q: nat)
    ensures (n + q * TWO128) % TWO128 == n % TWO128
  {
    ModIs(n + q * TWO128, q + n / TWO128, n % TWO128);
  }

  lemma MulSwap(a: nat, b: nat, c: nat)
    ensures a * (c * b) == a * b * c
  {
  }

  /** For longer lengths the two shift amounts are exchanged: the code advances by
      i * 2^(64-shift) where shift = 128-len. */
  lemma PrefixCandidateBeyond64(base: Words, len: nat, i: Word)
    requires 64 < len <= 128
    ensures PrefixCandidate(base, len, i).Value() == (base.Value() + i * Pow2(len - 64)) % TWO128
  {
    var shift := 128 - len;
    var k := len - 64;
    Pow2At64();
    Pow2Add(shift, k);
    var p, q := Pow2(shift), Pow2(k);
    assert p * q == TWO64;
    SplitProduct(i, p, q);
    var h, l := Shr(i, shift), Shl(i, 64 - shift);
    assert 64 - shift == k;
    assert h * TWO64 + l == i * q;
    AddWithCarry(base, h, l);
  }

  /** i*q with p*q = 2^64: the high word is i/p, the low word is i*q mod 2^64. */
  lemma SplitProduct(i: nat, p: nat, q: nat)
    requires p >= 1 && q >= 1 && p * q == TWO64
    ensures (i / p) * TWO64 + (i * q) % TWO64 == i * q
  {
    var d, m := i / p, i % p;
    assert i == d * p + m;
    calc {
      i * q;
      (d * p + m) * q;
      d * p * q + m * q;
      { assert d * p * q == d * (p * q); }
      d * TWO64 + m * q;
    }
    assert m * q < TWO64 by {
      MulMono(m + 1, p, q);
      assert (m + 1) * q == m * q + q;
    }
    ModOfSum(d, m * q);
  }

  lemma ModOfSum(d: nat, r: nat)
    requires r < TWO64
    ensures (d * TWO64 + r) % TWO64 == r
  {
  }

  lemma AddWithCarry(base: Words, h: Word, l: Word)
    ensures
      var lo: Word := (base.lo + l) % TWO64;
      var hi: Word := (base.hi + h) % TWO64;
      Words(if lo < base.lo then (hi + 1) % TWO64 else hi, lo).Value()
        == (base.Value() + h * TWO64 + l) % TWO128
  {
    var carry := if base.lo + l < TWO64 then 0 else 1;
    var lo := base.lo + l - carry * TWO64;
    WrapOnce(base.lo + l);
    WrapOnce(base.hi + h);
    var s := base.hi + h + carry;
    var over := if s < TWO64 then 0 else 1;
    ModIs(base.Value() + h * TWO64 + l, over, (s - over * TWO64) * TWO64 + lo);
  }

  lemma WrapOnce(n: nat)
    requires n < 2 * TWO64
    ensures n % TWO64 == if n < TWO64 then n else n - TWO64
  {
  }

  /** So beyond /64 the commented formula base + i * 2^(128-len) is met exactly at
      i = 0 and at len = 96, where both shift amounts are 32. */
  lemma PrefixCandidateExact(base: Words, len: nat, i: Word)
    requires 64 < len <= 128
    ensures PrefixCandidate(base, len, i).Value() == (base.Value() + i * Pow2(128 - len)) % TWO128
            <==> i == 0 || len == 96
  {
    PrefixCandidateBeyond64(base, len, i);
    var p, q := Pow2(len - 64), Pow2(128 - len);
    if len - 64 < 128 - len {
      Pow2Mono(len - 64, 128 - len);
    } else if len - 64 > 128 - len {
      Pow2Mono(128 - len, len - 64);
    }
    assert p == q <==> len == 96;
    if i != 0 && p != q {
      MulStrict(i, p, q);
      Pow2At64();
      Pow2AtMost64(len - 64);
      Pow2AtMost64(128 - len);
      ProductFits(i, p);
      ProductFits(i, q);
      ModSeparates(base.Value(), i * p, i * q);
    }
  }

  lemma Pow2AtMost64(n: nat)
    requires n <= 64
    ensures Pow2(n) <= TWO64
  {
    Pow2At64();
    if n < 64 {
      Pow2Mono(n, 64);
    }
  }

  lemma ProductFits(i: Word, p: nat)
    requires p <= TWO64
    ensures 0 <= i * p < TWO128
  {
    MulMono(p, TWO64, i);
  }

  lemma ModSeparates(b: nat, x: nat, y: nat)
    requires b < TWO128 && x < TWO128 && y < TWO128 && x != y
    ensures (b + x) % TWO128 != (b + y) % TWO128
  {
    var cx := if b + x < TWO128 then 0 else 1;
    var cy := if b + y < TWO128 then 0 else 1;
    ModIs(b + x, cx, b + x - cx * TWO128);
    ModIs(b + y, cy, b + y - cy * TWO128);
  }

  lemma MulStrict(i: nat, p: nat, q: nat)
    requires i > 0 && p != q
    ensures i * p != i * q
  {
    if p < q {
      MulMono(p + 1, q, i);
      assert (p + 1) * i == p * i + i;
    } else {
      MulMono(q + 1, p, i);
      assert (q + 1) * i == q * i + i;
    }
  }
}

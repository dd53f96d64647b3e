/** The bignum representation of bn.h: words, `top`, and the macros that rely on them. */
module Bignum {
  import opened Bytes

  /** 2^n */
  function Pow2(n: nat): (p: nat)
    ensures p >= 1
  {
    if n == 0 then 1 else 2 * Pow2(n - 1)
  }

  lemma {:induction false} Pow2Adds(a: nat, b: nat)
    ensures Pow2(a + b) == Pow2(a) * Pow2(b)
    decreases a
  {
    if a > 0 {
      Pow2Adds(a - 1, b);
      assert Pow2(a + b) == 2 * Pow2(a - 1 + b);
      assert 2 * (Pow2(a - 1) * Pow2(b)) == (2 * Pow2(a - 1)) * Pow2(b);
    }
  }

  lemma {:induction false} Pow2Grows(a: nat, b: nat)
    requires a < b
    ensures Pow2(a) < Pow2(b)
  {
    if a + 1 < b {
      Pow2Grows(a, b - 1);
    }
  }

  /** The words are digits of base 2^bits2, least significant first (BN_BITS2 is `bits2`). */
  predicate Words(d: seq<nat>, bits2: nat) {
    forall i :: 0 <= i < |d| ==> d[i] < Pow2(bits2)
  }

  /** The magnitude that the words stand for. */
  function Magnitude(d: seq<nat>, bits2: nat): nat {
    if d == [] then 0 else d[0] + Pow2(bits2) * Magnitude(d[1..], bits2)
  }

  /** Words further up weigh more: the words of `b` stand above those of `a`. */
  lemma {:induction false} MagnitudeSplit(a: seq<nat>, b: seq<nat>, bits2: nat)
    ensures bits2 * |a| >= 0 && Magnitude(a + b, bits2) == Magnitude(a, bits2) + Pow2(bits2 * |a|) * Magnitude(b, bits2)
    decreases |a|
  {
    if a == [] {
      assert a + b == b;
    } else {
      MagnitudeSplit(a[1..], b, bits2);
      assert (a + b)[1..] == a[1..] + b;
      Pow2Word(bits2, |a|);
      var base, high, m := Pow2(bits2), Pow2(bits2 * (|a| - 1)), Magnitude(b, bits2);
      Distribute(base, Magnitude(a[1..], bits2), high * m);
      Associate(base, high, m);
    }
  }

  lemma Associate(a: nat, b: nat, c: nat)
    ensures a * (b * c) == a * b * c
  {
  }

  /** What bn_check_top asserts: no leading zero word. */
  predicate Normal(d: seq<nat>) {
    d == [] || d[|d| - 1] != 0
  }

  /** The used words with leading zero words cut off. */
  function Trim(d: seq<nat>): (t: seq<nat>)
    ensures |t| <= |d| && t == d[..|t|] && Normal(t)
    ensures forall i :: |t| <= i < |d| ==> d[i] == 0
  {
    if d == [] || d[|d| - 1] != 0 then d else Trim(d[..|d| - 1])
  }

  lemma {:induction false} LeadingZeros(d: seq<nat>, n: nat, bits2: nat)
    requires n <= |d| && forall i :: n <= i < |d| ==> d[i] == 0
    ensures Magnitude(d[..n], bits2) == Magnitude(d, bits2)
    decreases |d|
  {
    if d != [] {
      if n == 0 {
        LeadingZeros(d[1..], 0, bits2);
        assert d[1..][..0] == [] && d[..0] == [];
      } else {
        LeadingZeros(d[1..], n - 1, bits2);
        assert d[..n][1..] == d[1..][..n - 1];
      }
    }
  }

  /** 2^(bits2 * n), one word at a time */
  lemma Pow2Word(bits2: nat, n: nat)
    requires n > 0
    ensures bits2 * (n - 1) >= 0 && bits2 * n >= 0
    ensures Pow2(bits2 * n) == Pow2(bits2) * Pow2(bits2 * (n - 1))
  {
    hide Pow2;
    Times(bits2, n);
    var rest: nat := bits2 * (n - 1);
    Pow2Adds(bits2, rest);
  }

  lemma Times(a: nat, n: nat)
    requires n > 0
    ensures a * (n - 1) >= 0 && a * n == a + a * (n - 1) && a * n >= 0
  {
    Distribute(a, 1, n - 1);
  }

  /** Multiplying by a word keeps order, with a whole word to spare. */
  lemma Scale(base: nat, x: nat, y: nat)
    ensures x < y ==> base * x + base <= base * y
    ensures x <= y ==> base * x <= base * y
  {
    if x < y {
      var gap := y - x - 1;
      Distribute(base, x + 1, gap);
      Distribute(base, x, 1);
      assert base * gap >= 0;
    }
  }

  lemma Distribute(a: nat, x: nat, y: nat)
    ensures a * (x + y) == a * x + a * y && a * x >= 0 && a * y >= 0
  {
  }

  /** `n` words stay below the n-th power of the base. */
  lemma {:induction false} MagnitudeBound(d: seq<nat>, bits2: nat)
    requires Words(d, bits2)
    ensures bits2 * |d| >= 0 && Magnitude(d, bits2) < Pow2(bits2 * |d|)
    decreases |d|
  {
    if d != [] {
      MagnitudeBound(d[1..], bits2);
      Pow2Word(bits2, |d|);
      Scale(Pow2(bits2), Magnitude(d[1..], bits2), Pow2(bits2 * (|d| - 1)));
    }
  }

  /** A used highest word makes the magnitude as long as the word count says. */
  lemma {:induction false} NormalBound(d: seq<nat>, bits2: nat)
    requires d != [] && Normal(d)
    ensures bits2 * (|d| - 1) >= 0 && Magnitude(d, bits2) >= Pow2(bits2 * (|d| - 1))
    decreases |d|
  {
    if |d| > 1 {
      assert d[1..][|d| - 2] == d[|d| - 1];
      NormalBound(d[1..], bits2);
      Pow2Word(bits2, |d| - 1);
      Scale(Pow2(bits2), Pow2(bits2 * (|d| - 2)), Magnitude(d[1..], bits2));
    }
  }

  /** Without leading zero words, a magnitude has one representation. */
  lemma {:induction false} Canonical(a: seq<nat>, b: seq<nat>, bits2: nat)
    requires bits2 > 0 && Words(a, bits2) && Words(b, bits2) && Normal(a) && Normal(b)
    ensures Magnitude(a, bits2) == Magnitude(b, bits2) <==> a == b
    decreases |a|
  {
    var base := Pow2(bits2);
    if a == [] || b == [] {
      if a != [] {
        NormalBound(a, bits2);
      }
      if b != [] {
        NormalBound(b, bits2);
      }
    } else {
      var x, y := Magnitude(a[1..], bits2), Magnitude(b[1..], bits2);
      assert Normal(a[1..]) && Normal(b[1..]);
      Canonical(a[1..], b[1..], bits2);
      if Magnitude(a, bits2) == Magnitude(b, bits2) {
        DigitsEqual(a[0], x, b[0], y, base);
        assert a == [a[0]] + a[1..] && b == [b[0]] + b[1..];
      }
    }
  }

  lemma DigitsEqual(r: nat, x: nat, q: nat, y: nat, base: nat)
    requires r < base && q < base && r + base * x == q + base * y
    ensures r == q && x == y
  {
    Scale(base, x, y);
    Scale(base, y, x);
  }

  /** Two representations of one magnitude have the same words once leading zeros are cut off. */
  lemma TrimIsCanonical(a: seq<nat>, b: seq<nat>, bits2: nat)
    requires bits2 > 0 && Words(a, bits2) && Words(b, bits2)
    ensures Magnitude(a, bits2) == Magnitude(b, bits2) <==> Trim(a) == Trim(b)
  {
    LeadingZeros(a, |Trim(a)|, bits2);
    LeadingZeros(b, |Trim(b)|, bits2);
    Canonical(Trim(a), Trim(b), bits2);
  }

  /** No shorter prefix of the words has the same magnitude. */
  lemma TrimIsLeast(d: seq<nat>, n: nat, bits2: nat)
    requires bits2 > 0 && Words(d, bits2) && n <= |d|
    ensures Magnitude(d[..n], bits2) == Magnitude(d, bits2) <==> |Trim(d)| <= n
  {
    LeadingZeros(d, |Trim(d)|, bits2);
    if |Trim(d)| <= n {
      LeadingZeros(d, n, bits2);
    } else {
      var t := Trim(d);
      TrimIsCanonical(d[..n], t, bits2);
      assert Trim(t) == t;
    }
  }

  /** BN_abs_is_word on the used words; `w` is a BN_ULONG. */
  predicate AbsIsWord(d: seq<nat>, w: nat) {
    (|d| == 1 && d[0] == w) || (w == 0 && |d| == 0)
  }

  /** Some word from the `n`th on is not zero. */
  predicate SomeFrom(d: seq<nat>, n: nat) {
    exists i :: n <= i < |d| && d[i] != 0
  }

  lemma {:induction false} ZeroMagnitude(d: seq<nat>, bits2: nat)
    ensures Magnitude(d, bits2) == 0 <==> !SomeFrom(d, 0)
    decreases |d|
  {
    if d != [] {
      var b, m := Pow2(bits2), Magnitude(d[1..], bits2);
      ZeroMagnitude(d[1..], bits2);
      Scale(b, 0, m);
      assert forall i :: 1 <= i < |d| ==> d[i] == d[1..][i - 1];
      assert SomeFrom(d, 0) <==> d[0] != 0 || SomeFrom(d[1..], 0) by {
        if i :| 0 <= i < |d[1..]| && d[1..][i] != 0 {
          assert d[i + 1] != 0;
        }
      }
    }
  }

  /** A magnitude is too large for a word when a word above the lowest is used. */
  lemma LargeMagnitude(d: seq<nat>, bits2: nat)
    requires Words(d, bits2)
    ensures Magnitude(d, bits2) >= Pow2(bits2) <==> SomeFrom(d, 1)
  {
    if d != [] {
      var b, m := Pow2(bits2), Magnitude(d[1..], bits2);
      ZeroMagnitude(d[1..], bits2);
      Scale(b, 0, m);
      assert forall i :: 1 <= i < |d| ==> d[i] == d[1..][i - 1];
      assert SomeFrom(d, 1) <==> SomeFrom(d[1..], 0) by {
        if i :| 0 <= i < |d[1..]| && d[1..][i] != 0 {
          assert d[i + 1] != 0;
        }
      }
    }
  }

  /**
   The test decides equality with every word if and only if the words are
   normal, or are a single zero word, or use some word above the lowest.
   */
  lemma AbsIsWordExactly(d: seq<nat>, bits2: nat)
    requires bits2 > 0 && Words(d, bits2)
    ensures (forall w :: 0 <= w < Pow2(bits2) ==> (AbsIsWord(d, w) <==> Magnitude(d, bits2) == w))
       <==> Normal(d) || d == [0] || SomeFrom(d, 1)
  {
    var m, base := Magnitude(d, bits2), Pow2(bits2);
    LargeMagnitude(d, bits2);
    if |d| == 1 {
      assert d[1..] == [];
    } else if |d| > 1 && Normal(d) {
      assert d[|d| - 1] != 0;
    }
    assert |d| > 1 && m < base ==> !AbsIsWord(d, m);
  }

  /** Least k with n < 2^k: what BN_num_bits counts. */
  function NumBits(n: nat): (k: nat)
    ensures n < Pow2(k) && (k > 0 ==> n >= Pow2(k - 1))
  {
    if n == 0 then 0 else NumBits(n / 2) + 1
  }

  /** BN_num_bytes */
  function NumBytes(n: nat): nat {
    (NumBits(n) + 7) / 8
  }

  /** The word count that bn_expand asks for. */
  function WordsFor(bits: nat, bits2: nat): nat
    requires bits2 > 0
  {
    (bits + bits2 - 1) / bits2
  }

  lemma DivCeil(n: nat, unit: nat, k: nat)
    requires unit > 0
    ensures n <= unit * k <==> (n + unit - 1) / unit <= k
  {
    var q := (n + unit - 1) / unit;
    assert unit * q <= n + unit - 1 < unit * q + unit;
    Scale(unit, q, k);
    Scale(unit, k, q);
  }

  lemma Pow2Order(a: nat, b: nat)
    ensures Pow2(a) <= Pow2(b) <==> a <= b
  {
    if a < b {
      Pow2Grows(a, b);
    } else if b < a {
      Pow2Grows(b, a);
    }
  }

  /** `k` words hold every magnitude of `bits` bits if and only if `k` is at least what bn_expand asks for. */
  lemma ExpandIsLeast(bits: nat, bits2: nat, k: nat)
    requires bits2 > 0
    ensures (forall m :: 0 <= m < Pow2(bits) ==> Fits(m, bits2, k)) <==> WordsFor(bits, bits2) <= k
  {
    Scale(bits2, 0, k);
    Pow2Order(bits, bits2 * k);
    DivCeil(bits, bits2, k);
    var top := Pow2(bits) - 1;
    assert Fits(top, bits2, k) <==> bits <= bits2 * k;
  }

  /** `k` words are enough for `m`. */
  predicate Fits(m: nat, bits2: nat, k: nat) {
    Scale(bits2, 0, k);
    m < Pow2(bits2 * k)
  }

  /** `k` octets hold a magnitude if and only if `k` is at least BN_num_bytes. */
  lemma NumBytesIsLeast(n: nat, k: nat)
    ensures n < Pow2(8 * k) <==> NumBytes(n) <= k
  {
    var b := NumBits(n);
    DivCeil(b, 8, k);
    if b <= 8 * k {
      Pow2Order(b, 8 * k);
    } else {
      Pow2Order(8 * k, b - 1);
    }
  }

  /** struct bignum_st; `bits2` is BN_BITS2 */
  class BigNum {
    const bits2: nat
    var d: array<nat>
    var top: nat
    var dmax: nat
    var neg: bool

    ghost predicate Valid()
      reads this, d
    {
      bits2 > 0 && top <= dmax && dmax == d.Length && Words(d[..], bits2)
    }

    /** The words below `top`. */
    ghost function Used(): seq<nat>
      requires Valid()
      reads this, d
    {
      d[..top]
    }

    ghost function Value(): int
      requires Valid()
      reads this, d
    {
      var m: int := Magnitude(Used(), bits2);
      if neg then -m else m
    }

    /** bn_correct_top */
    method CorrectTop()
      requires Valid()
      modifies `top
      ensures Valid() && Normal(Used()) && Used() == old(Trim(Used())) && Value() == old(Value())
    {
      ghost var was := Used();
      var tmpTop := top;
      if tmpTop > 0 {
        var ftl := tmpTop - 1;
        while tmpTop > 0
          invariant tmpTop <= top && ftl == tmpTop - 1
          invariant Trim(d[..tmpTop]) == Trim(was)
        {
          var word := d[ftl];
          ftl := ftl - 1;
          if word != 0 {
            break;
          }
          assert d[..tmpTop][..tmpTop - 1] == d[..tmpTop - 1];
          tmpTop := tmpTop - 1;
        }
        assert Normal(d[..tmpTop]);
        top := tmpTop;
      }
      LeadingZeros(was, |Trim(was)|, bits2);
      assert Used() == was[..top];
    }

    /** BN_is_zero: right in normal form, and otherwise exactly when some word below `top` is not zero. */
    method IsZero() returns (b: bool)
      requires Valid()
      ensures Normal(Used()) ==> (b <==> Value() == 0)
      ensures (b <==> Value() == 0) <==> Normal(Used()) || SomeFrom(Used(), 0)
    {
      b := top == 0;
      ZeroMagnitude(Used(), bits2);
      assert top > 0 && Normal(Used()) ==> Used()[top - 1] != 0;
    }

    /** BN_abs_is_word */
    method AbsIs(w: nat) returns (b: bool)
      requires Valid() && w < Pow2(bits2)
      ensures b == AbsIsWord(Used(), w)
      ensures Normal(Used()) ==> (b <==> Magnitude(Used(), bits2) == w)
    {
      b := (top == 1 && d[0] == w) || (w == 0 && top == 0);
      AbsIsWordExactly(Used(), bits2);
    }

    /** BN_is_word */
    method IsWord(w: nat) returns (b: bool)
      requires Valid() && w < Pow2(bits2)
      ensures b <==> AbsIsWord(Used(), w) && (w == 0 || !neg)
      ensures Normal(Used()) ==> (b <==> Value() == w)
    {
      b := AbsIs(w);
      b := b && (w == 0 || !neg);
    }

    /** BN_is_one */
    method IsOne() returns (b: bool)
      requires Valid()
      ensures b <==> AbsIsWord(Used(), 1) && !neg
      ensures Normal(Used()) ==> (b <==> Value() == 1)
    {
      Pow2Grows(0, bits2);
      b := AbsIs(1);
      b := b && !neg;
    }

    /** BN_is_odd; it needs no normal form. */
    method IsOdd() returns (b: bool)
      requires Valid()
      ensures b <==> Value() % 2 == 1
    {
      hide Magnitude, Pow2, Words;
      b := top > 0 && d[0] % 2 == 1;
      OddIsLowBit(Used(), bits2);
      OddNegated(Magnitude(Used(), bits2));
    }

    /**
     bn_wexpand: nothing to do when `words` fit already, else bn_expand2, which
     is only declared; it is taken to move the words to an array of that size.
     */
    method WordExpand(words: nat, allocates: bool) returns (ok: bool)
      requires Valid()
      modifies `d, `dmax
      ensures Valid() && Used() == old(Used()) && Value() == old(Value())
      ensures ok <==> words <= old(dmax) || allocates
      ensures if ok && words > old(dmax) then dmax == words else dmax == old(dmax) && d == old(d)
    {
      if words <= dmax {
        return true;
      }
      if !allocates {
        return false;
      }
      ghost var was := Used();
      var bigger := new nat[words](i requires 0 <= i < words reads this, d => if i < d.Length then d[i] else 0);
      assert forall i :: 0 <= i < words ==> bigger[i] == if i < d.Length then d[..][i] else 0;
      d, dmax := bigger, words;
      assert Used() == was;
      return true;
    }

    /** bn_expand: on success there is room for every magnitude of `bits` bits. */
    method Expand(bits: nat, allocates: bool) returns (ok: bool)
      requires Valid()
      modifies `d, `dmax
      ensures Valid() && Used() == old(Used()) && Value() == old(Value())
      ensures ok ==> forall m :: 0 <= m < Pow2(bits) ==> Fits(m, bits2, dmax)
      ensures !ok ==> exists m :: 0 <= m < Pow2(bits) && !Fits(m, bits2, dmax)
      ensures if ok && WordsFor(bits, bits2) > old(dmax) then dmax == WordsFor(bits, bits2)
              else dmax == old(dmax) && d == old(d)
    {
      ok := WordExpand((bits + bits2 - 1) / bits2, allocates);
      ExpandIsLeast(bits, bits2, dmax);
    }

    /** BN_zero_ex */
    method SetZero()
      requires Valid()
      modifies `top, `neg
      ensures Valid() && Normal(Used()) && Value() == 0 && !neg
    {
      top, neg := 0, false;
    }
  }

  lemma OddNegated(m: nat)
    ensures var n: int := m; (-n) % 2 == m % 2
  {
  }

  lemma OddIsLowBit(d: seq<nat>, bits2: nat)
    requires bits2 > 0
    ensures Magnitude(d, bits2) % 2 == if d == [] then 0 else d[0] % 2
  {
    if d != [] {
      var half, m := Pow2(bits2 - 1), Magnitude(d[1..], bits2);
      assert Pow2(bits2) * m == 2 * (half * m);
    }
  }
}

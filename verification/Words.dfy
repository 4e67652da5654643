/** Machine words as bounded integers, with the bit operations the sources use. */
module Words {

  const TWO31: int := 0x8000_0000
  const TWO32: int := 0x1_0000_0000

  type byte = x: int | 0 <= x < 256
  type u32 = x: int | 0 <= x < TWO32

  function Pow2(k: nat): (p: nat)
    ensures p > 0
  {
    if k == 0 then 1 else 2 * Pow2(k - 1)
  }

  /** Bitwise exclusive or. */
  function Xor(a: nat, b: nat): nat {
    if a == 0 && b == 0 then 0
    else 2 * Xor(a / 2, b / 2) + (if a % 2 != b % 2 then 1 else 0)
  }

  /** Bitwise and. */
  function And(a: nat, b: nat): nat {
    if a == 0 then 0
    else 2 * And(a / 2, b / 2) + (if a % 2 == 1 && b % 2 == 1 then 1 else 0)
  }

  /** a after t halvings; its parity is bit t of a. */
  function Half(a: nat, t: nat): nat
    decreases t
  {
    if t == 0 then a else Half(a / 2, t - 1)
  }

  /** Testing a word against a single-bit mask reads that bit. */
  lemma {:induction false} AndMask(a: nat, t: nat)
    ensures And(a, Pow2(t)) != 0 <==> Half(a, t) % 2 == 1
    decreases t
  {
    if t > 0 {
      AndMask(a / 2, t - 1);
      HalfZero(t);
    } else {
      AndZero(a / 2);
    }
  }

  lemma {:induction false} AndZero(a: nat)
    ensures And(a, 0) == 0
  {
    if a > 0 {
      AndZero(a / 2);
    }
  }

  lemma {:induction false} HalfZero(t: nat)
    ensures Half(0, t) == 0
  {
    if t > 0 {
      HalfZero(t - 1);
    }
  }

  lemma {:induction false} XorFits(a: nat, b: nat, k: nat)
    requires a < Pow2(k) && b < Pow2(k)
    ensures Xor(a, b) < Pow2(k)
    decreases k
  {
    if k > 0 {
      XorFits(a / 2, b / 2, k - 1);
    }
  }

  lemma {:induction false} AndFits(a: nat, b: nat, k: nat)
    requires a < Pow2(k) && b < Pow2(k)
    ensures And(a, b) < Pow2(k)
    decreases k
  {
    if k > 0 {
      AndFits(a / 2, b / 2, k - 1);
    }
  }

  lemma Powers()
    ensures Pow2(8) == 256 && Pow2(31) == TWO31 && Pow2(32) == TWO32
  {
    assert Pow2(8) == 256;
    assert Pow2(16) == 256 * Pow2(8);
    assert Pow2(24) == 256 * Pow2(16);
    assert Pow2(31) == 128 * Pow2(24);
  }

  /** The t lowest bits of a and b are equal. */
  ghost predicate Agree(a: nat, b: nat, t: nat) {
    t == 0 || (a % 2 == b % 2 && Agree(a / 2, b / 2, t - 1))
  }

  lemma {:induction false} AgreeAll(a: nat, b: nat, k: nat)
    requires a < Pow2(k) && b < Pow2(k)
    requires Agree(a, b, k)
    ensures a == b
    decreases k
  {
    if k > 0 {
      AgreeAll(a / 2, b / 2, k - 1);
    }
  }

  lemma {:induction false} AgreeSelf(a: nat, t: nat)
    ensures Agree(a, a, t)
  {
    if t > 0 {
      AgreeSelf(a / 2, t - 1);
    }
  }

  lemma {:induction false} XorAgree(a: nat, b: nat, p: nat, t: nat)
    ensures Agree(Xor(a, p), Xor(b, p), t) <==> Agree(a, b, t)
    decreases t
  {
    if t > 0 {
      XorStep(a, p);
      XorStep(b, p);
      XorAgree(a / 2, b / 2, p / 2, t - 1);
    }
  }

  lemma XorStep(a: nat, b: nat)
    ensures Xor(a, b) / 2 == Xor(a / 2, b / 2)
    ensures Xor(a, b) % 2 == if a % 2 != b % 2 then 1 else 0
  {
  }

  /** Adding a multiple of 2^k leaves the bits below k alone. */
  lemma {:induction false} AgreeBelow(a: nat, b: nat, k: nat, t: nat)
    requires t <= k
    ensures Agree(a + Pow2(k), b, t) <==> Agree(a, b, t)
    ensures Agree(b, a + Pow2(k), t) <==> Agree(b, a, t)
    decreases t
  {
    if t > 0 {
      assert (a + Pow2(k)) / 2 == a / 2 + Pow2(k - 1);
      AgreeBelow(a / 2, b / 2, k - 1, t - 1);
    }
  }

  /** Words whose t lowest bits are read alike agree in them. */
  lemma {:induction false} SameBits(a: nat, b: nat, t: nat)
    requires forall k :: 0 <= k < t ==> Half(a, k) % 2 == Half(b, k) % 2
    ensures Agree(a, b, t)
    decreases t
  {
    if t > 0 {
      assert Half(a, 0) % 2 == Half(b, 0) % 2;
      forall k | 0 <= k < t - 1
        ensures Half(a / 2, k) % 2 == Half(b / 2, k) % 2
      {
        assert Half(a, k + 1) % 2 == Half(b, k + 1) % 2;
      }
      SameBits(a / 2, b / 2, t - 1);
    }
  }

  // ---------------------------------------------------------------- words in memory

  /** The bytes of a word in memory, least significant byte first. */
  function WordBytes(w: u32): (bytes: seq<byte>)
    ensures |bytes| == 4
  {
    [w % 256, w / 256 % 256, w / 0x1_0000 % 256, w / 0x100_0000]
  }

  /** The word stored in four bytes. */
  function WordOf(bytes: seq<byte>): u32
    requires |bytes| == 4
  {
    var b0: int, b1: int, b2: int, b3: int := bytes[0], bytes[1], bytes[2], bytes[3];
    b0 + 0x100 * b1 + 0x1_0000 * b2 + 0x100_0000 * b3
  }

  lemma WordRoundTrip(w: u32)
    ensures WordOf(WordBytes(w)) == w
  {
    assert w / 0x1_0000 == w / 256 / 256 && w / 0x100_0000 == w / 0x1_0000 / 256;
  }

  /** Words are stored least significant byte first. */
  lemma LittleEndian()
    ensures WordBytes(0x1234_5678) == [0x78, 0x56, 0x34, 0x12] && WordOf([0x78, 0x56, 0x34, 0x12]) == 0x1234_5678
  {
  }

  lemma {:induction false} XorCommutes(a: nat, b: nat)
    ensures Xor(a, b) == Xor(b, a)
  {
    if a != 0 || b != 0 {
      XorCommutes(a / 2, b / 2);
    }
  }

  lemma {:induction false} XorNothing(a: nat)
    ensures Xor(a, 0) == a
  {
    if a != 0 {
      XorNothing(a / 2);
    }
  }

  lemma {:induction false} XorAssociates(a: nat, b: nat, c: nat)
    ensures Xor(Xor(a, b), c) == Xor(a, Xor(b, c))
    decreases a + b + c
  {
    if a != 0 || b != 0 || c != 0 {
      XorStep(a, b);
      XorStep(b, c);
      XorStep(Xor(a, b), c);
      XorStep(a, Xor(b, c));
      XorAssociates(a / 2, b / 2, c / 2);
    }
  }

  lemma XorDoubled(a: nat, b: nat)
    ensures Xor(2 * a, 2 * b) == 2 * Xor(a, b)
  {
    XorStep(2 * a, 2 * b);
  }

  /** The top bits of two numbers do not meet the others. */
  lemma {:induction false} XorTop(a: nat, b: nat, k: nat)
    requires a < Pow2(k) && b < Pow2(k)
    ensures Xor(Pow2(k) + a, Pow2(k) + b) == Xor(a, b) && Xor(Pow2(k) + a, b) == Pow2(k) + Xor(a, b)
    decreases k
  {
    if k == 0 {
      assert Xor(1, 1) == 0 && Xor(1, 0) == 1 && Xor(0, 0) == 0;
    } else {
      hide Xor;
      assert Pow2(k) == 2 * Pow2(k - 1);
      XorTop(a / 2, b / 2, k - 1);
      XorTopStep(a, b, Pow2(k - 1));
    }
  }

  lemma XorTopStep(a: nat, b: nat, p: nat)
    requires a < 2 * p && b < 2 * p
    requires Xor(p + a / 2, p + b / 2) == Xor(a / 2, b / 2) && Xor(p + a / 2, b / 2) == p + Xor(a / 2, b / 2)
    ensures Xor(2 * p + a, 2 * p + b) == Xor(a, b) && Xor(2 * p + a, b) == 2 * p + Xor(a, b)
  {
    hide Xor;
    TopHalves(a, p);
    TopHalves(b, p);
    XorStep(a, b);
    XorStep(2 * p + a, 2 * p + b);
    XorStep(2 * p + a, b);
    Halves(Xor(2 * p + a, 2 * p + b), Xor(a, b), 0);
    Halves(Xor(2 * p + a, b), Xor(a, b), p);
  }

  lemma Halves(x: nat, y: nat, p: nat)
    requires x / 2 == p + y / 2 && x % 2 == y % 2
    ensures x == 2 * p + y
  {
  }

  lemma TopHalves(a: nat, p: nat)
    requires a < 2 * p
    ensures (2 * p + a) / 2 == p + a / 2 && (2 * p + a) % 2 == a % 2 && a / 2 < p
  {
  }

  /** A bit of a bitwise and is set when both are. */
  lemma {:induction false} AndBit(a: nat, b: nat, t: nat)
    ensures Half(And(a, b), t) % 2 == if Half(a, t) % 2 == 1 && Half(b, t) % 2 == 1 then 1 else 0
    decreases t
  {
    AndStep(a, b);
    hide And;
    if t > 0 {
      AndBit(a / 2, b / 2, t - 1);
    }
  }

  lemma AndStep(a: nat, b: nat)
    ensures And(a, b) / 2 == And(a / 2, b / 2)
    ensures And(a, b) % 2 == if a % 2 == 1 && b % 2 == 1 then 1 else 0
  {
  }

  /** A bit of an exclusive or is set when the bits differ. */
  lemma {:induction false} XorBit(a: nat, b: nat, t: nat)
    ensures Half(Xor(a, b), t) % 2 == (Half(a, t) + Half(b, t)) % 2
    decreases t
  {
    XorStep(a, b);
    hide Xor;
    if t > 0 {
      XorBit(a / 2, b / 2, t - 1);
    }
  }

  /** Bit t counts 2^t. */
  lemma {:induction false} HalfIsQuotient(a: nat, t: nat)
    ensures Half(a, t) == a / Pow2(t)
    decreases t
  {
    if t > 0 {
      HalfIsQuotient(a / 2, t - 1);
      QuotientOfQuotient(a, Pow2(t - 1));
    }
  }

  lemma QuotientOfQuotient(a: nat, p: nat)
    requires p > 0
    ensures a / 2 / p == a / (2 * p)
  {
    var q, r := a / 2 / p, a / 2 % p;
    assert a / 2 == q * p + r;
    assert a == q * (2 * p) + (2 * r + a % 2);
    DivideUnique(a, 2 * p, q, 2 * r + a % 2);
  }

  lemma Monotone(a: int, b: int, k: nat)
    requires a <= b
    ensures a * k <= b * k
  {
  }

  lemma DivideUnique(x: int, p: nat, q: int, r: nat)
    requires p > 0 && r < p && x == q * p + r
    ensures x / p == q && x % p == r
  {
    var y, s := x / p, x % p;
    assert x == y * p + s;
    if y < q {
      Monotone(y + 1, q, p);
    } else if y > q {
      Monotone(q + 1, y, p);
    }
  }

  /** A slice of a slice. */
  lemma SliceOf<T>(f: seq<T>, a: nat, w: seq<T>, i: nat, j: nat)
    requires a + |w| <= |f| && f[a..a + |w|] == w && i <= j <= |w|
    ensures f[a + i..a + j] == w[i..j]
  {
    forall k | i <= k < j
      ensures f[a + k] == w[k]
    {
      assert f[a..a + |w|][k] == f[a + k];
    }
  }

  lemma Small(x: nat)
    requires x < TWO32
    ensures x % TWO32 == x
  {
  }

  datatype Option<T> = None | Some(value: T)

  function Min(a: nat, b: nat): (m: nat)
    ensures m <= a && m <= b && (m == a || m == b)
  {
    if a < b then a else b
  }

  /** s with the elements from `at` on replaced. */
  function Put(s: seq<byte>, at: nat, data: seq<byte>): (r: seq<byte>)
    requires at + |data| <= |s|
    ensures |r| == |s|
  {
    s[..at] + data + s[at + |data|..]
  }
}

/** The bit arithmetic of the hash array mapped trie behind Gleam's `Dict`: `mask`,
    `bitpos`, `bitcount` and `index`. A bitmap is a 32-bit value; `Bits` views it as
    32 booleans, and `Rank(b, m)` counts the set bits below position `m`. The
    main results are that the SWAR `bitcount` counts the set bits and that
    `index(bitmap, bitpos(h, s))` is the rank of that position. */
module HamtBits {

  const Shift: nat := 5
  const BucketSize: nat := 32

  /** `hash >>> shift & MASK`: JavaScript takes the shift amount modulo 32. */
  function Mask(hash: bv32, shift: nat): (m: bv5)
  {
    ((hash >> (shift % 32)) & 31) as bv5
  }

  /** `1 << mask(hash, shift)`. */
  function Bitpos(hash: bv32, shift: nat): bv32
  {
    Bit(Mask(hash, shift))
  }

  function Bit(m: bv5): bv32
  {
    1 << m
  }

  /** The population count of `bitcount` (SWAR: pairs, nibbles, bytes, then folding). */
  function Bitcount(x: bv32): bv32
  {
    var x1 := x - ((x >> 1) & 0x5555_5555);
    var x2 := (x1 & 0x3333_3333) + ((x1 >> 2) & 0x3333_3333);
    var x3 := (x2 + (x2 >> 4)) & 0x0F0F_0F0F;
    var x4 := x3 + (x3 >> 8);
    var x5 := x4 + (x4 >> 16);
    x5 & 127
  }

  /** `index(bitmap, bit)`: the number of set bits of `bitmap` below `bit`. */
  function Index(bitmap: bv32, bit: bv32): nat
  {
    Bitcount(bitmap & (bit - 1)) as nat
  }

  predicate Has(b: bv32, i: bv5)
  {
    (b >> i) & 1 == 1
  }

  /** The bitmap as 32 booleans, least significant first. */
  function Bits(b: bv32): (s: seq<bool>)
    ensures |s| == BucketSize
  {
    seq(32, i requires 0 <= i < 32 => Has(b, i as bv5))
  }

  function Count(s: seq<bool>): (n: nat)
    ensures n <= |s|
  {
    if s == [] then 0 else Count(s[..|s| - 1]) + (if s[|s| - 1] then 1 else 0)
  }

  /** How many bits of `b` below position `m` are set. */
  function Rank(b: bv32, m: nat): nat
    requires m <= BucketSize
  {
    Count(Bits(b)[..m])
  }

  function Popcount(b: bv32): nat
  {
    Count(Bits(b))
  }

  // Counting booleans.

  lemma {:induction false} CountAppend(a: seq<bool>, b: seq<bool>)
    ensures Count(a + b) == Count(a) + Count(b)
    decreases |b|
  {
    if b == [] {
      assert a + b == a;
    } else {
      assert (a + b)[..|a + b| - 1] == a + b[..|b| - 1];
      CountAppend(a, b[..|b| - 1]);
    }
  }

  /** Flipping one boolean on adds one to the count. */
  lemma CountSet(s: seq<bool>, i: nat)
    requires i < |s| && !s[i]
    ensures Count(s[i := true]) == Count(s) + 1
  {
    assert s == s[..i] + [s[i]] + s[i + 1..];
    assert s[i := true] == s[..i] + [true] + s[i + 1..];
    CountAppend(s[..i] + [s[i]], s[i + 1..]);
    CountAppend(s[..i], [s[i]]);
    CountAppend(s[..i] + [true], s[i + 1..]);
    CountAppend(s[..i], [true]);
  }

  /** Booleans that agree below `m` and are off from `m` on count as the prefix. */
  lemma {:induction false} CountLow(s: seq<bool>, t: seq<bool>, m: nat)
    requires |s| == |t| && m <= |s|
    requires forall i :: 0 <= i < |s| ==> s[i] == (i < m && t[i])
    ensures Count(s) == Count(t[..m])
    decreases |s|
  {
    if |s| == m {
      assert s == t[..m];
    } else {
      CountLow(s[..|s| - 1], t[..|t| - 1], m);
      assert t[..|t| - 1][..m] == t[..m];
    }
  }

  /** A set position has a rank below the count of the whole bitmap. */
  lemma RankBelow(s: seq<bool>, i: nat)
    requires i < |s| && s[i]
    ensures Count(s[..i]) < Count(s)
  {
    assert s == s[..i] + [s[i]] + s[i + 1..];
    CountAppend(s[..i] + [s[i]], s[i + 1..]);
    CountAppend(s[..i], [s[i]]);
  }

  /** Ranks of set positions are distinct. */
  lemma {:induction false} RankInjective(s: seq<bool>, i: nat, j: nat)
    requires i < j < |s| && s[i]
    ensures Count(s[..i]) < Count(s[..j])
  {
    RankBelow(s[..j], i);
    assert s[..j][..i] == s[..i];
  }

  // Single bits, with positions as `bv5` so that the solver need not convert them.

  lemma HasOr(b: bv32, m: bv5, i: bv5)
    ensures Has(b | Bit(m), i) == (Has(b, i) || i == m)
  {
  }

  lemma HasXor(b: bv32, m: bv5, i: bv5)
    requires Has(b, m)
    ensures Has(b ^ Bit(m), i) == (Has(b, i) && i != m)
  {
  }

  lemma HasBit(m: bv5, i: bv5)
    ensures Has(Bit(m), i) == (i == m)
  {
  }

  lemma HasLow(b: bv32, m: bv5, i: bv5)
    ensures Has(b & (Bit(m) - 1), i) == (i < m && Has(b, i))
  {
  }

  lemma AndBit(b: bv32, m: bv5)
    ensures (b & Bit(m) != 0) == Has(b, m)
  {
  }

  lemma HasShift(b: bv32, i: bv5)
    requires i < 31
    ensures Has(b >> 1, i) == Has(b, i + 1)
  {
  }

  lemma HasZero(i: bv5)
    ensures !Has(0, i)
  {
  }

  lemma AsPosition(j: nat, m: bv5)
    requires j < 32
    ensures (j as bv5 == m) == (j == m as nat)
    ensures (j as bv5 < m) == (j < m as nat)
  {
  }

  lemma BitsAt(b: bv32, m: bv5)
    ensures Bits(b)[m as nat] == Has(b, m)
  {
    assert (m as nat) as bv5 == m;
  }

  /** `bitmap | bit`: the bitmap with bucket `m` occupied. */
  function WithBit(b: bv32, m: bv5): (r: bv32)
    ensures Bits(r) == Bits(b)[m as nat := true]
  {
    BitsOr(b, m);
    b | Bit(m)
  }

  /** `bitmap | 1 << i` for a position `i` counted as a number. */
  function SetBit(b: bv32, i: nat): (r: bv32)
    requires i < 32
    ensures Bits(r) == Bits(b)[i := true]
  {
    AsPosition(i, i as bv5);
    WithBit(b, i as bv5)
  }

  /** `bitmap ^ bit` on an occupied bucket: the bitmap with bucket `m` vacated. */
  function WithoutBit(b: bv32, m: bv5): (r: bv32)
    requires Bits(b)[m as nat]
    ensures Bits(r) == Bits(b)[m as nat := false]
  {
    BitsAt(b, m);
    BitsXor(b, m);
    b ^ Bit(m)
  }

  lemma BitsOr(b: bv32, m: bv5)
    ensures Bits(b | Bit(m)) == Bits(b)[m as nat := true]
  {
    var s, t := Bits(b | Bit(m)), Bits(b)[m as nat := true];
    forall i | 0 <= i < 32
      ensures s[i] == t[i]
    {
      HasOr(b, m, i as bv5);
      AsPosition(i, m);
    }
  }

  lemma BitsXor(b: bv32, m: bv5)
    requires Has(b, m)
    ensures Bits(b ^ Bit(m)) == Bits(b)[m as nat := false]
  {
    var s, t := Bits(b ^ Bit(m)), Bits(b)[m as nat := false];
    forall i | 0 <= i < 32
      ensures s[i] == t[i]
    {
      XorAt(b, m, i);
    }
  }

  lemma XorAt(b: bv32, m: bv5, i: nat)
    requires Has(b, m) && i < 32
    ensures Bits(b ^ Bit(m))[i] == (Bits(b)[i] && i != m as nat)
  {
    HasXor(b, m, i as bv5);
    AsPosition(i, m);
    BitAt(b ^ Bit(m), i);
    BitAt(b, i);
  }

  lemma BitsOfBit(m: bv5)
    ensures Bits(Bit(m)) == Bits(0)[m as nat := true]
  {
    var s, t := Bits(Bit(m)), Bits(0)[m as nat := true];
    forall i | 0 <= i < 32
      ensures s[i] == t[i]
    {
      HasBit(m, i as bv5);
      HasZero(i as bv5);
      AsPosition(i, m);
    }
  }

  lemma BitsOfZero()
    ensures Bits(0) == seq(32, _ => false)
  {
    var s, t := Bits(0), seq(32, _ => false);
    forall i | 0 <= i < 32
      ensures s[i] == t[i]
    {
      HasZero(i as bv5);
    }
  }

  lemma CountNone(n: nat)
    ensures Count(seq(n, _ => false)) == 0
  {
    if n > 0 {
      assert seq(n, _ => false)[..n - 1] == seq(n - 1, _ => false);
      CountNone(n - 1);
    }
  }

  lemma BitsLow(b: bv32, m: bv5)
    ensures forall i :: 0 <= i < 32 ==> Bits(b & (Bit(m) - 1))[i] == (i < m as nat && Bits(b)[i])
  {
    var s, t := Bits(b & (Bit(m) - 1)), Bits(b);
    forall i | 0 <= i < 32
      ensures s[i] == (i < m as nat && t[i])
    {
      HasLow(b, m, i as bv5);
      AsPosition(i, m);
    }
  }

  lemma BitsShift(b: bv32, i: nat)
    requires i < 31
    ensures Bits(b >> 1)[i] == Bits(b)[i + 1]
  {
    var m := i as bv5;
    NextPosition(i);
    HasShift(b, m);
    BitsAt(b >> 1, m);
    BitsAt(b, m + 1);
  }

  /** A position below 31 and the next one, as 5-bit values. */
  lemma NextPosition(i: nat)
    requires i < 31
    ensures (i as bv5) < 31 && (i as bv5) as nat == i && ((i as bv5) + 1) as nat == i + 1
  {
  }

  lemma LowBit(b: bv32)
    ensures (b & 1 != 0) == Bits(b)[0]
  {
  }

  // `bitcount` counts: each byte of the SWAR's third stage holds the count of
  // that byte of the input, and the folding adds the four bytes.

  function Stage3(x: bv32): bv32
  {
    var x1 := x - ((x >> 1) & 0x5555_5555);
    var x2 := (x1 & 0x3333_3333) + ((x1 >> 2) & 0x3333_3333);
    (x2 + (x2 >> 4)) & 0x0F0F_0F0F
  }

  function Fold(y: bv32): bv32
  {
    var y4 := y + (y >> 8);
    var y5 := y4 + (y4 >> 16);
    y5 & 127
  }

  // Sums kept behind functions so that the solver matches them as terms.
  function Add2(a: bv32, b: bv32): bv32 { a + b }
  function Add4(a: bv32, b: bv32, c: bv32, d: bv32): bv32 { Add2(Add2(Add2(a, b), c), d) }

  function B(x: bv32, i: bv5): bv32 { (x >> i) & 1 }

  function Byte(x: bv32, s: nat): bv32
    requires s <= 24
  {
    B(x, s as bv5) + B(x, (s + 1) as bv5) + B(x, (s + 2) as bv5) + B(x, (s + 3) as bv5)
      + B(x, (s + 4) as bv5) + B(x, (s + 5) as bv5) + B(x, (s + 6) as bv5) + B(x, (s + 7) as bv5)
  }

  lemma Unfold(x: bv32)
    ensures Bitcount(x) == Fold(Stage3(x)) && Stage3(x) & 0xF0F0_F0F0 == 0
  {
  }

  lemma Byte0(x: bv32) ensures Stage3(x) & 0xFF == Byte(x, 0) {}
  lemma Byte1(x: bv32) ensures (Stage3(x) >> 8) & 0xFF == Byte(x, 8) {}
  lemma Byte2(x: bv32) ensures (Stage3(x) >> 16) & 0xFF == Byte(x, 16) {}
  lemma Byte3(x: bv32) ensures (Stage3(x) >> 24) & 0xFF == Byte(x, 24) {}

  lemma Combine(y: bv32)
    requires y & 0xF0F0_F0F0 == 0
    ensures Fold(y) == Add4(y & 0xFF, (y >> 8) & 0xFF, (y >> 16) & 0xFF, (y >> 24) & 0xFF)
  {
  }

  lemma BitcountBytes(x: bv32)
    ensures Bitcount(x) == Add4(Byte(x, 0), Byte(x, 8), Byte(x, 16), Byte(x, 24))
  {
    Unfold(x);
    Combine(Stage3(x));
    Byte0(x); Byte1(x); Byte2(x); Byte3(x);
  }

  lemma AddSmall(a: bv32, b: bv32)
    requires a <= 24 && b <= 8
    ensures Add2(a, b) <= 32 && Add2(a, b) as nat == a as nat + b as nat
  {
  }

  lemma AddBound(a: bv32, b: bv32)
    requires a <= 16 && b <= 8
    ensures Add2(a, b) <= 24
  {
  }

  lemma SumNat(n0: bv32, n1: bv32, n2: bv32, n3: bv32)
    requires n0 <= 8 && n1 <= 8 && n2 <= 8 && n3 <= 8
    ensures Add4(n0, n1, n2, n3) as nat == n0 as nat + n1 as nat + n2 as nat + n3 as nat
  {
    AddSmall(n0, n1);
    AddBound(n0, n1);
    AddSmall(Add2(n0, n1), n2);
    AddBound(Add2(n0, n1), n2);
    AddSmall(Add2(Add2(n0, n1), n2), n3);
  }

  /** The first `t` bits of the byte at `s`, summed as a bit-vector. */
  function Partial(x: bv32, s: nat, t: nat): bv32
    requires s <= 24 && t <= 8
  {
    if t == 0 then 0 else Partial(x, s, t - 1) + B(x, (s + t - 1) as bv5)
  }

  lemma Inc(a: bv32)
    requires a as nat < 64
    ensures (a + 1) as nat == a as nat + 1
  {
  }

  lemma PartialStep(x: bv32, s: nat, t: nat)
    requires s <= 24 && 0 < t <= 8 && Partial(x, s, t - 1) as nat < t
    ensures Partial(x, s, t) as nat
         == Partial(x, s, t - 1) as nat + (if Has(x, (s + t - 1) as bv5) then 1 else 0)
  {
    var acc := Partial(x, s, t - 1);
    if Has(x, (s + t - 1) as bv5) {
      assert B(x, (s + t - 1) as bv5) == 1;
      Inc(acc);
    } else {
      assert B(x, (s + t - 1) as bv5) == 0;
    }
  }

  lemma PartialCount(x: bv32, s: nat, t: nat)
    requires s <= 24 && t <= 8
    ensures Partial(x, s, t) as nat == Count(Bits(x)[s..s + t]) && Partial(x, s, t) as nat <= t
  {
    PartialSum(x, s, t);
    SumCount(Bits(x), s, t);
  }

  /** The number of `true`s among positions `s .. s + t - 1`, counted one by one. */
  function SetAmong(w: seq<bool>, s: nat, t: nat): nat
    requires s + t <= |w|
  {
    if t == 0 then 0 else SetAmong(w, s, t - 1) + (if w[s + t - 1] then 1 else 0)
  }

  lemma {:induction false} PartialSum(x: bv32, s: nat, t: nat)
    requires s <= 24 && t <= 8
    ensures Partial(x, s, t) as nat == SetAmong(Bits(x), s, t) && SetAmong(Bits(x), s, t) <= t
  {
    if t > 0 {
      PartialSum(x, s, t - 1);
      PartialSumStep(x, s, t);
    }
  }

  lemma PartialSumStep(x: bv32, s: nat, t: nat)
    requires s <= 24 && 0 < t <= 8
    requires Partial(x, s, t - 1) as nat == SetAmong(Bits(x), s, t - 1) && SetAmong(Bits(x), s, t - 1) <= t - 1
    ensures Partial(x, s, t) as nat == SetAmong(Bits(x), s, t) && SetAmong(Bits(x), s, t) <= t
  {
    PartialStep(x, s, t);
    BitAt(x, s + t - 1);
  }

  lemma {:induction false} SumCount(w: seq<bool>, s: nat, t: nat)
    requires s + t <= |w|
    ensures SetAmong(w, s, t) == Count(w[s..s + t])
  {
    if t == 0 {
      assert w[s..s] == [];
    } else {
      SumCount(w, s, t - 1);
      CountSlice(w, s, t);
    }
  }

  /** Position `j` of the bitmap, counted as a number. */
  lemma BitAt(x: bv32, j: nat)
    requires j < 32
    ensures Bits(x)[j] == Has(x, j as bv5)
  {
    AsPosition(j, j as bv5);
    BitsAt(x, j as bv5);
  }

  /** Counting a slice one element longer. */
  lemma CountSlice(w: seq<bool>, s: nat, t: nat)
    requires 0 < t && s + t <= |w|
    ensures Count(w[s..s + t]) == Count(w[s..s + t - 1]) + (if w[s + t - 1] then 1 else 0)
  {
    var v := w[s..s + t];
    assert v[..t - 1] == w[s..s + t - 1];
  }

  lemma BytePartial(x: bv32, s: nat)
    requires s <= 24
    ensures Byte(x, s) == Partial(x, s, 8)
  {
    assert Partial(x, s, 1) == B(x, s as bv5);
    assert Partial(x, s, 2) == Partial(x, s, 1) + B(x, (s + 1) as bv5);
    assert Partial(x, s, 3) == Partial(x, s, 2) + B(x, (s + 2) as bv5);
    assert Partial(x, s, 4) == Partial(x, s, 3) + B(x, (s + 3) as bv5);
    assert Partial(x, s, 5) == Partial(x, s, 4) + B(x, (s + 4) as bv5);
    assert Partial(x, s, 6) == Partial(x, s, 5) + B(x, (s + 5) as bv5);
    assert Partial(x, s, 7) == Partial(x, s, 6) + B(x, (s + 6) as bv5);
    assert Partial(x, s, 8) == Partial(x, s, 7) + B(x, (s + 7) as bv5);
  }

  lemma ByteBound(x: bv32, s: nat)
    requires s <= 24
    ensures Byte(x, s) <= 8
  {
  }

  lemma ByteCount(x: bv32, s: nat)
    requires s <= 24
    ensures Byte(x, s) <= 8 && Byte(x, s) as nat == Count(Bits(x)[s..s + 8])
  {
    ByteBound(x, s);
    BytePartial(x, s);
    PartialCount(x, s, 8);
  }

  lemma CountQuarters(s: seq<bool>)
    requires |s| == 32
    ensures Count(s) == Count(s[0..8]) + Count(s[8..16]) + Count(s[16..24]) + Count(s[24..32])
  {
    assert s == s[0..8] + s[8..16] + s[16..24] + s[24..32];
    CountAppend(s[0..8] + s[8..16] + s[16..24], s[24..32]);
    CountAppend(s[0..8] + s[8..16], s[16..24]);
    CountAppend(s[0..8], s[8..16]);
  }

  /** `bitcount(x)` is the number of set bits of `x`. */
  lemma BitcountCounts(x: bv32)
    ensures Bitcount(x) as nat == Popcount(x)
  {
    BitcountBytes(x);
    ByteCount(x, 0); ByteCount(x, 8); ByteCount(x, 16); ByteCount(x, 24);
    SumNat(Byte(x, 0), Byte(x, 8), Byte(x, 16), Byte(x, 24));
    CountQuarters(Bits(x));
  }

  lemma LowCount(b: bv32, m: bv5)
    ensures Popcount(b & (Bit(m) - 1)) == Rank(b, m as nat)
  {
    BitsLow(b, m);
    CountLow(Bits(b & (Bit(m) - 1)), Bits(b), m as nat);
  }

  /** `index(bitmap, 1 << m)` is the rank of position `m` in `bitmap`. */
  lemma IndexIsRank(b: bv32, m: bv5)
    ensures Index(b, Bit(m)) == Rank(b, m as nat)
  {
    BitcountCounts(b & (Bit(m) - 1));
    LowCount(b, m);
  }

  // A bitmap is determined by its bits.

  lemma HasAll(a: bv32, b: bv32)
    requires Has(a, 0) == Has(b, 0) && Has(a, 1) == Has(b, 1) && Has(a, 2) == Has(b, 2) && Has(a, 3) == Has(b, 3)
    requires Has(a, 4) == Has(b, 4) && Has(a, 5) == Has(b, 5) && Has(a, 6) == Has(b, 6) && Has(a, 7) == Has(b, 7)
    requires Has(a, 8) == Has(b, 8) && Has(a, 9) == Has(b, 9) && Has(a, 10) == Has(b, 10) && Has(a, 11) == Has(b, 11)
    requires Has(a, 12) == Has(b, 12) && Has(a, 13) == Has(b, 13) && Has(a, 14) == Has(b, 14) && Has(a, 15) == Has(b, 15)
    requires Has(a, 16) == Has(b, 16) && Has(a, 17) == Has(b, 17) && Has(a, 18) == Has(b, 18) && Has(a, 19) == Has(b, 19)
    requires Has(a, 20) == Has(b, 20) && Has(a, 21) == Has(b, 21) && Has(a, 22) == Has(b, 22) && Has(a, 23) == Has(b, 23)
    requires Has(a, 24) == Has(b, 24) && Has(a, 25) == Has(b, 25) && Has(a, 26) == Has(b, 26) && Has(a, 27) == Has(b, 27)
    requires Has(a, 28) == Has(b, 28) && Has(a, 29) == Has(b, 29) && Has(a, 30) == Has(b, 30) && Has(a, 31) == Has(b, 31)
    ensures a == b
  {
  }

  lemma BitsInjective(a: bv32, b: bv32)
    requires Bits(a) == Bits(b)
    ensures a == b
  {
    forall i: bv5
      ensures Has(a, i) == Has(b, i)
    {
      assert Bits(a)[i as nat] == Bits(b)[i as nat];
      assert (i as nat) as bv5 == i;
    }
    HasAll(a, b);
  }

  lemma {:induction false} CountZero(s: seq<bool>)
    requires Count(s) == 0
    ensures s == seq(|s|, _ => false)
  {
    if s != [] {
      CountZero(s[..|s| - 1]);
      assert s == s[..|s| - 1] + [s[|s| - 1]];
    }
  }

  lemma PopcountZero(x: bv32)
    requires Popcount(x) == 0
    ensures x == 0
  {
    CountZero(Bits(x));
    BitsOfZero();
    BitsInjective(x, 0);
  }

  lemma PopcountBit(m: bv5)
    ensures Popcount(Bit(m)) == 1
  {
    BitsOfBit(m);
    BitsOfZero();
    CountNone(32);
    CountSet(Bits(0), m as nat);
  }

  lemma XorOther(b: bv32, m: bv5)
    requires Has(b, m) && b != Bit(m)
    ensures b ^ Bit(m) != 0
  {
  }

  /** A bitmap with bit `m` set and any other bit set has at least two set bits. */
  lemma PopcountOther(b: bv32, m: bv5)
    requires Has(b, m) && b != Bit(m)
    ensures Popcount(b) >= 2 && Popcount(b ^ Bit(m)) == Popcount(b) - 1
  {
    XorOther(b, m);
    BitsXor(b, m);
    BitsAt(b, m);
    var t := Bits(b)[m as nat := false];
    assert t[m as nat := true] == Bits(b);
    CountSet(t, m as nat);
    if Popcount(b ^ Bit(m)) == 0 {
      PopcountZero(b ^ Bit(m));
    }
  }

  // Hashes are determined by their seven chunks at shifts 0, 5, ..., 30.

  function Chunk(a: bv32, s: nat): bv32
  {
    (a >> (s % 32)) & 31
  }

  function Low(a: bv32, s: nat): bv32
    requires s < 32
  {
    (a >> s) & 31
  }

  lemma Narrow(x: bv32, y: bv32)
    requires x < 32 && y < 32 && x as bv5 == y as bv5
    ensures x == y
  {
  }

  lemma MaskChunk(a: bv32, b: bv32, s: nat)
    requires Mask(a, s) == Mask(b, s)
    ensures Chunk(a, s) == Chunk(b, s)
  {
    Narrow(Chunk(a, s), Chunk(b, s));
  }

  lemma ChunkLow(a: bv32, s: nat)
    requires s < 32
    ensures Chunk(a, s) == Low(a, s)
  {
    var t := s % 32;
    assert t == s;
    assert Chunk(a, s) == (a >> t) & 31;
  }

  lemma LowsDetermine(a: bv32, b: bv32)
    requires Low(a, 0) == Low(b, 0) && Low(a, 5) == Low(b, 5) && Low(a, 10) == Low(b, 10)
    requires Low(a, 15) == Low(b, 15) && Low(a, 20) == Low(b, 20) && Low(a, 25) == Low(b, 25)
    requires Low(a, 30) == Low(b, 30)
    ensures a == b
  {
  }

  lemma MasksDetermine(a: bv32, b: bv32)
    requires Mask(a, 0) == Mask(b, 0) && Mask(a, 5) == Mask(b, 5) && Mask(a, 10) == Mask(b, 10)
    requires Mask(a, 15) == Mask(b, 15) && Mask(a, 20) == Mask(b, 20) && Mask(a, 25) == Mask(b, 25)
    requires Mask(a, 30) == Mask(b, 30)
    ensures a == b
  {
    MaskChunk(a, b, 0); MaskChunk(a, b, 5); MaskChunk(a, b, 10); MaskChunk(a, b, 15);
    MaskChunk(a, b, 20); MaskChunk(a, b, 25); MaskChunk(a, b, 30);
    ChunkLow(a, 0); ChunkLow(b, 0); ChunkLow(a, 5); ChunkLow(b, 5); ChunkLow(a, 10); ChunkLow(b, 10);
    ChunkLow(a, 15); ChunkLow(b, 15); ChunkLow(a, 20); ChunkLow(b, 20); ChunkLow(a, 25); ChunkLow(b, 25);
    ChunkLow(a, 30); ChunkLow(b, 30);
    LowsDetermine(a, b);
  }

  /** At shift 30 only two bits of the hash are left. */
  lemma TopMask(a: bv32)
    ensures Mask(a, 30) as nat < 4
  {
    ChunkLow(a, 30);
    assert Low(a, 30) < 4;
    assert Mask(a, 30) == Chunk(a, 30) as bv5;
    assert Mask(a, 30) < 4;
  }

  /** Setting bit `|p|` or not, after the bits `p` and zeros above, gives the bits
      `p + [x]` and zeros above. */
  lemma AppendBit(p: seq<bool>, x: bool, b: bv32, b2: bv32)
    requires |p| < 32 && Bits(b) == p + seq(32 - |p|, _ => false)
    requires Bits(b2) == if x then Bits(b)[|p| := true] else Bits(b)
    ensures Bits(b2) == (p + [x]) + seq(32 - |p| - 1, _ => false)
  {
    var s, t := Bits(b2), (p + [x]) + seq(32 - |p| - 1, _ => false);
    forall i | 0 <= i < 32
      ensures s[i] == t[i]
    {
    }
  }

  /** `b >>> 1` as bits: everything moves down one place and a zero comes in on top. */
  lemma ShiftBits(b: bv32)
    ensures Bits(b >> 1) == Bits(b)[1..] + [false]
  {
    var s, t := Bits(b >> 1), Bits(b)[1..] + [false];
    forall i | 0 <= i < 32
      ensures s[i] == t[i]
    {
      if i < 31 {
        BitsShift(b, i);
      } else {
        BitsAt(b >> 1, 31);
      }
    }
  }

  /** Shifting right one bit at a time: if `b` is `bitmap` shifted right `i` times, its
      low bit is bit `i` of `bitmap`, and `b >>> 1` is `bitmap` shifted `i + 1` times. */
  lemma ShiftStep(b: bv32, bitmap: bv32, i: nat)
    requires i < 32 && Bits(b) == Bits(bitmap)[i..] + seq(i, _ => false)
    ensures (b & 1 != 0) == Bits(bitmap)[i]
    ensures Bits(b >> 1) == Bits(bitmap)[i + 1..] + seq(i + 1, _ => false)
  {
    LowBit(b);
    ShiftBits(b);
    ShiftSeq(Bits(b), Bits(bitmap), i);
  }

  /** The sequence form of `ShiftStep`: dropping the head of `t[i..]` padded with `i`
      falses and padding with one more. */
  lemma ShiftSeq(s: seq<bool>, t: seq<bool>, i: nat)
    requires i < |t| && s == t[i..] + seq(i, _ => false)
    ensures s[0] == t[i]
    ensures s[1..] + [false] == t[i + 1..] + seq(i + 1, _ => false)
  {
    assert s[1..] == t[i + 1..] + seq(i, _ => false);
  }

  /** A clear `bitmap & bit` test: bucket `m` is empty; `index` is its rank. */
  lemma ProbeClear(b: bv32, m: bv5)
    requires b & Bit(m) == 0
    ensures !Bits(b)[m as nat] && Index(b, Bit(m)) == Rank(b, m as nat)
  {
    Probe(b, m);
  }

  /** A set `bitmap & bit` test: bucket `m` is occupied; `index` is its rank. */
  lemma ProbeSet(b: bv32, m: bv5)
    requires b & Bit(m) != 0
    ensures Bits(b)[m as nat] && Index(b, Bit(m)) == Rank(b, m as nat)
  {
    Probe(b, m);
  }

  /** What an index node asks of its bitmap about position `m`: whether the bit is set,
      and the index of its child. */
  lemma Probe(b: bv32, m: bv5)
    ensures (b & Bit(m) == 0) == !Bits(b)[m as nat]
    ensures Index(b, Bit(m)) == Rank(b, m as nat)
  {
    AndBit(b, m);
    BitsAt(b, m);
    IndexIsRank(b, m);
  }

  // Ranks under a changed bitmap.

  /** The count of a prefix grows by the next boolean. */
  lemma CountPrefix(s: seq<bool>, j: nat)
    requires j < |s|
    ensures Count(s[..j + 1]) == Count(s[..j]) + (if s[j] then 1 else 0)
  {
    assert s[..j + 1][..j] == s[..j];
  }

  /** Ranks grow with the position. */
  lemma {:induction false} RankMono(s: seq<bool>, i: nat, j: nat)
    requires i <= j <= |s|
    ensures Count(s[..i]) <= Count(s[..j])
    decreases j - i
  {
    if i < j {
      CountPrefix(s, j - 1);
      RankMono(s, i, j - 1);
    }
  }

  /** Two set positions of equal rank are the same position. */
  lemma RankDistinct(s: seq<bool>, i: nat, j: nat)
    requires i < |s| && j < |s| && s[i] && s[j] && Count(s[..i]) == Count(s[..j])
    ensures i == j
  {
    if i < j {
      RankInjective(s, i, j);
    } else if j < i {
      RankInjective(s, j, i);
    }
  }

  /** Two different set positions have different ranks. */
  lemma RankApart(s: seq<bool>, i: nat, j: nat)
    requires i < |s| && j < |s| && s[i] && s[j] && i != j
    ensures Count(s[..i]) != Count(s[..j])
  {
    if i < j {
      RankInjective(s, i, j);
    } else {
      RankInjective(s, j, i);
    }
  }

  /** Turning position `i` on adds one to the ranks above it. */
  lemma CountPrefixSet(s: seq<bool>, i: nat, j: nat)
    requires i < |s| && !s[i] && j <= |s|
    ensures Count(s[i := true][..j]) == Count(s[..j]) + (if i < j then 1 else 0)
  {
    if i < j {
      assert s[i := true][..j] == s[..j][i := true];
      CountSet(s[..j], i);
    } else {
      assert s[i := true][..j] == s[..j];
    }
  }

  /** `bitmap | bit` for a clear bit: the ranks above it grow by one. */
  lemma RankOr(b: bv32, m: bv5, j: nat)
    requires !Bits(b)[m as nat] && j <= BucketSize
    ensures Rank(b | Bit(m), j) == Rank(b, j) + (if m as nat < j then 1 else 0)
  {
    BitsOr(b, m);
    CountPrefixSet(Bits(b), m as nat, j);
  }

  /** `bitmap ^ bit` for a set bit: the ranks above it shrink by one. */
  lemma RankXor(b: bv32, m: bv5, j: nat)
    requires Bits(b)[m as nat] && j <= BucketSize
    ensures Rank(b ^ Bit(m), j) == Rank(b, j) - (if m as nat < j then 1 else 0)
  {
    BitsAt(b, m);
    BitsXor(b, m);
    var t := Bits(b)[m as nat := false];
    assert t[m as nat := true] == Bits(b);
    CountPrefixSet(t, m as nat, j);
  }

  /** `bitmap | bit` for a clear bit: one more set bit. */
  lemma PopcountOr(b: bv32, m: bv5)
    requires !Bits(b)[m as nat]
    ensures Popcount(b | Bit(m)) == Popcount(b) + 1
  {
    BitsOr(b, m);
    CountSet(Bits(b), m as nat);
  }

  /** A bitmap whose set bits all lie below 4 has at most 4 of them. */
  lemma PopcountLow(b: bv32)
    requires forall i :: 4 <= i < 32 ==> !Bits(b)[i]
    ensures Popcount(b) <= 4
  {
    CountLow(Bits(b), Bits(b), 4);
  }

  /** A rank never exceeds the number of set bits. */
  lemma RankAtMost(b: bv32, m: nat)
    requires m <= BucketSize
    ensures Rank(b, m) <= Popcount(b)
  {
    RankMono(Bits(b), m, 32);
    assert Bits(b)[..32] == Bits(b);
  }
}

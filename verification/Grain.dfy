/** The Grain-80 generator in self-shrinking mode. */
module Grain {
  import opened PrimeField

  type Bits = seq<bool>

  // ----- The recurrence -----

  /** Bit k of the linear recurrence that starts with the 80 bits init. */
  ghost function Stream(init: Bits, k: nat): bool
    requires |init| == 80
  {
    if k < 80 then init[k]
    else
      var n := k - 80;
      Stream(init, n + 62) != (Stream(init, n + 51) != (Stream(init, n + 38) != (Stream(init, n + 23) !=
        (Stream(init, n + 13) != Stream(init, n)))))
  }

  /** Some bit of the initial state is 1. */
  ghost predicate Seeded(init: Bits) {
    |init| == 80 && exists i | 0 <= i < 80 :: init[i]
  }

  ghost predicate NonZeroFrom(init: Bits, n: nat)
    requires |init| == 80
  {
    exists i: nat {:trigger Stream(init, i)} :: n <= i < n + 80 && Stream(init, i)
  }

  /** The register is never all zero: the recurrence can be run backwards. */
  lemma {:induction false} NeverZero(init: Bits, n: nat)
    requires Seeded(init)
    ensures NonZeroFrom(init, n)
  {
    if n == 0 {
      var i :| 0 <= i < 80 && init[i];
      assert Stream(init, i);
    } else {
      NeverZero(init, n - 1);
      var i: nat :| n - 1 <= i < n - 1 + 80 && Stream(init, i);
      if i == n - 1 {
        var m: nat := n - 1;
        LeadingBit(init, m);
        var j: nat :| m < j <= m + 80 && Stream(init, j);
      }
    }
  }

  lemma LeadingBit(init: Bits, m: nat)
    requires |init| == 80 && Stream(init, m)
    ensures exists j: nat {:trigger Stream(init, j)} :: m < j <= m + 80 && Stream(init, j)
  {
    Recurrence(init, m);
    if !Stream(init, m + 62) && !Stream(init, m + 51) && !Stream(init, m + 38) && !Stream(init, m + 23) &&
      !Stream(init, m + 13) {
      assert Stream(init, m + 80);
    }
  }

  lemma Recurrence(init: Bits, n: nat)
    requires |init| == 80
    ensures Stream(init, n + 80) ==
            (Stream(init, n + 62) != (Stream(init, n + 51) != (Stream(init, n + 38) != (Stream(init, n + 23) !=
              (Stream(init, n + 13) != Stream(init, n))))))
  {
    var k := n + 80;
    assert k - 80 == n;
  }

  // ----- A selecting bit comes within 128 pairs -----
  //
  // Suppose every other bit is zero over 128 pairs starting at c. Then the bits o(j) between
  // them satisfy two recurrences at once; Euclid's algorithm on the two characteristic
  // polynomials over GF(2) ends in 1, so all o(j) vanish and the register would be zero.

  ghost predicate AllRejected(init: Bits, c: nat)
    requires |init| == 80
  {
    forall i: nat {:trigger Rejected(init, c, i)} | i < 128 :: Rejected(init, c, i)
  }

  ghost predicate Rejected(init: Bits, c: nat, i: nat)
    requires |init| == 80
  {
    !Stream(init, c + 2 * i)
  }

  /** The partner bit of pair j. */
  ghost function PartnerBit(init: Bits, c: nat, j: nat): bool
    requires |init| == 80
  {
    Stream(init, c + 2 * j + 1)
  }

  lemma EvenRecurrence(init: Bits, c: nat, i: nat)
    requires |init| == 80 && AllRejected(init, c) && i < 87
    ensures PartnerBit(init, c, i + 25) == (PartnerBit(init, c, i + 11) != PartnerBit(init, c, i + 6))
  {
    Recurrence(init, c + 2 * i);
    assert Rejected(init, c, i) && Rejected(init, c, i + 19) && Rejected(init, c, i + 31) && Rejected(init, c, i + 40);
    EvenIndices(init, c, i);
  }

  lemma EvenIndices(init: Bits, c: nat, i: nat)
    requires |init| == 80
    ensures c + 2 * i + 38 == c + 2 * (i + 19) && c + 2 * i + 62 == c + 2 * (i + 31) &&
      c + 2 * i + 80 == c + 2 * (i + 40)
    ensures c + 2 * i + 51 == c + 2 * (i + 25) + 1 && c + 2 * i + 23 == c + 2 * (i + 11) + 1
    ensures c + 2 * i + 13 == c + 2 * (i + 6) + 1
  {
  }

  lemma OddRecurrence(init: Bits, c: nat, i: nat)
    requires |init| == 80 && AllRejected(init, c) && i < 100
    ensures PartnerBit(init, c, i + 40) ==
      (PartnerBit(init, c, i + 31) != (PartnerBit(init, c, i + 19) != PartnerBit(init, c, i)))
  {
    Recurrence(init, c + 2 * i + 1);
    assert Rejected(init, c, i + 26) && Rejected(init, c, i + 12) && Rejected(init, c, i + 7);
  }

  /** x^19 + x^5 + 1 annihilates the partner bits from index 6 on. */
  lemma Relation19(init: Bits, c: nat, j: nat)
    requires |init| == 80 && AllRejected(init, c) && 6 <= j < 93
    ensures PartnerBit(init, c, j + 19) == (PartnerBit(init, c, j + 5) != PartnerBit(init, c, j))
  {
    EvenRecurrence(init, c, j - 6);
  }

  /** x^15 + x^3 + 1. */
  lemma Relation15(init: Bits, c: nat, j: nat)
    requires |init| == 80 && AllRejected(init, c) && 8 <= j < 74
    ensures PartnerBit(init, c, j + 15) == (PartnerBit(init, c, j + 3) != PartnerBit(init, c, j))
  {
    var i := j - 2;
    hide *;
    OddRecurrence(init, c, i);
    Relation19(init, c, i + 21);
    Relation19(init, c, i + 12);
    Relation19(init, c, i + 7);
    Relation19(init, c, i + 2);
    Relation19(init, c, i);
  }

  /** x^7 + x^5 + x^4 + 1. */
  lemma Relation7(init: Bits, c: nat, j: nat)
    requires |init| == 80 && AllRejected(init, c) && 6 <= j < 70
    ensures PartnerBit(init, c, j + 7) ==
      (PartnerBit(init, c, j + 5) != (PartnerBit(init, c, j + 4) != PartnerBit(init, c, j)))
  {
    hide *;
    Relation19(init, c, j);
    Relation15(init, c, j + 4);
  }

  /** x^6 + x^5 + x^4 + x^3 + 1. */
  lemma Relation6(init: Bits, c: nat, j: nat)
    requires |init| == 80 && AllRejected(init, c) && 8 <= j < 62
    ensures PartnerBit(init, c, j + 6) ==
      (PartnerBit(init, c, j + 5) !=
       (PartnerBit(init, c, j + 4) != (PartnerBit(init, c, j + 3) != PartnerBit(init, c, j))))
  {
    hide *;
    Relation15(init, c, j);
    Relation7(init, c, j + 8);
    Relation7(init, c, j + 6);
    Relation7(init, c, j + 5);
    Relation7(init, c, j + 4);
  }

  /** x^4 + x^3 + x^2 + 1. */
  lemma Relation4(init: Bits, c: nat, j: nat)
    requires |init| == 80 && AllRejected(init, c) && 9 <= j < 62
    ensures PartnerBit(init, c, j + 4) ==
      (PartnerBit(init, c, j + 3) != (PartnerBit(init, c, j + 2) != PartnerBit(init, c, j)))
  {
    hide *;
    Relation7(init, c, j - 1);
    Relation6(init, c, j - 1);
    Relation6(init, c, j);
  }

  /** x^3 + x^2 + 1. */
  lemma Relation3(init: Bits, c: nat, j: nat)
    requires |init| == 80 && AllRejected(init, c) && 8 <= j < 60
    ensures PartnerBit(init, c, j + 3) == (PartnerBit(init, c, j + 2) != PartnerBit(init, c, j))
  {
    hide *;
    Relation6(init, c, j);
    Relation4(init, c, j + 2);
  }

  /** x^2 + x + 1. */
  lemma Relation2(init: Bits, c: nat, j: nat)
    requires |init| == 80 && AllRejected(init, c) && 9 <= j < 59
    ensures PartnerBit(init, c, j + 2) == (PartnerBit(init, c, j + 1) != PartnerBit(init, c, j))
  {
    hide *;
    Relation4(init, c, j);
    Relation3(init, c, j + 1);
  }

  /** The constant 1: every partner bit from index 9 on vanishes. */
  lemma PartnersVanish(init: Bits, c: nat, j: nat)
    requires |init| == 80 && AllRejected(init, c) && 9 <= j < 57
    ensures !PartnerBit(init, c, j)
  {
    hide *;
    Relation3(init, c, j);
    Relation2(init, c, j + 1);
    Relation3(init, c, j + 1);
    Relation2(init, c, j + 2);
    Relation2(init, c, j);
  }

  lemma SelectorWithin128(init: Bits, c: nat)
    requires Seeded(init)
    ensures !AllRejected(init, c)
  {
    if AllRejected(init, c) {
      NeverZero(init, c + 18);
      var k: nat :| c + 18 <= k < c + 18 + 80 && Stream(init, k);
      var i: nat := (k - c) / 2;
      assert Rejected(init, c, i) <==> !Stream(init, c + 2 * i);
      if (k - c) % 2 == 1 {
        PartnersVanish(init, c, i);
      }
      assert false;
    }
  }

  // ----- The initial state -----

  function ToBits(value: nat, width: nat): (b: Bits)
    ensures |b| == width
  {
    if width == 0 then [] else ToBits(value / 2, width - 1) + [value % 2 == 1]
  }

  const FIELD_BITS := 254

  function InitState(t: nat, roundsF: nat, roundsP: nat): (s: Bits)
    ensures |s| == 80 && forall i | 50 <= i < 80 :: s[i]
  {
    ToBits(1, 2) + ToBits(0, 4) + ToBits(FIELD_BITS, 12) + ToBits(t, 12) + ToBits(roundsF, 10) + ToBits(roundsP, 10)
    + seq(30, _ => true)
  }

  // ----- What the initial state holds -----

  /** The bits read as a big-endian integer. */
  function FromBits(b: Bits): nat {
    if |b| == 0 then 0 else 2 * FromBits(b[..|b| - 1]) + if b[|b| - 1] then 1 else 0
  }

  lemma {:induction false} FromBitsBound(b: Bits)
    ensures FromBits(b) < Pow(2, |b|)
  {
    if |b| == 0 {
    } else {
      FromBitsBound(b[..|b| - 1]);
    }
  }

  lemma FromBitsSnoc(b: Bits, bit: bool)
    ensures FromBits(b + [bit]) == 2 * FromBits(b) + if bit then 1 else 0
  {
    assert (b + [bit])[..|b|] == b;
  }

  /** Big-endian: the first bit weighs most. */
  lemma {:induction false} HighBitFirst(bit: bool, b: Bits)
    ensures FromBits([bit] + b) == FromBits(b) + if bit then Pow(2, |b|) else 0
  {
    if |b| == 0 {
      assert [bit] + b == [] + [bit];
      FromBitsSnoc([], bit);
    } else {
      var n := |b| - 1;
      HighBitFirst(bit, b[..n]);
      FromBitsSnoc([bit] + b[..n], b[n]);
      assert [bit] + b == [bit] + b[..n] + [b[n]];
    }
  }

  /** A number below 2^width is its own bits; of a larger one the low bits are kept. */
  lemma {:induction false} ToBitsValue(value: nat, width: nat)
    ensures Pow(2, width) > 0 && FromBits(ToBits(value, width)) == value % Pow(2, width)
  {
    hide *;
    PowPositive(2, width);
    if width > 0 {
      PowPositive(2, width - 1);
      LastBit(value, width);
      ToBitsValue(value / 2, width - 1);
      FromBitsSnoc(ToBits(value / 2, width - 1), value % 2 == 1);
      HalfRemainder(value, Pow(2, width - 1));
    } else {
      NoBits(value);
    }
  }

  lemma LastBit(value: nat, width: nat)
    requires width > 0
    ensures Pow(2, width) == 2 * Pow(2, width - 1)
    ensures ToBits(value, width) == ToBits(value / 2, width - 1) + [value % 2 == 1]
  {
  }

  lemma NoBits(value: nat)
    ensures FromBits(ToBits(value, 0)) == 0 && Pow(2, 0) == 1 && value % 1 == 0
  {
  }

  lemma HalfRemainder(value: nat, m: int)
    requires m > 0
    ensures value % (2 * m) == 2 * (value / 2 % m) + value % 2
  {
    var h, r := value / 2 / m, value / 2 % m;
    assert value / 2 == h * m + r;
    assert value == h * (2 * m) + (2 * r + value % 2);
    RemainderOf(value, 2 * m, h, 2 * r + value % 2);
  }

  lemma RemainderOf(x: int, d: int, q: int, r: int)
    requires 0 <= r < d && x == q * d + r
    ensures x % d == r
  {
    var k := x / d;
    assert x == k * d + x % d;
    assert (k - q) * d == r - x % d;
    SmallMultiple(k - q, d);
  }

  /** The fields of the initial state: field, S-box, field size, width, full and partial rounds, thirty ones. */
  lemma InitialFields(t: nat, roundsF: nat, roundsP: nat)
    ensures var s := InitState(t, roundsF, roundsP);
            && FromBits(s[..2]) == 1 && FromBits(s[2..6]) == 0 && FromBits(s[6..18]) == 254
            && FromBits(s[18..30]) == t % 4096
            && FromBits(s[30..40]) == roundsF % 1024 && FromBits(s[40..50]) == roundsP % 1024
            && forall i | 50 <= i < 80 :: s[i]
  {
    hide *;
    var s := InitState(t, roundsF, roundsP);
    InitStateIs(t, roundsF, roundsP, s);
    Slices(ToBits(1, 2), ToBits(0, 4), ToBits(254, 12), ToBits(t, 12), ToBits(roundsF, 10), ToBits(roundsP, 10),
           s[50..], s);
    ToBitsValue(1, 2);
    ToBitsValue(0, 4);
    ToBitsValue(254, 12);
    ToBitsValue(t, 12);
    ToBitsValue(roundsF, 10);
    ToBitsValue(roundsP, 10);
    FieldWidths();
  }

  lemma InitStateIs(t: nat, roundsF: nat, roundsP: nat, s: Bits)
    requires s == InitState(t, roundsF, roundsP)
    ensures s == ToBits(1, 2) + ToBits(0, 4) + ToBits(254, 12) + ToBits(t, 12) + ToBits(roundsF, 10) +
                 ToBits(roundsP, 10) + s[50..]
  {
    hide ToBits;
  }

  lemma Slices(a: Bits, b: Bits, c: Bits, d: Bits, e: Bits, f: Bits, g: Bits, s: Bits)
    requires |a| == 2 && |b| == 4 && |c| == 12 && |d| == 12 && |e| == 10 && |f| == 10 && |g| == 30
    requires s == a + b + c + d + e + f + g
    ensures |s| == 80 && s[..2] == a && s[2..6] == b && s[6..18] == c && s[18..30] == d
    ensures s[30..40] == e && s[40..50] == f
  {
    var s3 := a + b + c;
    FirstSlices(a, b, c, s3);
    SlicesAfter(s3, d, e, f, g, s);
    assert s[..2] == s3[..2] && s[2..6] == s3[2..6] && s[6..18] == s3[6..18];
  }

  lemma FirstSlices(a: Bits, b: Bits, c: Bits, s: Bits)
    requires |a| == 2 && |b| == 4 && |c| == 12 && s == a + b + c
    ensures |s| == 18 && s[..2] == a && s[2..6] == b && s[6..18] == c
  {
  }

  lemma SlicesAfter(x: Bits, d: Bits, e: Bits, f: Bits, g: Bits, s: Bits)
    requires |x| == 18 && |d| == 12 && |e| == 10 && |f| == 10 && |g| == 30 && s == x + d + e + f + g
    ensures |s| == 80 && s[..18] == x && s[18..30] == d && s[30..40] == e && s[40..50] == f
  {
  }

  lemma FieldWidths()
    ensures Pow(2, 2) == 4 && Pow(2, 4) == 16 && Pow(2, 10) == 1024 && Pow(2, 12) == 4096
  {
    assert Pow(2, 1) == 2 && Pow(2, 3) == 8 && Pow(2, 5) == 32 && Pow(2, 6) == 64 && Pow(2, 7) == 128;
    assert Pow(2, 8) == 256 && Pow(2, 9) == 512 && Pow(2, 11) == 2048;
  }

  // ----- The stream in self-shrinking mode -----

  const DISCARDED := 160

  /** Bit j after the discarded clockings. */
  ghost function Clocked(init: Bits, j: nat): bool
    requires |init| == 80
  {
    Stream(init, 80 + DISCARDED + j)
  }

  /** The second bits of those of the first n pairs whose first bit is 1. */
  ghost function Shrunk(init: Bits, n: nat): Bits
    requires |init| == 80
  {
    if n == 0 then []
    else Shrunk(init, n - 1) + if Clocked(init, 2 * (n - 1)) then [Clocked(init, 2 * (n - 1) + 1)] else []
  }

  lemma {:induction false} ShrunkPrefix(init: Bits, n: nat, m: nat)
    requires |init| == 80 && n <= m
    ensures Shrunk(init, n) <= Shrunk(init, m)
    decreases m
  {
    if n < m {
      ShrunkPrefix(init, n, m - 1);
    }
  }

  /** Any 128 further pairs yield at least one further bit. */
  lemma ShrunkGrows(init: Bits, n: nat)
    requires Seeded(init)
    ensures |Shrunk(init, n)| < |Shrunk(init, n + 128)|
  {
    var c := 80 + DISCARDED + 2 * n;
    SelectorWithin128(init, c);
    var i: nat :| i < 128 && !Rejected(init, c, i);
    assert Clocked(init, 2 * (n + i)) by {
      assert 80 + DISCARDED + 2 * (n + i) == c + 2 * i;
    }
    ShrunkPrefix(init, n, n + i);
    ShrunkPrefix(init, n + i + 1, n + 128);
  }

  lemma {:induction false} EnoughPairs(init: Bits, n: nat)
    requires Seeded(init)
    ensures |Shrunk(init, 128 * n)| >= n
  {
    if n == 0 {
    } else {
      EnoughPairs(init, n - 1);
      ShrunkGrows(init, 128 * (n - 1));
    }
  }

  /** Bit n of the infinite self-shrinking stream. */
  ghost function StreamBit(init: Bits, n: nat): bool
    requires Seeded(init)
  {
    EnoughPairs(init, n + 1);
    Shrunk(init, 128 * (n + 1))[n]
  }

  /** Whatever number of pairs was read, the n-th bit yielded is bit n of the infinite stream. */
  lemma YieldedBit(init: Bits, pairs: nat, n: nat)
    requires Seeded(init) && n < |Shrunk(init, pairs)|
    ensures Shrunk(init, pairs)[n] == StreamBit(init, n)
  {
    EnoughPairs(init, n + 1);
    var m := 128 * (n + 1);
    if pairs <= m {
      ShrunkPrefix(init, pairs, m);
    } else {
      ShrunkPrefix(init, m, pairs);
    }
  }

  /** How many of the first n pairs after the 160 discarded clockings start with a one. */
  ghost function Selectors(init: Bits, n: nat): nat
    requires |init| == 80
  {
    if n == 0 then 0 else Selectors(init, n - 1) + if Stream(init, 240 + 2 * (n - 1)) then 1 else 0
  }

  lemma {:induction false} ShrunkSize(init: Bits, n: nat)
    requires |init| == 80
    ensures |Shrunk(init, n)| == Selectors(init, n)
  {
    if n > 0 {
      ShrunkSize(init, n - 1);
      assert Clocked(init, 2 * (n - 1)) == Stream(init, 240 + 2 * (n - 1));
    }
  }

  /** The n-th bit is the second bit of the pair that is the n-th one to start with a one. */
  lemma SelectedPartner(init: Bits, n: nat, pair: nat)
    requires Seeded(init) && Stream(init, 240 + 2 * pair) && Selectors(init, pair) == n
    ensures StreamBit(init, n) == Stream(init, 240 + 2 * pair + 1)
  {
    hide Stream, StreamBit;
    assert Clocked(init, 2 * pair) && Clocked(init, 2 * pair + 1) == Stream(init, 240 + 2 * pair + 1);
    ShrunkSize(init, pair);
    YieldedBit(init, pair + 1, n);
  }

  /** And there is such a pair for every n. */
  lemma {:induction false} SelectedPair(init: Bits, n: nat, pairs: nat) returns (pair: nat)
    requires Seeded(init) && n < Selectors(init, pairs)
    ensures pair < pairs && Stream(init, 240 + 2 * pair) && Selectors(init, pair) == n
  {
    hide Stream;
    if n < Selectors(init, pairs - 1) {
      pair := SelectedPair(init, n, pairs - 1);
    } else {
      pair := pairs - 1;
    }
  }

  /** Every bit of the stream is the second bit of a pair among the first 128 (n + 1), those before it counted. */
  lemma BitOfPair(init: Bits, n: nat) returns (pair: nat)
    requires Seeded(init)
    ensures pair < 128 * (n + 1) && Stream(init, 240 + 2 * pair) && Selectors(init, pair) == n
    ensures StreamBit(init, n) == Stream(init, 240 + 2 * pair + 1)
  {
    hide Stream, StreamBit, Shrunk;
    EnoughPairs(init, n + 1);
    ShrunkSize(init, 128 * (n + 1));
    pair := SelectedPair(init, n, 128 * (n + 1));
    SelectedPartner(init, n, pair);
  }

  ghost function StreamBits(init: Bits, first: nat, count: nat): (b: Bits)
    requires Seeded(init)
    ensures |b| == count
  {
    seq(count, j requires 0 <= j < count => StreamBit(init, first + j))
  }

  lemma NextBits(init: Bits, pairs: nat, before: Bits, bits: Bits)
    requires Seeded(init) && Shrunk(init, pairs) == before + bits
    ensures bits == StreamBits(init, |before|, |bits|)
  {
    forall j | 0 <= j < |bits|
      ensures bits[j] == StreamBits(init, |before|, |bits|)[j]
    {
      YieldedBit(init, pairs, |before| + j);
      assert (before + bits)[|before| + j] == bits[j];
    }
  }

  /** The value of the 254 stream bits from position first on. */
  ghost function Draw(init: Bits, first: nat): nat
    requires Seeded(init)
  {
    FromBits(StreamBits(init, first, FIELD_BITS))
  }

  lemma StartsSeeded(init: Bits)
    requires |init| == 80 && init[50]
    ensures Seeded(init) && forall i | 0 <= i < 80 :: init[i] == Stream(init, 0 + i)
  {
  }

  class GrainStream {
    var state: Bits
    ghost const init: Bits
    ghost var clocks: nat
    ghost var pairs: nat
    /** Every bit yielded so far. */
    ghost var yielded: Bits

    ghost predicate ValidState()
      reads this
    {
      && Seeded(init)
      && |state| == 80 && forall i | 0 <= i < 80 :: state[i] == Stream(init, clocks + i)
    }

    /** After whole pairs: what was yielded is the shrunk stream of the pairs read. */
    ghost predicate Valid()
      reads this
    {
      ValidState() && clocks == DISCARDED + 2 * pairs && yielded == Shrunk(init, pairs)
    }

    constructor (t: nat, roundsF: nat, roundsP: nat)
      ensures Valid() && init == InitState(t, roundsF, roundsP) && yielded == [] && clocks == 160
    {
      hide InitState, Stream;
      init := InitState(t, roundsF, roundsP);
      state := InitState(t, roundsF, roundsP);
      clocks, pairs := 0, 0;
      yielded := [];
      new;
      StartsSeeded(init);
      for i := 0 to DISCARDED
        invariant ValidState() && clocks == i && pairs == 0 && yielded == []
      {
        var bit := Clock();
      }
    }

    method Clock() returns (bit: bool)
      requires ValidState()
      modifies this`state, this`clocks
      ensures ValidState() && clocks == old(clocks) + 1
      ensures bit == Stream(init, old(clocks) + 80)
      ensures exists i | 0 <= i < 80 :: state[i]
    {
      bit := state[62] != (state[51] != (state[38] != (state[23] != (state[13] != state[0]))));
      Recurrence(init, clocks);
      state := state[1..] + [bit];
      clocks := clocks + 1;
      NeverZero(init, clocks);
      ghost var k: nat :| clocks <= k < clocks + 80 && Stream(init, k);
      assert state[k - clocks];
    }

    /** Yields the next bit of the self-shrinking stream. */
    method Next() returns (bit: bool)
      requires Valid()
      modifies this
      ensures Valid() && yielded == old(yielded) + [bit]
    {
      hide Stream, Shrunk, Rejected;
      ghost var start := clocks + 80;
      ghost var skipped: nat, n: nat := 0, pairs;
      var selector := Clock();
      while !selector
        invariant ValidState() && skipped < 128 && clocks == DISCARDED + 2 * n + 1
        invariant start + 2 * skipped == 80 + DISCARDED + 2 * n && selector == Clocked(init, 2 * n)
        invariant forall i: nat {:trigger Rejected(init, start, i)} | i < skipped :: Rejected(init, start, i)
        invariant yielded == old(yielded) == Shrunk(init, n)
        decreases 128 - skipped
      {
        var partner := Clock();
        RejectPair(init, n, start, skipped);
        skipped, n := skipped + 1, n + 1;
        if skipped == 128 {
          SelectorWithin128(init, start);
          assert false;
        }
        selector := Clock();
      }
      bit := Clock();
      AcceptPair(init, n, bit);
      yielded, pairs := yielded + [bit], n + 1;
    }
  }

  lemma RejectPair(init: Bits, n: nat, start: nat, skipped: nat)
    requires |init| == 80 && !Clocked(init, 2 * n) && start + 2 * skipped == 80 + DISCARDED + 2 * n
    ensures Shrunk(init, n + 1) == Shrunk(init, n) && Rejected(init, start, skipped)
  {
  }

  lemma AcceptPair(init: Bits, n: nat, bit: bool)
    requires |init| == 80 && Clocked(init, 2 * n) && bit == Clocked(init, 2 * n + 1)
    ensures Shrunk(init, n + 1) == Shrunk(init, n) + [bit]
  {
  }

  // ----- Integers from the stream -----

  method ReadInt(stream: GrainStream, numBits: nat) returns (value: nat, ghost bits: Bits)
    requires stream.Valid()
    modifies stream
    ensures stream.Valid() && stream.yielded == old(stream.yielded) + bits && |bits| == numBits
    ensures value == FromBits(bits) < Pow(2, numBits)
  {
    value, bits := 0, [];
    for i := 0 to numBits
      invariant stream.Valid() && stream.yielded == old(stream.yielded) + bits && |bits| == i
      invariant value == FromBits(bits)
    {
      var bit := stream.Next();
      value := 2 * value + if bit then 1 else 0;
      assert (bits + [bit])[..|bits|] == bits;
      bits := bits + [bit];
    }
    FromBitsBound(bits);
  }

  /** Rejection sampling: the first of at most maxDraws draws that is below p, or None. */
  method ReadRoundConstant(p: Prime, stream: GrainStream, maxDraws: nat) returns (value: Option<nat>,
      ghost draws: seq<Bits>)
    requires stream.Valid()
    modifies stream
    ensures stream.Valid() && stream.yielded == old(stream.yielded) + Flatten(draws) && |draws| <= maxDraws
    ensures forall i | 0 <= i < |draws| :: |draws[i]| == 254
    ensures forall i | 0 <= i < |draws| - 1 :: FromBits(draws[i]) >= p
    ensures value.Some? ==> |draws| > 0 && value.value == FromBits(draws[|draws| - 1]) < p
    ensures value.None? ==> |draws| == maxDraws && forall i | 0 <= i < |draws| :: FromBits(draws[i]) >= p
  {
    draws := [];
    var left := maxDraws;
    while left > 0
      invariant stream.Valid() && stream.yielded == old(stream.yielded) + Flatten(draws) && |draws| + left == maxDraws
      invariant forall i | 0 <= i < |draws| :: |draws[i]| == FIELD_BITS && FromBits(draws[i]) >= p
    {
      var v, bits := ReadInt(stream, FIELD_BITS);
      ghost var longer := draws + [bits];
      assert longer[..|draws|] == draws;
      draws := longer;
      left := left - 1;
      if v < p {
        return Some(v), draws;
      }
    }
    return None, draws;
  }

  ghost function Flatten(draws: seq<Bits>): Bits {
    if |draws| == 0 then [] else Flatten(draws[..|draws| - 1]) + draws[|draws| - 1]
  }

  /** The MDS sampling points are reduced, not rejected. */
  method ReadMdsPoint(p: Prime, stream: GrainStream) returns (point: int, ghost bits: Bits)
    requires stream.Valid()
    modifies stream
    ensures stream.Valid() && stream.yielded == old(stream.yielded) + bits && |bits| == 254
    ensures 0 <= point < p && Cong(p, point, FromBits(bits))
    ensures point == Mod(p, Draw(stream.init, |old(stream.yielded)|))
  {
    var v;
    v, bits := ReadInt(stream, FIELD_BITS);
    NextBits(stream.init, stream.pairs, old(stream.yielded), bits);
    point := Mod(p, v);
  }
}

/**
 * Index arithmetic behind the circle method of lib/tournament.ts:100-180.
 *
 * The padded roster `list` has an even size `m + 1`. In round r the ordering
 * is `[list[0]] + ribbon` where the ribbon `list[1..]` has been rotated right
 * r times, so position p holds `list[Slot(m, r, p)]`. Fold pair i joins
 * positions i and m - i, for 0 <= i < (m + 1) / 2.
 *
 * Everything here is about list indices; Schedule turns it into facts about
 * names. The two theorems are that any two indices are partners in exactly one
 * round (PartnersOnce, PartnersSomeRound) and that the round in which an index
 * partners the last one (the bye slot, when the roster was padded) is a
 * bijection from rounds onto the other indices (ByeIndex*).
 */
module CircleMethod {

  // ---------------------------------------------------------------------------
  // Euclidean remainder facts, proved from `x == (x / m) * m + x % m`.

  lemma MulAtLeast(k: int, m: int)
    requires m > 0 && k >= 1
    ensures k * m >= m
  {
    assert k * m == (k - 1) * m + m;
    assert (k - 1) * m >= 0;
  }

  lemma MulAtMost(k: int, m: int)
    requires m > 0 && k <= -1
    ensures k * m <= -m
  {
    MulAtLeast(-k, m);
    assert k * m == -((-k) * m);
  }

  /** A multiple of m strictly between -m and m is zero. */
  lemma SmallMultiple(k: int, m: int)
    requires m > 0 && -m < k * m < m
    ensures k == 0
  {
    if k >= 1 { MulAtLeast(k, m); }
    if k <= -1 { MulAtMost(k, m); }
  }

  /** The remainder is determined by any quotient-remainder decomposition. */
  lemma ModUnique(m: int, x: int, q: int, s: int)
    requires m > 0 && x == q * m + s && 0 <= s < m
    ensures x % m == s
  {
    var q' := x / m;
    assert x == q' * m + x % m;
    assert (q - q') * m == x % m - s;
    SmallMultiple(q - q', m);
  }

  /** Equal remainders: the difference is a multiple of m. */
  lemma ModDiff(m: int, x: int, y: int)
    requires m > 0 && x % m == y % m
    ensures x - y == (x / m - y / m) * m
  {
    assert x == (x / m) * m + x % m;
    assert y == (y / m) * m + y % m;
  }

  lemma ModInjective(m: int, x: int, y: int)
    requires m > 0 && x % m == y % m && -m < x - y < m
    ensures x == y
  {
    ModDiff(m, x, y);
    SmallMultiple(x / m - y / m, m);
  }

  /** For odd m, twice d is a multiple of m only when d is (here: zero). */
  lemma OddMultiple(m: int, d: int, k: int)
    requires m > 0 && m % 2 == 1 && 2 * d == k * m && -m < d < m
    ensures d == 0
  {
    if k >= 2 {
      MulAtLeast(k - 1, m);
    } else if k <= -2 {
      MulAtMost(k + 1, m);
    }
  }

  // ---------------------------------------------------------------------------
  // Positions and slots.

  /** The list index at position p of round r; m is the ribbon length. */
  function Slot(m: int, r: int, p: int): int
    requires m > 0
  {
    if p == 0 then 0 else 1 + (p - 1 - r) % m
  }

  /** In round r, fold pair i holds the list indices u and v, in either order. */
  ghost predicate PairAt(m: int, r: int, i: int, u: int, v: int)
    requires m > 0
  {
    && 0 <= i < (m + 1) / 2
    && ((u == Slot(m, r, i) && v == Slot(m, r, m - i)) || (v == Slot(m, r, i) && u == Slot(m, r, m - i)))
  }

  ghost predicate Partners(m: int, r: int, u: int, v: int)
    requires m > 0
  {
    exists i :: PairAt(m, r, i, u, v)
  }

  /** The anchor stays at position 0; the other positions hold ribbon indices 1..m. */
  lemma SlotRange(m: int, r: int, p: int)
    requires m > 0 && 0 <= p <= m
    ensures 0 <= Slot(m, r, p) <= m
    ensures Slot(m, r, p) == 0 <==> p == 0
  {
  }

  /** No two positions of a round hold the same list index. */
  lemma SlotInjective(m: int, r: int, p: int, q: int)
    requires m > 0 && 0 <= p <= m && 0 <= q <= m && Slot(m, r, p) == Slot(m, r, q)
    ensures p == q
  {
    if p != 0 && q != 0 {
      ModInjective(m, p - 1 - r, q - 1 - r);
    }
  }

  /** The position of ribbon index u >= 1 in round r. */
  lemma SlotOf(m: int, r: int, u: int) returns (p: int)
    requires m > 0 && 1 <= u <= m
    ensures 1 <= p <= m && Slot(m, r, p) == u
  {
    var s := (u - 1 + r) % m;
    p := 1 + s;
    assert u - 1 + r == ((u - 1 + r) / m) * m + s;
    ModUnique(m, p - 1 - r, -((u - 1 + r) / m), u - 1);
  }

  // ---------------------------------------------------------------------------
  // Partners in exactly one round.

  /** The two ribbon indices of fold pair i >= 1 sum to -2 - 2r modulo m. */
  lemma RibbonPairSum(m: int, r: int, i: int) returns (k: int)
    requires m > 0 && 1 <= i < (m + 1) / 2
    ensures (Slot(m, r, i) - 1) + (Slot(m, r, m - i) - 1) + 2 * r + 2 == k * m
  {
    var x, y := i - 1 - r, m - i - 1 - r;
    assert x == (x / m) * m + x % m;
    assert y == (y / m) * m + y % m;
    k := 1 - x / m - y / m;
  }

  /** An unordered pair of indices is a fold pair in at most one round. */
  lemma PartnersOnce(m: int, r1: int, r2: int, u: int, v: int)
    requires m > 0 && m % 2 == 1
    requires 0 <= r1 < m && 0 <= r2 < m && u != v
    requires Partners(m, r1, u, v) && Partners(m, r2, u, v)
    ensures r1 == r2
  {
    var i1 :| PairAt(m, r1, i1, u, v);
    var i2 :| PairAt(m, r2, i2, u, v);
    SlotRange(m, r1, i1); SlotRange(m, r1, m - i1);
    SlotRange(m, r2, i2); SlotRange(m, r2, m - i2);
    if i1 == 0 || i2 == 0 {
      // One of u, v is the anchor, so both rounds use fold pair 0.
      assert i1 == 0 && i2 == 0;
      ModInjective(m, m - 1 - r1, m - 1 - r2);
    } else {
      var k1 := RibbonPairSum(m, r1, i1);
      var k2 := RibbonPairSum(m, r2, i2);
      assert (u - 1) + (v - 1) + 2 * r1 + 2 == k1 * m;
      assert (u - 1) + (v - 1) + 2 * r2 + 2 == k2 * m;
      assert 2 * (r1 - r2) == (k1 - k2) * m;
      OddMultiple(m, r1 - r2, k1 - k2);
    }
  }

  /** A fold pair's two indices meet in no other round and at no other pair index. */
  lemma PairIndexOnce(m: int, r1: int, r2: int, i1: int, i2: int)
    requires m > 0 && m % 2 == 1 && 0 <= r1 < m && 0 <= r2 < m
    requires 0 <= i1 < (m + 1) / 2 && 0 <= i2 < (m + 1) / 2
    requires PairAt(m, r2, i2, Slot(m, r1, i1), Slot(m, r1, m - i1))
    ensures r1 == r2 && i1 == i2
  {
    var u, v := Slot(m, r1, i1), Slot(m, r1, m - i1);
    SlotRange(m, r1, i1);
    SlotRange(m, r1, m - i1);
    assert u != v by {
      if u == v {
        SlotInjective(m, r1, i1, m - i1);
      }
    }
    assert PairAt(m, r1, i1, u, v);
    PartnersOnce(m, r1, r2, u, v);
    if u == Slot(m, r2, i2) {
      SlotInjective(m, r1, i1, i2);
    } else {
      SlotInjective(m, r1, i1, m - i2);
    }
  }

  /** An index held by fold pair i is held by no other fold pair of the round. */
  lemma SlotElsewhere(m: int, r: int, i: int, j: int, u: int)
    requires m > 0 && m % 2 == 1
    requires 0 <= i < (m + 1) / 2 && 0 <= j < (m + 1) / 2 && i != j
    requires u == Slot(m, r, i) || u == Slot(m, r, m - i)
    ensures Slot(m, r, j) != u && Slot(m, r, m - j) != u
  {
    if Slot(m, r, j) == u {
      if u == Slot(m, r, i) {
        SlotInjective(m, r, j, i);
      } else {
        SlotInjective(m, r, j, m - i);
      }
    }
    if Slot(m, r, m - j) == u {
      if u == Slot(m, r, i) {
        SlotInjective(m, r, m - j, i);
      } else {
        SlotInjective(m, r, m - j, m - i);
      }
    }
  }

  /** The anchor meets ribbon index v in round m - v, as fold pair 0. */
  lemma AnchorPartnerRound(m: int, v: int)
    requires m > 0 && 1 <= v <= m
    ensures PairAt(m, m - v, 0, 0, v)
  {
    ModUnique(m, v - 1, 0, v - 1);
  }

  /** A round r with 2r == -(a + b + 2) modulo m exists because m is odd. */
  lemma HalvingRound(m: int, a: int, b: int) returns (r: int, k: int)
    requires m > 0 && m % 2 == 1
    ensures 0 <= r < m && a + b + 2 + 2 * r == k * m
  {
    var n := -(a + b + 2);
    var q, w := n / m, n % m;
    assert n == q * m + w;
    if w % 2 == 0 {
      r := w / 2;
      assert 2 * r == w;
      k := -q;
      assert k * m == -(q * m);
    } else {
      r := (w + m) / 2;
      assert 2 * r == w + m;
      k := 1 - q;
      assert k * m == m - q * m;
    }
  }

  /** In that round the positions of ribbon indices a + 1 and b + 1 add up to m. */
  lemma MirroredPositions(m: int, r: int, pa: int, pb: int, a: int, b: int, k: int)
    requires m > 0 && 1 <= pa <= m && 1 <= pb <= m && a != b
    requires Slot(m, r, pa) == a + 1 && Slot(m, r, pb) == b + 1
    requires a + b + 2 + 2 * r == k * m
    ensures pa + pb == m
  {
    var xa, xb := pa - 1 - r, pb - 1 - r;
    assert xa == (xa / m) * m + a;
    assert xb == (xb / m) * m + b;
    var k' := k + xa / m + xb / m;
    assert pa + pb == k' * m;
    OneOrTwo(k', m, pa + pb);
  }

  /** A multiple of m strictly between 0 and 3m is m or 2m. */
  lemma OneOrTwo(k: int, m: int, x: int)
    requires m > 0 && x == k * m && 0 < x < 3 * m
    ensures k == 1 || k == 2
  {
    if k <= 0 {
      assert k * m == (k - 1) * m + m;
      MulAtMost(k - 1, m);
    } else if k >= 3 {
      assert k * m == (k - 2) * m + 2 * m;
      MulAtLeast(k - 2, m);
    }
  }

  /** Two ribbon indices meet in the round r with 2r == -(a + b + 2) modulo m. */
  lemma RibbonPartnerRound(m: int, u: int, v: int) returns (r: int)
    requires m > 0 && m % 2 == 1 && 1 <= u <= m && 1 <= v <= m && u != v
    ensures 0 <= r < m && Partners(m, r, u, v)
  {
    var k;
    r, k := HalvingRound(m, u - 1, v - 1);
    var pa := SlotOf(m, r, u);
    var pb := SlotOf(m, r, v);
    MirroredPositions(m, r, pa, pb, u - 1, v - 1, k);
    var i := if pa < pb then pa else pb;
    assert PairAt(m, r, i, u, v);
  }

  /** Any two distinct indices are a fold pair in some round. */
  lemma PartnersSomeRound(m: int, u: int, v: int)
    requires m > 0 && m % 2 == 1 && 0 <= u <= m && 0 <= v <= m && u != v
    ensures exists r :: 0 <= r < m && Partners(m, r, u, v)
  {
    if u == 0 {
      AnchorPartnerRound(m, v);
      assert Partners(m, m - v, u, v);
    } else if v == 0 {
      AnchorPartnerRound(m, u);
      assert PairAt(m, m - u, 0, u, v);
      assert Partners(m, m - u, u, v);
    } else {
      var r := RibbonPartnerRound(m, u, v);
    }
  }

  // ---------------------------------------------------------------------------
  // The partner of the last index (the bye slot of a padded roster).

  /** The index that meets index m in round r. */
  function ByeIndex(m: int, r: int): int
    requires m > 0
  {
    if r == 0 then 0 else 1 + (m - 1 - 2 * r) % m
  }

  lemma ByeIndexPartners(m: int, r: int)
    requires m > 0 && m % 2 == 1 && 0 <= r < m
    ensures Partners(m, r, m, ByeIndex(m, r))
  {
    if r == 0 {
      ModUnique(m, m - 1, 0, m - 1);
      assert PairAt(m, 0, 0, m, 0);
    } else {
      ModUnique(m, -1, -1, m - 1);
      assert Slot(m, r, r) == m;
      if 2 * r < m {
        assert PairAt(m, r, r, m, ByeIndex(m, r));
      } else {
        assert PairAt(m, r, m - r, m, ByeIndex(m, r));
      }
    }
  }

  /** The partner of index m is always one of the other indices 0..m-1. */
  lemma ByeIndexRange(m: int, r: int)
    requires m > 0 && m % 2 == 1 && 0 <= r < m
    ensures 0 <= ByeIndex(m, r) < m
  {
    if r != 0 && ByeIndex(m, r) == m {
      ModUnique(m, m - 1, 0, m - 1);
      ModDiff(m, m - 1 - 2 * r, m - 1);
      OddMultiple(m, -r, (m - 1 - 2 * r) / m - (m - 1) / m);
    }
  }

  /** Different rounds give index m different partners. */
  lemma ByeIndexInjective(m: int, r1: int, r2: int)
    requires m > 0 && m % 2 == 1 && 0 <= r1 < m && 0 <= r2 < m
    requires ByeIndex(m, r1) == ByeIndex(m, r2)
    ensures r1 == r2
  {
    if r1 != 0 && r2 != 0 {
      ModDiff(m, m - 1 - 2 * r1, m - 1 - 2 * r2);
      OddMultiple(m, r2 - r1, (m - 1 - 2 * r1) / m - (m - 1 - 2 * r2) / m);
    }
  }

  /** Every index other than m is the partner of index m in some round. */
  lemma ByeIndexOnto(m: int, u: int)
    requires m > 0 && m % 2 == 1 && 0 <= u < m
    ensures exists r :: 0 <= r < m && ByeIndex(m, r) == u
  {
    if u != 0 {
      var c := u - 1;
      var r := ByeRound(m, c);
      assert ByeIndex(m, r) == 1 + (m - 1 - 2 * r) % m;
      assert ByeIndex(m, r) == u;
    } else {
      assert ByeIndex(m, 0) == 0;
    }
  }

  /** The round r >= 1 with m - 1 - 2r congruent to c modulo m. */
  lemma ByeRound(m: int, c: int) returns (r: int)
    requires m > 0 && m % 2 == 1 && 0 <= c < m - 1
    ensures 1 <= r < m && (m - 1 - 2 * r) % m == c
  {
    var t := m - 1 - c;
    if t % 2 == 0 {
      r := t / 2;
      assert m - 1 - 2 * r == 0 * m + c;
      ModUnique(m, m - 1 - 2 * r, 0, c);
    } else {
      r := (t + m) / 2;
      assert m - 1 - 2 * r == -1 * m + c;
      ModUnique(m, m - 1 - 2 * r, -1, c);
    }
  }
}

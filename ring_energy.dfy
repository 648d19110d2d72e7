/** The diagonal (Ising, J_z) matrix element of one xSite-wide half of a
    bit-configuration on a periodic ring of sites: every site p forms one bond
    with its right neighbour (p + 1) mod xSite; an aligned bond (0-0 or 1-1)
    contributes J_z/4 and an anti-aligned one (0-1 or 1-0) contributes -J_z/4. */
module RingEnergy {

  /** Right neighbour of site pos on a ring of n sites, as the source computes
      it: (n + (pos + 1) % n) % n. */
  function Neighbour(pos: nat, n: nat): (r: nat)
    requires pos < n
    ensures r < n
    ensures r == if pos + 1 < n then pos + 1 else 0
  {
    NeighbourIndex(pos, n);
    (n + (pos + 1) % n) % n
  }

  lemma NeighbourIndex(pos: nat, n: nat)
    requires pos < n
    ensures (n + (pos + 1) % n) % n == if pos + 1 < n then pos + 1 else 0
  {
    if pos + 1 < n {
      assert (pos + 1) % n == pos + 1;
      assert (n + (pos + 1)) % n == pos + 1;
    } else {
      assert (pos + 1) % n == 0;
      assert n % n == 0;
    }
  }

  /** Number of true entries of b. */
  function Count(b: seq<bool>): (r: nat)
    ensures r <= |b|
  {
    if b == [] then 0 else Count(b[..|b| - 1]) + (if b[|b| - 1] then 1 else 0)
  }

  /** Count is 0 exactly when no entry is true. */
  lemma {:induction false} CountZero(b: seq<bool>)
    ensures Count(b) == 0 <==> forall i :: 0 <= i < |b| ==> !b[i]
  {
    if b != [] {
      var init := b[..|b| - 1];
      CountZero(init);
      assert forall i :: 0 <= i < |init| ==> init[i] == b[i];
    }
  }

  /** Count is |b| exactly when every entry is true. */
  lemma {:induction false} CountFull(b: seq<bool>)
    ensures Count(b) == |b| <==> forall i :: 0 <= i < |b| ==> b[i]
  {
    if b != [] {
      var init := b[..|b| - 1];
      CountFull(init);
      assert forall i :: 0 <= i < |init| ==> init[i] == b[i];
    }
  }

  lemma {:induction false} CountAppend(a: seq<bool>, c: seq<bool>)
    ensures Count(a + c) == Count(a) + Count(c)
  {
    if c == [] {
      assert a + c == a;
    } else {
      CountAppend(a, c[..|c| - 1]);
      assert (a + c)[..|a + c| - 1] == a + c[..|c| - 1];
    }
  }

  /** Entry p is true when bond p of the ring is anti-aligned, that is, when
      site p differs from its right neighbour. */
  function Bonds(s: seq<bool>): seq<bool> {
    seq(|s|, p requires 0 <= p < |s| => s[p] != s[Neighbour(p, |s|)])
  }

  /** The number of anti-aligned bonds ("counter" in the source). */
  function Counter(s: seq<bool>): nat {
    Count(Bonds(s))
  }

  /** The element from its counts: every bond contributes J_z/4, and each
      anti-aligned one is counted back twice. */
  function ElementOf(jz: real, nbonds: int, counter: int): real {
    (jz / 4.0) * ((nbonds as real) - 2.0 * (counter as real))
  }

  /** (J_z/4) * (Nbonds - 2 * counter) with Nbonds the number of sites. */
  function DiagonalEnergy(jz: real, s: seq<bool>): real {
    ElementOf(jz, |s|, Counter(s))
  }

  /** One more site of the evaluator's loop: the counter over the first
      pos + 1 bonds adds bond pos to the counter over the first pos. */
  lemma CountBondsStep(s: seq<bool>, pos: nat)
    requires pos < |s|
    ensures Count(Bonds(s)[..pos + 1]) ==
      Count(Bonds(s)[..pos]) + (if s[pos] != s[Neighbour(pos, |s|)] then 1 else 0)
  {
    assert Bonds(s)[..pos + 1][..pos] == Bonds(s)[..pos];
  }

  /** Over all sites the running count is the counter. */
  lemma CountBondsAll(s: seq<bool>)
    ensures Count(Bonds(s)[..|s|]) == Counter(s)
  {
    assert Bonds(s)[..|s|] == Bonds(s);
  }

  /** The half of a configuration the evaluator looks at: the ket half, bits
      [0, n), or the bra half, bits [n, 2n), moved down to [0, n). */
  function SelectedHalf(det: seq<bool>, n: nat, ket: bool): seq<bool>
    requires 2 * n <= |det|
  {
    if ket then det[..n] else det[n..2 * n]
  }

  function Abs(x: real): real {
    if x < 0.0 then -x else x
  }

  // ---------------------------------------------------------------------
  // An independent description of the counter: the set of anti-aligned bonds

  function TrueIndices(b: seq<bool>): set<nat> {
    set i: nat | i < |b| && b[i]
  }

  lemma {:induction false} TrueIndicesCount(b: seq<bool>)
    ensures |TrueIndices(b)| == Count(b)
  {
    if b != [] {
      var init := b[..|b| - 1];
      TrueIndicesCount(init);
      var last := |b| - 1;
      if b[last] {
        assert TrueIndices(b) == TrueIndices(init) + {last};
        assert last !in TrueIndices(init);
      } else {
        assert TrueIndices(b) == TrueIndices(init);
      }
    }
  }

  function AntiBonds(s: seq<bool>): set<nat> {
    set p: nat | p < |s| && s[p] != s[Neighbour(p, |s|)]
  }

  /** The counter is exactly the number of sites that differ from their right
      neighbour on the ring. */
  lemma CounterCountsAntiBonds(s: seq<bool>)
    ensures Counter(s) == |AntiBonds(s)|
  {
    assert AntiBonds(s) == TrueIndices(Bonds(s));
    TrueIndicesCount(Bonds(s));
  }

  // ---------------------------------------------------------------------
  // Bounds

  lemma MulBound(q: real, d: real, n: real)
    requires -n <= d <= n
    ensures Abs(q * d) <= Abs(q) * n
  {
    if q >= 0.0 {
      if d >= 0.0 {
        assert q * d <= q * n;
      } else {
        assert q * -d <= q * n;
      }
    } else {
      if d >= 0.0 {
        assert -q * d <= -q * n;
      } else {
        assert -q * -d <= -q * n;
      }
    }
  }

  lemma FormulaBound(jz: real, n: real, c: real)
    requires 0.0 <= c <= n
    ensures Abs((jz / 4.0) * (n - 2.0 * c)) <= Abs(jz) / 4.0 * n
  {
    var d := n - 2.0 * c;
    var q := jz / 4.0;
    MulBound(q, d, n);
    assert Abs(q) == Abs(jz) / 4.0;
  }

  /** At most every bond is anti-aligned, so |energy| <= (|J_z|/4) * xSite. */
  lemma EnergyBound(jz: real, s: seq<bool>)
    ensures 0 <= Counter(s) <= |s|
    ensures Abs(DiagonalEnergy(jz, s)) <= Abs(jz) / 4.0 * (|s| as real)
  {
    var n, c := |s| as real, Counter(s) as real;
    assert 0.0 <= c <= n;
    assert DiagonalEnergy(jz, s) == (jz / 4.0) * (n - 2.0 * c);
    FormulaBound(jz, n, c);
  }

  // ---------------------------------------------------------------------
  // Uniform and alternating halves

  predicate Uniform(s: seq<bool>) {
    forall i :: 0 <= i < |s| ==> s[i] == s[0]
  }

  lemma {:induction false} AlignedPrefix(s: seq<bool>, i: nat)
    requires i < |s|
    requires forall p :: 0 <= p < |s| ==> !Bonds(s)[p]
    ensures s[i] == s[0]
  {
    if i > 0 {
      AlignedPrefix(s, i - 1);
      assert !Bonds(s)[i - 1];
    }
  }

  /** No bond is anti-aligned exactly when every site has the same spin. */
  lemma NoAntiBondIffUniform(s: seq<bool>)
    ensures Counter(s) == 0 <==> Uniform(s)
  {
    CountZero(Bonds(s));
    if Counter(s) == 0 {
      forall i | 0 <= i < |s| ensures s[i] == s[0] {
        AlignedPrefix(s, i);
      }
    }
    if Uniform(s) {
      forall p | 0 <= p < |s| ensures !Bonds(s)[p] {
        var r := Neighbour(p, |s|);
        assert s[r] == s[0];
      }
    }
  }

  /** A uniform half gives exactly (J_z/4) * xSite. */
  lemma UniformHalfEnergy(jz: real, s: seq<bool>)
    requires Uniform(s)
    ensures DiagonalEnergy(jz, s) == jz / 4.0 * (|s| as real)
  {
    NoAntiBondIffUniform(s);
  }

  /** Site i has the spin of site 0 exactly when i is even. */
  predicate Alternating(s: seq<bool>) {
    forall i :: 0 <= i < |s| ==> (s[i] == s[0] <==> i % 2 == 0)
  }

  lemma {:induction false} AntiAlignedPrefix(s: seq<bool>, i: nat)
    requires i < |s|
    requires forall p :: 0 <= p < |s| ==> Bonds(s)[p]
    ensures s[i] == s[0] <==> i % 2 == 0
  {
    if i > 0 {
      AntiAlignedPrefix(s, i - 1);
      assert Bonds(s)[i - 1];
    }
  }

  lemma AllAntiBondsAlternate(s: seq<bool>)
    requires Counter(s) == |s|
    ensures Alternating(s) && |s| % 2 == 0
  {
    CountFull(Bonds(s));
    var n := |s|;
    forall i | 0 <= i < n ensures s[i] == s[0] <==> i % 2 == 0 {
      AntiAlignedPrefix(s, i);
    }
    if n > 0 {
      assert Bonds(s)[n - 1];
    }
  }

  lemma AlternatingEvenAllAntiBonds(s: seq<bool>)
    requires Alternating(s) && |s| % 2 == 0
    ensures Counter(s) == |s|
  {
    CountFull(Bonds(s));
    forall p | 0 <= p < |s| ensures Bonds(s)[p] {
      AlternatingBond(s, p);
    }
  }

  /** On an even alternating ring bond p joins sites of opposite spin. */
  lemma AlternatingBond(s: seq<bool>, p: nat)
    requires Alternating(s) && |s| % 2 == 0 && p < |s|
    ensures s[p] != s[Neighbour(p, |s|)]
  {
    var n := |s|;
    var r := Neighbour(p, n);
    assert s[p] == s[0] <==> p % 2 == 0;
    assert s[r] == s[0] <==> r % 2 == 0;
    if p + 1 < n {
      assert r == p + 1;
    } else {
      assert r == 0 && p == n - 1;
    }
  }

  /** Every bond of the ring is anti-aligned exactly when the spins alternate
      and the ring has an even number of sites. */
  lemma AllAntiBondsIffAlternatingEven(s: seq<bool>)
    ensures Counter(s) == |s| <==> Alternating(s) && |s| % 2 == 0
  {
    if Counter(s) == |s| {
      AllAntiBondsAlternate(s);
    }
    if Alternating(s) && |s| % 2 == 0 {
      AlternatingEvenAllAntiBonds(s);
    }
  }

  /** A perfectly alternating half with an even number of sites gives
      -(J_z/4) * xSite. */
  lemma AlternatingHalfEnergy(jz: real, s: seq<bool>)
    requires Alternating(s) && |s| % 2 == 0
    ensures DiagonalEnergy(jz, s) == -(jz / 4.0 * (|s| as real))
  {
    AllAntiBondsIffAlternatingEven(s);
  }

  /** A ring of one site: the site is its own neighbour, so its single bond is
      always aligned and the energy is J_z/4. */
  lemma SingleSiteEnergy(jz: real, s: seq<bool>)
    requires |s| == 1
    ensures Neighbour(0, 1) == 0
    ensures Counter(s) == 0
    ensures DiagonalEnergy(jz, s) == jz / 4.0
  {
    assert !Bonds(s)[0];
  }

  // ---------------------------------------------------------------------
  // Ring symmetry

  /** Site p of the result is site p + 1 of s (site 0 for the last one). */
  function RotateLeft<T>(s: seq<T>): seq<T>
    requires |s| > 0
  {
    s[1..] + [s[0]]
  }

  lemma CountRotateLeft(b: seq<bool>)
    requires |b| > 0
    ensures Count(RotateLeft(b)) == Count(b)
  {
    var head, tail := [b[0]], b[1..];
    CountSwap(tail, head);
    assert head + tail == b;
  }

  lemma CountSwap(a: seq<bool>, c: seq<bool>)
    ensures Count(a + c) == Count(c + a)
  {
    CountAppend(a, c);
    CountAppend(c, a);
  }

  lemma BondsRotateLeft(s: seq<bool>)
    requires |s| > 0
    ensures Bonds(RotateLeft(s)) == RotateLeft(Bonds(s))
  {
    var n := |s|;
    var r := RotateLeft(s);
    forall p | 0 <= p < n ensures Bonds(r)[p] == RotateLeft(Bonds(s))[p] {
      var q := Neighbour(p, n);
      var p' := if p + 1 < n then p + 1 else 0;
      assert r[p] == s[p'];
      assert r[q] == s[Neighbour(p', n)];
    }
  }

  /** Rotating the ring by one site does not change its diagonal energy. */
  lemma RotationInvariance(jz: real, s: seq<bool>)
    requires |s| > 0
    ensures Counter(RotateLeft(s)) == Counter(s)
    ensures DiagonalEnergy(jz, RotateLeft(s)) == DiagonalEnergy(jz, s)
  {
    BondsRotateLeft(s);
    CountRotateLeft(Bonds(s));
  }

  // ---------------------------------------------------------------------
  // Which bits the element depends on

  /** With the ket half selected only bits [0, n) matter. */
  lemma KetHalfOnly(jz: real, det1: seq<bool>, det2: seq<bool>, n: nat)
    requires 2 * n <= |det1| && 2 * n <= |det2|
    requires forall i :: 0 <= i < n ==> det1[i] == det2[i]
    ensures DiagonalEnergy(jz, SelectedHalf(det1, n, true)) == DiagonalEnergy(jz, SelectedHalf(det2, n, true))
  {
    assert SelectedHalf(det1, n, true) == SelectedHalf(det2, n, true);
  }

  /** With the bra half selected only bits [n, 2n) matter. */
  lemma BraHalfOnly(jz: real, det1: seq<bool>, det2: seq<bool>, n: nat)
    requires 2 * n <= |det1| && 2 * n <= |det2|
    requires forall i :: n <= i < 2 * n ==> det1[i] == det2[i]
    ensures DiagonalEnergy(jz, SelectedHalf(det1, n, false)) == DiagonalEnergy(jz, SelectedHalf(det2, n, false))
  {
    assert SelectedHalf(det1, n, false) == SelectedHalf(det2, n, false);
  }

  /** Bits at 2n and above never change either element. */
  lemma HighBitsIrrelevant(jz: real, det1: seq<bool>, det2: seq<bool>, n: nat, ket: bool)
    requires 2 * n <= |det1| && 2 * n <= |det2|
    requires det1[..2 * n] == det2[..2 * n]
    ensures DiagonalEnergy(jz, SelectedHalf(det1, n, ket)) == DiagonalEnergy(jz, SelectedHalf(det2, n, ket))
  {
    assert forall i :: 0 <= i < 2 * n ==> det1[i] == det1[..2 * n][i];
    if ket {
      KetHalfOnly(jz, det1, det2, n);
    } else {
      BraHalfOnly(jz, det1, det2, n);
    }
  }
}

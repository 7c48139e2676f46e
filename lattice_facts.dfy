/** Properties of the lattice functions: what one Metropolis trial can change,
    how the flip acts on the local energy, and the values and bounds of the
    energy and the magnetization. */
module LatticeFacts {
  import opened Agent
  import opened Lattice

  // ---------------------------------------------------------------------
  // The flip and the local energy

  lemma FourInteractions(coupling: real, s: int, a: int, b: int, c: int, d: int)
    ensures 0.0 - coupling * (s as real) * (a as real) - coupling * (s as real) * (b as real)
            - coupling * (s as real) * (c as real) - coupling * (s as real) * (d as real)
            == -coupling * (s as real) * ((a + b + c + d) as real)
  {
  }

  /** Extending the cell list by one cell adds that cell's term. */
  lemma InteractionStep(g: Grid, n: nat, coupling: real, s: int, cells: seq<(nat, nat)>, k: nat)
    requires IsSquare(g, n) && InRange(n, cells) && k < |cells|
    ensures Interaction(g, n, coupling, s, cells[..k + 1])
            == Interaction(g, n, coupling, s, cells[..k]) - coupling * (s as real) * (g[cells[k].0][cells[k].1] as real)
  {
    assert cells[..k + 1][..k] == cells[..k];
  }

  /** Accumulating `- coupling * spin * neighbour` over the neighbour list
      of `(i, j)` gives the closed-form site energy. */
  lemma InteractionOverNeighbours(g: Grid, n: nat, coupling: real, i: nat, j: nat)
    requires IsSquare(g, n) && i < n && j < n
    ensures Interaction(g, n, coupling, g[i][j], Neighbours(n, i, j)) == SiteEnergy(g, n, coupling, i, j)
  {
    var nb := Neighbours(n, i, j);
    var s := g[i][j];
    var a, b, c, d := g[nb[0].0][nb[0].1], g[nb[1].0][nb[1].1], g[nb[2].0][nb[2].1], g[nb[3].0][nb[3].1];
    assert nb[..0] == [];
    InteractionStep(g, n, coupling, s, nb, 0);
    InteractionStep(g, n, coupling, s, nb, 1);
    InteractionStep(g, n, coupling, s, nb, 2);
    InteractionStep(g, n, coupling, s, nb, 3);
    assert nb[..4] == nb;
    assert a + b + c + d == NeighbourSum(g, n, i, j);
    FourInteractions(coupling, s, a, b, c, d);
  }

  /** On a lattice of +1/-1 spins the neighbour sum lies in [-4, 4], so a
      site energy lies between `-4 J` and `4 J`. */
  lemma NeighbourSumBounds(g: Grid, n: nat, i: nat, j: nat)
    requires IsSpinGrid(g, n) && i < n && j < n
    ensures -4 <= NeighbourSum(g, n, i, j) <= 4
  {
    assert IsSpin(g[Prev(i, n)][j]) && IsSpin(g[Next(i, n)][j]) && IsSpin(g[i][Prev(j, n)]) && IsSpin(g[i][Next(j, n)]);
  }

  /** Negating the spin at `(i, j)` negates that site's energy on every
      lattice of side 2 or more, so the energy change of the trial is minus
      twice the energy before. On the 1 x 1 lattice all four neighbours are
      the site itself and the change is zero. */
  lemma FlipSiteEnergy(g: Grid, n: nat, coupling: real, i: nat, j: nat)
    requires IsSquare(g, n) && i < n && j < n
    ensures n >= 2 ==> SiteEnergy(FlipAt(g, n, i, j), n, coupling, i, j) == -SiteEnergy(g, n, coupling, i, j)
    ensures n == 1 ==> SiteEnergy(FlipAt(g, n, i, j), n, coupling, i, j) == SiteEnergy(g, n, coupling, i, j)
    ensures SiteEnergy(FlipAt(g, n, i, j), n, coupling, i, j) - SiteEnergy(g, n, coupling, i, j)
            == if n >= 2 then -2.0 * SiteEnergy(g, n, coupling, i, j) else 0.0
  {
    var f := FlipAt(g, n, i, j);
    var s := g[i][j] as real;
    if n >= 2 {
      assert NeighbourSum(f, n, i, j) == NeighbourSum(g, n, i, j);
      assert SiteEnergy(f, n, coupling, i, j) == -coupling * (-s) * (NeighbourSum(g, n, i, j) as real);
    } else {
      assert Prev(i, n) == Next(i, n) == i && Prev(j, n) == Next(j, n) == j;
      assert NeighbourSum(f, n, i, j) == -NeighbourSum(g, n, i, j);
      assert SiteEnergy(f, n, coupling, i, j) == -coupling * (-s) * (-(NeighbourSum(g, n, i, j) as real));
    }
  }

  /** Flipping the same cell twice gives back the lattice it started from. */
  lemma FlipAtTwice(g: Grid, n: nat, i: nat, j: nat)
    requires IsSquare(g, n) && i < n && j < n
    ensures FlipAt(FlipAt(g, n, i, j), n, i, j) == g
  {
    var twice := FlipAt(FlipAt(g, n, i, j), n, i, j);
    assert twice[i] == g[i];
    forall k | 0 <= k < n ensures twice[k] == g[k] {
      if k != i {
        assert twice[k] == FlipAt(g, n, i, j)[k] == g[k];
      }
    }
  }

  /** The Metropolis rule in closed form: the trial keeps the flip unless the
      lattice has side 2 or more, the site energy before the flip is
      negative (so the flip raises the energy) and the draw rejects; in that
      case, and only then, the lattice comes back exactly as it was. */
  lemma StepGridRule(g: Grid, n: nat, coupling: real, i: nat, j: nat, acceptUphill: bool)
    requires IsSpinGrid(g, n) && i < n && j < n
    ensures var rejected := n >= 2 && SiteEnergy(g, n, coupling, i, j) < 0.0 && !acceptUphill;
            StepGrid(g, n, coupling, i, j, acceptUphill) == if rejected then g else FlipAt(g, n, i, j)
    ensures FlipAt(g, n, i, j) != g
    ensures StepGrid(g, n, coupling, i, j, acceptUphill) == g
            <==> n >= 2 && SiteEnergy(g, n, coupling, i, j) < 0.0 && !acceptUphill
  {
    FlipSiteEnergy(g, n, coupling, i, j);
    assert FlipAt(g, n, i, j)[i][j] != g[i][j];
  }

  /** A trial changes at most the chosen cell, which ends up either as it
      was or negated, and leaves a well-formed lattice. */
  lemma StepGridLocal(g: Grid, n: nat, coupling: real, i: nat, j: nat, acceptUphill: bool)
    requires IsSpinGrid(g, n) && i < n && j < n
    ensures IsSpinGrid(StepGrid(g, n, coupling, i, j, acceptUphill), n)
    ensures forall k, l :: 0 <= k < n && 0 <= l < n && (k != i || l != j) ==>
              StepGrid(g, n, coupling, i, j, acceptUphill)[k][l] == g[k][l]
    ensures StepGrid(g, n, coupling, i, j, acceptUphill)[i][j] in {g[i][j], -g[i][j]}
  {
    var r := StepGrid(g, n, coupling, i, j, acceptUphill);
    assert r == g || r == FlipAt(g, n, i, j);
    forall k, l | 0 <= k < n && 0 <= l < n ensures IsSpin(r[k][l]) {
      if k == i && l == j {
        assert IsSpin(g[k][l]);
      } else {
        assert r[k][l] == g[k][l];
      }
    }
  }

  // ---------------------------------------------------------------------
  // Energy of an aligned lattice

  lemma AlignedSiteEnergy(g: Grid, n: nat, coupling: real, s: int, i: nat, j: nat)
    requires Uniform(g, n, s) && IsSpin(s) && i < n && j < n
    ensures SiteEnergy(g, n, coupling, i, j) == -4.0 * coupling
  {
    assert NeighbourSum(g, n, i, j) == 4 * s;
    assert (s as real) * ((4 * s) as real) == 4.0;
  }

  /** `k` copies of `x` added up. */
  function Repeat(x: real, k: nat): real {
    if k == 0 then 0.0 else Repeat(x, k - 1) + x
  }

  lemma {:induction false} RepeatIsProduct(x: real, k: nat)
    ensures Repeat(x, k) == x * (k as real)
  {
    if k > 0 {
      RepeatIsProduct(x, k - 1);
    }
  }

  lemma {:induction false} AlignedRowEnergy(g: Grid, n: nat, coupling: real, s: int, i: nat, c: nat)
    requires Uniform(g, n, s) && IsSpin(s) && i < n && c <= n
    ensures RowEnergy(g, n, coupling, i, c) == Repeat(-4.0 * coupling, c)
  {
    if c > 0 {
      AlignedRowEnergy(g, n, coupling, s, i, c - 1);
      AlignedSiteEnergy(g, n, coupling, s, i, c - 1);
    }
  }

  lemma {:induction false} AlignedSitesEnergy(g: Grid, n: nat, coupling: real, s: int, r: nat)
    requires Uniform(g, n, s) && IsSpin(s) && r <= n
    ensures SitesEnergy(g, n, coupling, r) == Repeat(Repeat(-4.0 * coupling, n), r)
  {
    if r > 0 {
      AlignedSitesEnergy(g, n, coupling, s, r - 1);
      AlignedRowEnergy(g, n, coupling, s, r - 1, n);
    }
  }

  /** On a lattice whose spins are all +1, or all -1, the total energy is
      -2 J size^2: every site has energy -4 J and the halving leaves two
      bonds per site. */
  lemma AlignedTotalEnergy(g: Grid, n: nat, coupling: real, s: int)
    requires Uniform(g, n, s) && IsSpin(s)
    ensures TotalEnergy(g, n, coupling) == -2.0 * coupling * ((n * n) as real)
  {
    AlignedSitesEnergy(g, n, coupling, s, n);
    RepeatIsProduct(-4.0 * coupling, n);
    RepeatIsProduct(Repeat(-4.0 * coupling, n), n);
    assert ((n * n) as real) == (n as real) * (n as real);
  }

  /** The 2 x 2 lattice with every spin +1 and coupling 1 has total energy -8. */
  lemma TwoByTwoAlignedEnergy()
    ensures TotalEnergy([[1, 1], [1, 1]], 2, 1.0) == -8.0
  {
    AlignedTotalEnergy([[1, 1], [1, 1]], 2, 1.0, 1);
  }

  // ---------------------------------------------------------------------
  // Magnetization

  lemma {:induction false} RowSpinBounds(g: Grid, n: nat, i: nat, c: nat)
    requires IsSpinGrid(g, n) && i < n && c <= n
    ensures -(c as int) <= RowSpin(g, n, i, c) <= c
  {
    if c > 0 {
      RowSpinBounds(g, n, i, c - 1);
      assert IsSpin(g[i][c - 1]);
    }
  }

  lemma {:induction false} SpinTotalBounds(g: Grid, n: nat, r: nat)
    requires IsSpinGrid(g, n) && r <= n
    ensures -(n * r) <= SpinTotal(g, n, r) <= n * r
  {
    if r > 0 {
      SpinTotalBounds(g, n, r - 1);
      RowSpinBounds(g, n, r - 1, n);
    }
  }

  /** The magnetization of a well-formed lattice lies in [-1, 1]. */
  lemma MagnetizationBounds(g: Grid, n: nat)
    requires IsSpinGrid(g, n) && n > 0
    ensures -1.0 <= Magnetization(g, n) <= 1.0
  {
    SpinTotalBounds(g, n, n);
    var t := SpinTotal(g, n, n) as real;
    var size2 := (n * n) as real;
    assert size2 > 0.0;
    assert -size2 <= t <= size2;
    assert Magnetization(g, n) * size2 == t;
  }

  lemma {:induction false} AlignedRowSpin(g: Grid, n: nat, s: int, i: nat, c: nat)
    requires Uniform(g, n, s) && i < n && c <= n
    ensures RowSpin(g, n, i, c) == s * c
  {
    if c > 0 {
      AlignedRowSpin(g, n, s, i, c - 1);
    }
  }

  lemma {:induction false} AlignedSpinTotal(g: Grid, n: nat, s: int, r: nat)
    requires Uniform(g, n, s) && r <= n
    ensures SpinTotal(g, n, r) == (s * n) * r
  {
    if r > 0 {
      AlignedSpinTotal(g, n, s, r - 1);
      AlignedRowSpin(g, n, s, r - 1, n);
      assert SpinTotal(g, n, r) == (s * n) * (r - 1) + s * n;
    }
  }

  /** An all +1 lattice has magnetization 1 and an all -1 lattice has
      magnetization -1. */
  lemma AlignedMagnetization(g: Grid, n: nat, s: int)
    requires Uniform(g, n, s) && IsSpin(s) && n > 0
    ensures Magnetization(g, n) == s as real
  {
    AlignedSpinTotal(g, n, s, n);
    var size2 := n * n;
    assert SpinTotal(g, n, n) == s * size2;
    assert (s * size2) as real == (s as real) * (size2 as real);
    assert size2 > 0;
  }
}

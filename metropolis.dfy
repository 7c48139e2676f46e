/** Why the Metropolis trial may decide on the local energy of one site: the
    change of the total energy caused by flipping one spin equals the change
    of that site's energy, so a trial whose draw rejects uphill moves never
    raises the total energy. */
module Metropolis {
  import opened Agent
  import opened Lattice
  import opened LatticeFacts
  import opened Bonds

  // ---------------------------------------------------------------------
  // Sums that differ from another sum in few cells

  /** A row sum whose terms vanish outside column `j0`. */
  lemma {:induction false} RowSumPoint(f: CellFn, i: nat, c: nat, j0: nat)
    requires forall j: nat :: j < c && j != j0 ==> f(i, j) == 0
    ensures RowSum(f, i, c) == if j0 < c then f(i, j0) else 0
  {
    if c > 0 {
      RowSumPoint(f, i, c - 1, j0);
    }
  }

  /** A grid sum whose terms vanish outside the cell `(i0, j0)`. */
  lemma {:induction false} GridSumPoint(f: CellFn, n: nat, r: nat, i0: nat, j0: nat)
    requires j0 < n
    requires forall i: nat, j: nat :: i < r && j < n && (i != i0 || j != j0) ==> f(i, j) == 0
    ensures GridSum(f, n, r) == if i0 < r then f(i0, j0) else 0
  {
    if r > 0 {
      GridSumPoint(f, n, r - 1, i0, j0);
      if r - 1 == i0 {
        RowSumPoint(f, r - 1, n, j0);
      } else {
        RowSumPoint(f, r - 1, n, n);
      }
    }
  }

  /** A row sum of three terms is the sum of the three row sums. */
  lemma {:induction false} RowSumOfThree(a: CellFn, b: CellFn, c: CellFn, h: CellFn, i: nat, k: nat)
    requires forall j: nat :: j < k ==> h(i, j) == a(i, j) + b(i, j) + c(i, j)
    ensures RowSum(h, i, k) == RowSum(a, i, k) + RowSum(b, i, k) + RowSum(c, i, k)
  {
    if k > 0 {
      RowSumOfThree(a, b, c, h, i, k - 1);
    }
  }

  /** A grid sum of three terms is the sum of the three grid sums. */
  lemma {:induction false} GridSumOfThree(a: CellFn, b: CellFn, c: CellFn, h: CellFn, n: nat, r: nat)
    requires forall i: nat, j: nat :: i < r && j < n ==> h(i, j) == a(i, j) + b(i, j) + c(i, j)
    ensures GridSum(h, n, r) == GridSum(a, n, r) + GridSum(b, n, r) + GridSum(c, n, r)
  {
    if r > 0 {
      GridSumOfThree(a, b, c, h, n, r - 1);
      RowSumOfThree(a, b, c, h, r - 1, n);
    }
  }

  /** If `h` is `f` plus two corrections, one at cell `A` and one at cell
      `B` (distinct, inside the grid), the sum of `h` is the sum of `f` plus
      the two corrections. */
  lemma TwoCellChange(f: CellFn, h: CellFn, n: nat, a: (nat, nat), b: (nat, nat))
    requires a.0 < n && a.1 < n && b.0 < n && b.1 < n && a != b
    requires forall i: nat, j: nat :: i < n && j < n && (i, j) != a && (i, j) != b ==> h(i, j) == f(i, j)
    ensures GridSum(h, n, n) == GridSum(f, n, n) + (h(a.0, a.1) - f(a.0, a.1)) + (h(b.0, b.1) - f(b.0, b.1))
  {
    var da := (i: nat, j: nat) => if (i, j) == a then h(i, j) - f(i, j) else 0;
    var db := (i: nat, j: nat) => if (i, j) == b then h(i, j) - f(i, j) else 0;
    forall i: nat, j: nat | i < n && j < n
      ensures h(i, j) == f(i, j) + da(i, j) + db(i, j)
    {
    }
    GridSumOfThree(f, da, db, h, n, n);
    GridSumPoint(da, n, n, a.0, a.1);
    GridSumPoint(db, n, n, b.0, b.1);
  }

  /** A quantity that agrees with `f` on every cell of the grid has the same
      sum. */
  lemma {:induction false} GridSumAgree(f: CellFn, h: CellFn, n: nat, r: nat)
    requires forall i: nat, j: nat :: i < r && j < n ==> h(i, j) == f(i, j)
    ensures GridSum(h, n, r) == GridSum(f, n, r)
  {
    if r > 0 {
      GridSumAgree(f, h, n, r - 1);
      RowSumAgree(f, r - 1, h, r - 1, n);
    }
  }

  // ---------------------------------------------------------------------
  // The bonds touched by one flip

  /** Flipping `(i, j)` leaves every vertical bond alone except the one
      below it and the one above it (the bond below the cell above). */
  lemma DownBondsOutsideFlip(g: Grid, n: nat, i: nat, j: nat)
    requires IsSquare(g, n) && i < n && j < n && n >= 2
    ensures var before, after := DownBonds(g, n), DownBonds(FlipAt(g, n, i, j), n);
            GridSum(after, n, n) == GridSum(before, n, n)
              + (after(i, j) - before(i, j)) + (after(Prev(i, n), j) - before(Prev(i, n), j))
  {
    var before, after := DownBonds(g, n), DownBonds(FlipAt(g, n, i, j), n);
    var above := Prev(i, n);
    assert Next(above, n) == i;
    forall p: nat, q: nat | p < n && q < n && (p, q) != (i, j) && (p, q) != (above, j)
      ensures after(p, q) == before(p, q)
    {
      assert (Next(p, n), q) != (i, j);
    }
    TwoCellChange(before, after, n, (i, j), (above, j));
  }

  /** The two vertical bonds at a flipped cell change sign. */
  lemma DownBondsAtFlip(g: Grid, n: nat, i: nat, j: nat)
    requires IsSquare(g, n) && i < n && j < n && n >= 2
    ensures var before, after := DownBonds(g, n), DownBonds(FlipAt(g, n, i, j), n);
            (after(i, j) - before(i, j)) + (after(Prev(i, n), j) - before(Prev(i, n), j))
              == -2 * g[i][j] * (g[Next(i, n)][j] + g[Prev(i, n)][j])
  {
    var f := FlipAt(g, n, i, j);
    var s, below, above := g[i][j], g[Next(i, n)][j], g[Prev(i, n)][j];
    assert Next(Prev(i, n), n) == i;
    assert DownBonds(f, n)(i, j) == -s * below;
    assert DownBonds(f, n)(Prev(i, n), j) == above * -s;
  }

  /** Flipping `(i, j)` changes exactly two vertical bonds. */
  lemma DownBondsAfterFlip(g: Grid, n: nat, i: nat, j: nat)
    requires IsSquare(g, n) && i < n && j < n && n >= 2
    ensures GridSum(DownBonds(FlipAt(g, n, i, j), n), n, n)
            == GridSum(DownBonds(g, n), n, n) - 2 * g[i][j] * (g[Next(i, n)][j] + g[Prev(i, n)][j])
  {
    DownBondsOutsideFlip(g, n, i, j);
    DownBondsAtFlip(g, n, i, j);
  }

  /** Flipping `(i, j)` leaves every horizontal bond alone except the one to
      its right and the one to its left. */
  lemma RightBondsOutsideFlip(g: Grid, n: nat, i: nat, j: nat)
    requires IsSquare(g, n) && i < n && j < n && n >= 2
    ensures var before, after := RightBonds(g, n), RightBonds(FlipAt(g, n, i, j), n);
            GridSum(after, n, n) == GridSum(before, n, n)
              + (after(i, j) - before(i, j)) + (after(i, Prev(j, n)) - before(i, Prev(j, n)))
  {
    var before, after := RightBonds(g, n), RightBonds(FlipAt(g, n, i, j), n);
    var left := Prev(j, n);
    assert Next(left, n) == j;
    forall p: nat, q: nat | p < n && q < n && (p, q) != (i, j) && (p, q) != (i, left)
      ensures after(p, q) == before(p, q)
    {
      assert (p, Next(q, n)) != (i, j);
    }
    TwoCellChange(before, after, n, (i, j), (i, left));
  }

  /** The two horizontal bonds at a flipped cell change sign. */
  lemma RightBondsAtFlip(g: Grid, n: nat, i: nat, j: nat)
    requires IsSquare(g, n) && i < n && j < n && n >= 2
    ensures var before, after := RightBonds(g, n), RightBonds(FlipAt(g, n, i, j), n);
            (after(i, j) - before(i, j)) + (after(i, Prev(j, n)) - before(i, Prev(j, n)))
              == -2 * g[i][j] * (g[i][Next(j, n)] + g[i][Prev(j, n)])
  {
    var f := FlipAt(g, n, i, j);
    var s, right, left := g[i][j], g[i][Next(j, n)], g[i][Prev(j, n)];
    assert Next(Prev(j, n), n) == j;
    assert RightBonds(f, n)(i, j) == -s * right;
    assert RightBonds(f, n)(i, Prev(j, n)) == left * -s;
  }

  /** Flipping `(i, j)` changes exactly two horizontal bonds. */
  lemma RightBondsAfterFlip(g: Grid, n: nat, i: nat, j: nat)
    requires IsSquare(g, n) && i < n && j < n && n >= 2
    ensures GridSum(RightBonds(FlipAt(g, n, i, j), n), n, n)
            == GridSum(RightBonds(g, n), n, n) - 2 * g[i][j] * (g[i][Next(j, n)] + g[i][Prev(j, n)])
  {
    RightBondsOutsideFlip(g, n, i, j);
    RightBondsAtFlip(g, n, i, j);
  }

  /** On a lattice of side 1 the only bond joins the cell to itself, and a
      flip leaves its product unchanged. */
  lemma BondSumAfterFlipOnOneCell(g: Grid, n: nat, i: nat, j: nat)
    requires IsSquare(g, n) && i < n && j < n && n == 1
    ensures BondSum(FlipAt(g, n, i, j), n) == BondSum(g, n)
  {
    var f := FlipAt(g, n, i, j);
    assert Next(i, n) == i && Next(j, n) == j;
    forall p: nat, q: nat | p < n && q < n
      ensures DownBonds(f, n)(p, q) == DownBonds(g, n)(p, q) && RightBonds(f, n)(p, q) == RightBonds(g, n)(p, q)
    {
      assert p == i && q == j;
    }
    GridSumAgree(DownBonds(g, n), DownBonds(f, n), n, n);
    GridSumAgree(RightBonds(g, n), RightBonds(f, n), n, n);
  }

  /** A flip changes the bond sum by minus twice the spin times the sum of
      its neighbours, except on the 1 x 1 lattice where it changes nothing. */
  lemma BondSumAfterFlip(g: Grid, n: nat, i: nat, j: nat)
    requires IsSquare(g, n) && i < n && j < n
    ensures BondSum(FlipAt(g, n, i, j), n)
            == if n >= 2 then BondSum(g, n) - 2 * (g[i][j] * NeighbourSum(g, n, i, j)) else BondSum(g, n)
  {
    if n >= 2 {
      DownBondsAfterFlip(g, n, i, j);
      RightBondsAfterFlip(g, n, i, j);
      var s := g[i][j];
      assert s * NeighbourSum(g, n, i, j)
             == s * (g[Next(i, n)][j] + g[Prev(i, n)][j]) + s * (g[i][Next(j, n)] + g[i][Prev(j, n)]);
    } else {
      BondSumAfterFlipOnOneCell(g, n, i, j);
    }
  }

  // ---------------------------------------------------------------------
  // The energy change of a trial

  /** The arithmetic of the energy change: when a bond sum drops by
      `2 * d`, minus the coupling times it rises by `2 * coupling * d`. */
  lemma ScaledChange(k: real, before: int, after: int, d: int)
    requires after == before - 2 * d
    ensures -k * (after as real) - -k * (before as real) == 2.0 * k * (d as real)
  {
  }

  lemma SiteEnergyChangeAsProduct(g: Grid, n: nat, coupling: real, i: nat, j: nat)
    requires IsSquare(g, n) && i < n && j < n && n >= 2
    ensures SiteEnergy(FlipAt(g, n, i, j), n, coupling, i, j) - SiteEnergy(g, n, coupling, i, j)
            == 2.0 * coupling * ((g[i][j] * NeighbourSum(g, n, i, j)) as real)
  {
    FlipSiteEnergy(g, n, coupling, i, j);
    ScaledProduct(coupling, g[i][j], NeighbourSum(g, n, i, j));
  }

  /** On a lattice of side 2 or more, flipping `(i, j)` changes the bond
      energy by twice the coupling times the spin times its neighbour sum. */
  lemma BondEnergyChangeWide(g: Grid, n: nat, coupling: real, i: nat, j: nat)
    requires IsSquare(g, n) && i < n && j < n && n >= 2
    ensures BondEnergy(FlipAt(g, n, i, j), n, coupling) - BondEnergy(g, n, coupling)
            == 2.0 * coupling * ((g[i][j] * NeighbourSum(g, n, i, j)) as real)
  {
    BondSumAfterFlip(g, n, i, j);
    ScaledChange(coupling, BondSum(g, n), BondSum(FlipAt(g, n, i, j), n), g[i][j] * NeighbourSum(g, n, i, j));
  }

  /** The change of the total energy caused by flipping `(i, j)` is the
      change of that site's energy, the quantity the trial computes. */
  lemma TotalEnergyChangeIsLocal(g: Grid, n: nat, coupling: real, i: nat, j: nat)
    requires IsSquare(g, n) && i < n && j < n
    ensures TotalEnergy(FlipAt(g, n, i, j), n, coupling) - TotalEnergy(g, n, coupling)
            == SiteEnergy(FlipAt(g, n, i, j), n, coupling, i, j) - SiteEnergy(g, n, coupling, i, j)
  {
    TotalEnergyCountsEachBondOnce(g, n, coupling);
    TotalEnergyCountsEachBondOnce(FlipAt(g, n, i, j), n, coupling);
    if n >= 2 {
      BondEnergyChangeWide(g, n, coupling, i, j);
      SiteEnergyChangeAsProduct(g, n, coupling, i, j);
    } else {
      BondSumAfterFlip(g, n, i, j);
      FlipSiteEnergy(g, n, coupling, i, j);
    }
  }

  /** A trial ends with a higher total energy only when the draw accepted an
      uphill move; otherwise the total energy never rises. */
  lemma TrialRaisesEnergyOnlyIfAccepted(g: Grid, n: nat, coupling: real, i: nat, j: nat, acceptUphill: bool)
    requires IsSpinGrid(g, n) && i < n && j < n
    ensures TotalEnergy(StepGrid(g, n, coupling, i, j, acceptUphill), n, coupling) > TotalEnergy(g, n, coupling)
            ==> acceptUphill
  {
    TotalEnergyChangeIsLocal(g, n, coupling, i, j);
  }

  /** When the trial keeps the flip, the total energy changes by exactly the
      site-energy difference the trial computed; when it undoes the flip, the
      total energy is unchanged. */
  lemma TrialEnergyChange(g: Grid, n: nat, coupling: real, i: nat, j: nat, acceptUphill: bool)
    requires IsSpinGrid(g, n) && i < n && j < n
    ensures var delta := SiteEnergy(FlipAt(g, n, i, j), n, coupling, i, j) - SiteEnergy(g, n, coupling, i, j);
            TotalEnergy(StepGrid(g, n, coupling, i, j, acceptUphill), n, coupling) - TotalEnergy(g, n, coupling)
            == if delta > 0.0 && !acceptUphill then 0.0 else delta
  {
    TotalEnergyChangeIsLocal(g, n, coupling, i, j);
  }
}

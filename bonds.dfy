/** Why the total energy is halved: summing the site energies over the whole
    periodic lattice counts every nearest-neighbour bond twice, once from
    each of its two ends. The bonds are enumerated once each as the bond
    from every cell to the cell below it and the bond to the cell on its
    right. */
module Bonds {
  import opened Agent
  import opened Lattice

  /** An integer quantity attached to every cell. */
  type CellFn = (nat, nat) -> int

  /** `f` over row `i`, columns `0 .. c-1`. */
  function RowSum(f: CellFn, i: nat, c: nat): int {
    if c == 0 then 0 else RowSum(f, i, c - 1) + f(i, c - 1)
  }

  /** `f` over rows `0 .. r-1` of an `n`-column grid. */
  function GridSum(f: CellFn, n: nat, r: nat): int {
    if r == 0 then 0 else GridSum(f, n, r - 1) + RowSum(f, r - 1, n)
  }

  // ---------------------------------------------------------------------
  // Sums of cell quantities

  /** Two quantities that agree on a stretch of two rows have the same sum. */
  lemma {:induction false} RowSumAgree(f: CellFn, i: nat, h: CellFn, k: nat, c: nat)
    requires forall j: nat :: j < c ==> h(k, j) == f(i, j)
    ensures RowSum(h, k, c) == RowSum(f, i, c)
  {
    if c > 0 {
      RowSumAgree(f, i, h, k, c - 1);
    }
  }

  /** A row sum of four terms is the sum of the four row sums. */
  lemma {:induction false} RowSumOfFour(a: CellFn, b: CellFn, c: CellFn, d: CellFn, h: CellFn, i: nat, k: nat)
    requires forall j: nat :: j < k ==> h(i, j) == a(i, j) + b(i, j) + c(i, j) + d(i, j)
    ensures RowSum(h, i, k) == RowSum(a, i, k) + RowSum(b, i, k) + RowSum(c, i, k) + RowSum(d, i, k)
  {
    if k > 0 {
      RowSumOfFour(a, b, c, d, h, i, k - 1);
    }
  }

  /** A grid sum of four terms is the sum of the four grid sums. */
  lemma {:induction false} GridSumOfFour(a: CellFn, b: CellFn, c: CellFn, d: CellFn, h: CellFn, n: nat, r: nat)
    requires forall i: nat, j: nat :: i < r && j < n ==> h(i, j) == a(i, j) + b(i, j) + c(i, j) + d(i, j)
    ensures GridSum(h, n, r) == GridSum(a, n, r) + GridSum(b, n, r) + GridSum(c, n, r) + GridSum(d, n, r)
  {
    if r > 0 {
      GridSumOfFour(a, b, c, d, h, n, r - 1);
      RowSumOfFour(a, b, c, d, h, r - 1, n);
    }
  }

  /** Reading each row one column to the left, cyclically: the first `c`
      terms are the last cell of the row followed by the first `c - 1`. */
  lemma {:induction false} RowShiftPrefix(f: CellFn, h: CellFn, n: nat, i: nat, c: nat)
    requires 1 <= c <= n
    requires forall j: nat :: j < n ==> h(i, j) == f(i, Prev(j, n))
    ensures RowSum(h, i, c) == f(i, n - 1) + RowSum(f, i, c - 1)
  {
    if c > 1 {
      RowShiftPrefix(f, h, n, i, c - 1);
      assert h(i, c - 1) == f(i, c - 2);
    } else {
      assert h(i, 0) == f(i, n - 1);
    }
  }

  /** A cyclic shift of the columns leaves every row sum unchanged. */
  lemma ColumnShift(f: CellFn, h: CellFn, n: nat, r: nat)
    requires forall i: nat, j: nat :: i < r && j < n ==> h(i, j) == f(i, Prev(j, n))
    ensures GridSum(h, n, r) == GridSum(f, n, r)
    decreases r
  {
    if r > 0 {
      ColumnShift(f, h, n, r - 1);
      if n > 0 {
        RowShiftPrefix(f, h, n, r - 1, n);
      }
    }
  }

  /** Reading the rows one row up, cyclically: the first `r` rows are the
      last row followed by the first `r - 1`. */
  lemma {:induction false} RowsShiftPrefix(f: CellFn, h: CellFn, n: nat, r: nat)
    requires 1 <= r <= n
    requires forall i: nat, j: nat :: i < n && j < n ==> h(i, j) == f(Prev(i, n), j)
    ensures GridSum(h, n, r) == RowSum(f, n - 1, n) + GridSum(f, n, r - 1)
  {
    if r > 1 {
      RowsShiftPrefix(f, h, n, r - 1);
      RowSumAgree(f, r - 2, h, r - 1, n);
    } else {
      RowSumAgree(f, n - 1, h, 0, n);
    }
  }

  /** A cyclic shift of the rows leaves the grid sum unchanged. */
  lemma RowShift(f: CellFn, h: CellFn, n: nat)
    requires forall i: nat, j: nat :: i < n && j < n ==> h(i, j) == f(Prev(i, n), j)
    ensures GridSum(h, n, n) == GridSum(f, n, n)
  {
    if n > 0 {
      RowsShiftPrefix(f, h, n, n);
    }
  }

  /** A quantity bounded above by 1 in every cell sums to at most `n * r`. */
  lemma {:induction false} GridSumAtMost(f: CellFn, n: nat, r: nat)
    requires forall i: nat, j: nat :: i < r && j < n ==> f(i, j) <= 1
    ensures GridSum(f, n, r) <= n * r
  {
    if r > 0 {
      GridSumAtMost(f, n, r - 1);
      RowSumAtMost(f, r - 1, n);
    }
  }

  lemma {:induction false} RowSumAtMost(f: CellFn, i: nat, c: nat)
    requires forall j: nat :: j < c ==> f(i, j) <= 1
    ensures RowSum(f, i, c) <= c
  {
    if c > 0 {
      RowSumAtMost(f, i, c - 1);
    }
  }

  // ---------------------------------------------------------------------
  // The lattice quantities

  /** Spin times the sum of its four neighbours, the integer factor of the
      site energy. */
  function SiteProducts(g: Grid, n: nat): CellFn {
    (i: nat, j: nat) => if IsSquare(g, n) && i < n && j < n then g[i][j] * NeighbourSum(g, n, i, j) else 0
  }

  /** The bond from each cell to the cell above it. */
  function UpBonds(g: Grid, n: nat): CellFn {
    (i: nat, j: nat) => if IsSquare(g, n) && i < n && j < n then g[i][j] * g[Prev(i, n)][j] else 0
  }

  /** The bond from each cell to the cell below it. */
  function DownBonds(g: Grid, n: nat): CellFn {
    (i: nat, j: nat) => if IsSquare(g, n) && i < n && j < n then g[i][j] * g[Next(i, n)][j] else 0
  }

  /** The bond from each cell to the cell on its left. */
  function LeftBonds(g: Grid, n: nat): CellFn {
    (i: nat, j: nat) => if IsSquare(g, n) && i < n && j < n then g[i][j] * g[i][Prev(j, n)] else 0
  }

  /** The bond from each cell to the cell on its right. */
  function RightBonds(g: Grid, n: nat): CellFn {
    (i: nat, j: nat) => if IsSquare(g, n) && i < n && j < n then g[i][j] * g[i][Next(j, n)] else 0
  }

  /** The energy of the lattice with every bond counted once: minus the
      coupling times the sum, over all vertical and horizontal bonds, of the
      product of the two spins the bond joins. */
  function BondEnergy(g: Grid, n: nat, coupling: real): real {
    -coupling * (BondSum(g, n) as real)
  }

  /** The sum, over every bond, of the product of the two spins it joins. */
  function BondSum(g: Grid, n: nat): int {
    GridSum(DownBonds(g, n), n, n) + GridSum(RightBonds(g, n), n, n)
  }

  /** A real quantity attached to every cell. */
  type CellEnergy = (nat, nat) -> real

  /** `e` over row `i`, columns `0 .. c-1`. */
  function RealRowSum(e: CellEnergy, i: nat, c: nat): real {
    if c == 0 then 0.0 else RealRowSum(e, i, c - 1) + e(i, c - 1)
  }

  /** `e` over rows `0 .. r-1` of an `n`-column grid. */
  function RealGridSum(e: CellEnergy, n: nat, r: nat): real {
    if r == 0 then 0.0 else RealGridSum(e, n, r - 1) + RealRowSum(e, r - 1, n)
  }

  /** Terms that are all `-k` times integer terms sum to `-k` times the
      integer sum. */
  lemma {:induction false} RealRowSumScaled(e: CellEnergy, f: CellFn, k: real, i: nat, c: nat)
    requires forall j: nat :: j < c ==> e(i, j) == -k * (f(i, j) as real)
    ensures RealRowSum(e, i, c) == -k * (RowSum(f, i, c) as real)
  {
    if c > 0 {
      RealRowSumScaled(e, f, k, i, c - 1);
    }
  }

  lemma {:induction false} RealGridSumScaled(e: CellEnergy, f: CellFn, k: real, n: nat, r: nat)
    requires forall i: nat, j: nat :: i < r && j < n ==> e(i, j) == -k * (f(i, j) as real)
    ensures RealGridSum(e, n, r) == -k * (GridSum(f, n, r) as real)
  {
    if r > 0 {
      RealGridSumScaled(e, f, k, n, r - 1);
      RealRowSumScaled(e, f, k, r - 1, n);
    }
  }

  /** The site energy of every cell. */
  function SiteEnergies(g: Grid, n: nat, coupling: real): CellEnergy {
    (i: nat, j: nat) => if IsSquare(g, n) && i < n && j < n then SiteEnergy(g, n, coupling, i, j) else 0.0
  }

  lemma {:induction false} RowEnergyIsRowSum(g: Grid, n: nat, coupling: real, i: nat, c: nat)
    requires IsSquare(g, n) && i < n && c <= n
    ensures RowEnergy(g, n, coupling, i, c) == RealRowSum(SiteEnergies(g, n, coupling), i, c)
  {
    if c > 0 {
      RowEnergyIsRowSum(g, n, coupling, i, c - 1);
    }
  }

  lemma {:induction false} SitesEnergyIsGridSum(g: Grid, n: nat, coupling: real, r: nat)
    requires IsSquare(g, n) && r <= n
    ensures SitesEnergy(g, n, coupling, r) == RealGridSum(SiteEnergies(g, n, coupling), n, r)
  {
    if r > 0 {
      SitesEnergyIsGridSum(g, n, coupling, r - 1);
      RowEnergyIsRowSum(g, n, coupling, r - 1, n);
    }
  }

  lemma ScaledProduct(k: real, s: int, t: int)
    ensures -k * (s as real) * (t as real) == -k * ((s * t) as real)
  {
  }

  /** Every site energy is minus the coupling times the site product, so
      their sums are in the same ratio. */
  lemma SiteEnergiesAreScaledProducts(g: Grid, n: nat, coupling: real)
    requires IsSquare(g, n)
    ensures RealGridSum(SiteEnergies(g, n, coupling), n, n) == -coupling * (GridSum(SiteProducts(g, n), n, n) as real)
  {
    var e, p := SiteEnergies(g, n, coupling), SiteProducts(g, n);
    forall i: nat, j: nat | i < n && j < n
      ensures e(i, j) == -coupling * (p(i, j) as real)
    {
      ScaledProduct(coupling, g[i][j], NeighbourSum(g, n, i, j));
    }
    RealGridSumScaled(e, p, coupling, n, n);
  }

  /** The sum of the site energies is minus the coupling times the sum of
      the site products. */
  lemma SitesEnergyIsProductSum(g: Grid, n: nat, coupling: real)
    requires IsSquare(g, n)
    ensures SitesEnergy(g, n, coupling, n) == -coupling * (GridSum(SiteProducts(g, n), n, n) as real)
  {
    SiteEnergiesAreScaledProducts(g, n, coupling);
    SitesEnergyIsGridSum(g, n, coupling, n);
  }

  /** The site products split into the four bonds of each cell. */
  lemma SiteProductsSplit(g: Grid, n: nat)
    requires IsSquare(g, n)
    ensures forall i: nat, j: nat :: i < n && j < n ==>
              SiteProducts(g, n)(i, j)
                == UpBonds(g, n)(i, j) + DownBonds(g, n)(i, j) + LeftBonds(g, n)(i, j) + RightBonds(g, n)(i, j)
  {
    forall i: nat, j: nat | i < n && j < n
      ensures SiteProducts(g, n)(i, j)
                == UpBonds(g, n)(i, j) + DownBonds(g, n)(i, j) + LeftBonds(g, n)(i, j) + RightBonds(g, n)(i, j)
    {
      var s := g[i][j];
      assert SiteProducts(g, n)(i, j) == s * (g[Prev(i, n)][j] + g[Next(i, n)][j] + g[i][Prev(j, n)] + g[i][Next(j, n)]);
    }
  }

  /** The bond above a cell is the bond below the cell above it. */
  lemma UpBondsAreDownBonds(g: Grid, n: nat)
    ensures forall i: nat, j: nat :: i < n && j < n ==> UpBonds(g, n)(i, j) == DownBonds(g, n)(Prev(i, n), j)
  {
    forall i: nat, j: nat | i < n && j < n
      ensures UpBonds(g, n)(i, j) == DownBonds(g, n)(Prev(i, n), j)
    {
      assert Next(Prev(i, n), n) == i;
    }
  }

  /** The bond left of a cell is the bond right of the cell on its left. */
  lemma LeftBondsAreRightBonds(g: Grid, n: nat)
    ensures forall i: nat, j: nat :: i < n && j < n ==> LeftBonds(g, n)(i, j) == RightBonds(g, n)(i, Prev(j, n))
  {
    forall i: nat, j: nat | i < n && j < n
      ensures LeftBonds(g, n)(i, j) == RightBonds(g, n)(i, Prev(j, n))
    {
      assert Next(Prev(j, n), n) == j;
    }
  }

  /** Summed over the lattice, the site products count every bond twice:
      the up and left bonds of each cell are the down and right bonds of
      the cell one step back. */
  lemma SiteProductsAreBonds(g: Grid, n: nat)
    requires IsSquare(g, n)
    ensures GridSum(SiteProducts(g, n), n, n) == 2 * BondSum(g, n)
  {
    SiteProductsSplit(g, n);
    GridSumOfFour(UpBonds(g, n), DownBonds(g, n), LeftBonds(g, n), RightBonds(g, n), SiteProducts(g, n), n, n);
    UpBondsAreDownBonds(g, n);
    RowShift(DownBonds(g, n), UpBonds(g, n), n);
    LeftBondsAreRightBonds(g, n);
    ColumnShift(RightBonds(g, n), LeftBonds(g, n), n, n);
  }

  lemma HalvedDouble(k: real, sites: real, products: int, bonds: int)
    requires sites == -k * (products as real) && products == 2 * bonds
    ensures sites / 2.0 == -k * (bonds as real)
  {
  }

  /** Halving the sum of the site energies gives the energy with every bond
      counted exactly once, whatever the size of the lattice. */
  lemma TotalEnergyCountsEachBondOnce(g: Grid, n: nat, coupling: real)
    requires IsSquare(g, n)
    ensures TotalEnergy(g, n, coupling) == BondEnergy(g, n, coupling)
  {
    SitesEnergyIsProductSum(g, n, coupling);
    SiteProductsAreBonds(g, n);
    HalvedDouble(coupling, SitesEnergy(g, n, coupling, n), GridSum(SiteProducts(g, n), n, n), BondSum(g, n));
  }

  /** Every bond of a spin lattice is at most 1. */
  lemma BondsAtMostOne(g: Grid, n: nat)
    requires IsSpinGrid(g, n)
    ensures forall i: nat, j: nat :: i < n && j < n ==> DownBonds(g, n)(i, j) <= 1
    ensures forall i: nat, j: nat :: i < n && j < n ==> RightBonds(g, n)(i, j) <= 1
  {
    forall i: nat, j: nat | i < n && j < n
      ensures DownBonds(g, n)(i, j) <= 1 && RightBonds(g, n)(i, j) <= 1
    {
      assert IsSpin(g[i][j]) && IsSpin(g[Next(i, n)][j]) && IsSpin(g[i][Next(j, n)]);
    }
  }

  /** A spin lattice has `2 * n * n` bonds, each contributing at most 1. */
  lemma BondSumAtMost(g: Grid, n: nat)
    requires IsSpinGrid(g, n)
    ensures BondSum(g, n) <= 2 * (n * n)
  {
    BondsAtMostOne(g, n);
    GridSumAtMost(DownBonds(g, n), n, n);
    GridSumAtMost(RightBonds(g, n), n, n);
  }

  lemma ScaledBound(k: real, bonds: int, n: nat)
    requires k >= 0.0 && bonds <= 2 * (n * n)
    ensures -k * (bonds as real) >= -2.0 * k * ((n * n) as real)
  {
    assert ((2 * (n * n)) as real) == 2.0 * ((n * n) as real);
  }

  /** With a ferromagnetic coupling no lattice has less energy than
      `-2 * J * n * n`, the energy of an aligned lattice: every one of the
      `2 * n * n` bonds contributes at least `-J`. */
  lemma GroundStateEnergy(g: Grid, n: nat, coupling: real)
    requires IsSpinGrid(g, n) && coupling >= 0.0
    ensures TotalEnergy(g, n, coupling) >= -2.0 * coupling * ((n * n) as real)
  {
    TotalEnergyCountsEachBondOnce(g, n, coupling);
    BondSumAtMost(g, n);
    ScaledBound(coupling, BondSum(g, n), n);
  }
}

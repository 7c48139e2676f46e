/** The value-level description of a periodic square lattice of spins: the
    neighbour lookup, the local and total energy, the magnetization and the
    Metropolis trial, all as functions of a grid of integer spins, with the
    properties the simulation relies on proved as lemmas. */
module Lattice {
  import opened Agent

  /** Row-major grid of spins: `g[row][col]`. */
  type Grid = seq<seq<int>>

  predicate IsSquare(g: Grid, n: nat) {
    |g| == n && forall r :: 0 <= r < n ==> |g[r]| == n
  }

  /** A well-formed lattice: `n` rows of `n` cells, each +1 or -1. */
  predicate IsSpinGrid(g: Grid, n: nat) {
    IsSquare(g, n) && forall r, c :: 0 <= r < n && 0 <= c < n ==> IsSpin(g[r][c])
  }

  /** Every cell holds the same value `s`. */
  predicate Uniform(g: Grid, n: nat, s: int) {
    IsSquare(g, n) && forall r, c :: 0 <= r < n && 0 <= c < n ==> g[r][c] == s
  }

  /** The spin a fair-coin outcome stands for. */
  function CoinSpin(up: bool): (s: int)
    ensures IsSpin(s) && (s == 1 <==> up)
  {
    if up then 1 else -1
  }

  /** The grid built from one coin outcome per cell. */
  function InitialGrid(n: nat, draw: (nat, nat) -> bool): (g: Grid)
    ensures IsSpinGrid(g, n)
    ensures forall r, c :: 0 <= r < n && 0 <= c < n ==> g[r][c] == CoinSpin(draw(r, c))
  {
    var g := seq(n, r requires 0 <= r < n => seq(n, c requires 0 <= c < n => CoinSpin(draw(r, c))));
    assert forall r, c :: 0 <= r < n && 0 <= c < n ==> IsSpin(g[r][c]) by {
      forall r, c | 0 <= r < n && 0 <= c < n ensures IsSpin(g[r][c]) {
        assert g[r][c] == CoinSpin(draw(r, c));
      }
    }
    g
  }

  // ---------------------------------------------------------------------
  // Periodic neighbours

  /** The index before `k` on a ring of `n` positions. */
  function Prev(k: nat, n: nat): (r: nat)
    requires k < n
    ensures r < n
    ensures r == if k == 0 then n - 1 else k - 1
  {
    if k == 0 then n - 1 else k - 1
  }

  /** The index after `k` on a ring of `n` positions. */
  function Next(k: nat, n: nat): (r: nat)
    requires k < n
    ensures r < n
    ensures r == if k == n - 1 then 0 else k + 1
  {
    if k == n - 1 then 0 else k + 1
  }

  /** `Prev` is the wrapped difference `(k + n - 1) % n`. */
  lemma PrevIsWrapped(k: nat, n: nat)
    requires k < n
    ensures Prev(k, n) == (k + n - 1) % n
  {
    if k > 0 {
      assert k + n - 1 == (k - 1) + n;
    }
  }

  /** `Next` is the wrapped sum `(k + 1) % n`. */
  lemma NextIsWrapped(k: nat, n: nat)
    requires k < n
    ensures Next(k, n) == (k + 1) % n
  {
  }

  /** The up, down, left and right neighbours of `(i, j)`, in that order. */
  function Neighbours(n: nat, i: nat, j: nat): (r: seq<(nat, nat)>)
    requires i < n && j < n
    ensures |r| == 4
    ensures forall k :: 0 <= k < |r| ==> r[k].0 < n && r[k].1 < n
    ensures r[0] == (Prev(i, n), j) && r[1] == (Next(i, n), j) && r[2] == (i, Prev(j, n)) && r[3] == (i, Next(j, n))
    ensures n >= 2 ==> forall k :: 0 <= k < |r| ==> r[k] != (i, j)
    ensures n == 1 ==> forall k :: 0 <= k < |r| ==> r[k] == (i, j)
  {
    [(Prev(i, n), j), (Next(i, n), j), (i, Prev(j, n)), (i, Next(j, n))]
  }

  predicate InRange(n: nat, cells: seq<(nat, nat)>) {
    forall k :: 0 <= k < |cells| ==> cells[k].0 < n && cells[k].1 < n
  }

  /** The sum of the four neighbour spins of `(i, j)`. */
  function NeighbourSum(g: Grid, n: nat, i: nat, j: nat): int
    requires IsSquare(g, n) && i < n && j < n
  {
    g[Prev(i, n)][j] + g[Next(i, n)][j] + g[i][Prev(j, n)] + g[i][Next(j, n)]
  }

  // ---------------------------------------------------------------------
  // Energy

  /** The local energy of `(i, j)`: minus the coupling times the spin times
      the sum of its four neighbour spins. */
  function SiteEnergy(g: Grid, n: nat, coupling: real, i: nat, j: nat): real
    requires IsSquare(g, n) && i < n && j < n
  {
    -coupling * (g[i][j] as real) * (NeighbourSum(g, n, i, j) as real)
  }

  /** The energy a spin `s` accumulates over the listed cells, one
      `- coupling * s * spin` term per cell, in list order. */
  function Interaction(g: Grid, n: nat, coupling: real, s: int, cells: seq<(nat, nat)>): real
    requires IsSquare(g, n) && InRange(n, cells)
    decreases |cells|
  {
    if cells == [] then 0.0
    else
      var last := cells[|cells| - 1];
      Interaction(g, n, coupling, s, cells[..|cells| - 1]) - coupling * (s as real) * (g[last.0][last.1] as real)
  }

  /** The site energies of row `i`, columns `0 .. c-1`, added left to right. */
  function RowEnergy(g: Grid, n: nat, coupling: real, i: nat, c: nat): real
    requires IsSquare(g, n) && i < n && c <= n
  {
    if c == 0 then 0.0 else RowEnergy(g, n, coupling, i, c - 1) + SiteEnergy(g, n, coupling, i, c - 1)
  }

  /** The site energies of rows `0 .. r-1`, in row-major order. */
  function SitesEnergy(g: Grid, n: nat, coupling: real, r: nat): real
    requires IsSquare(g, n) && r <= n
  {
    if r == 0 then 0.0 else SitesEnergy(g, n, coupling, r - 1) + RowEnergy(g, n, coupling, r - 1, n)
  }

  /** The total energy: the sum of all site energies, halved because every
      bond is seen from both of its ends. */
  function TotalEnergy(g: Grid, n: nat, coupling: real): real
    requires IsSquare(g, n)
  {
    SitesEnergy(g, n, coupling, n) / 2.0
  }

  // ---------------------------------------------------------------------
  // Magnetization

  /** The spins of row `i`, columns `0 .. c-1`. */
  function RowSpin(g: Grid, n: nat, i: nat, c: nat): int
    requires IsSquare(g, n) && i < n && c <= n
  {
    if c == 0 then 0 else RowSpin(g, n, i, c - 1) + g[i][c - 1]
  }

  /** The spins of rows `0 .. r-1`. */
  function SpinTotal(g: Grid, n: nat, r: nat): int
    requires IsSquare(g, n) && r <= n
  {
    if r == 0 then 0 else SpinTotal(g, n, r - 1) + RowSpin(g, n, r - 1, n)
  }

  /** The mean spin. */
  function Magnetization(g: Grid, n: nat): real
    requires IsSquare(g, n) && n > 0
  {
    (SpinTotal(g, n, n) as real) / ((n * n) as real)
  }

  // ---------------------------------------------------------------------
  // The Metropolis trial

  /** The grid with the spin at `(i, j)` negated and every other cell kept. */
  function FlipAt(g: Grid, n: nat, i: nat, j: nat): (r: Grid)
    requires IsSquare(g, n) && i < n && j < n
    ensures IsSquare(r, n)
    ensures r[i][j] == -g[i][j]
    ensures forall k, l :: 0 <= k < n && 0 <= l < n && (k != i || l != j) ==> r[k][l] == g[k][l]
  {
    g[i := g[i][j := -g[i][j]]]
  }

  /** One trial at `(i, j)`: flip, compare the site energy after the flip
      with the one before, and undo the flip when the energy rises and the
      acceptance draw `acceptUphill` fails. */
  function StepGrid(g: Grid, n: nat, coupling: real, i: nat, j: nat, acceptUphill: bool): (r: Grid)
    requires IsSquare(g, n) && i < n && j < n
    ensures IsSquare(r, n)
    ensures r == g || r == FlipAt(g, n, i, j)
    ensures acceptUphill ==> r == FlipAt(g, n, i, j)
  {
    var flipped := FlipAt(g, n, i, j);
    var delta := SiteEnergy(flipped, n, coupling, i, j) - SiteEnergy(g, n, coupling, i, j);
    if delta > 0.0 && !acceptUphill then g else flipped
  }
}

/** The simulation engine: a periodic `size x size` lattice of spin agents
    updated in place by single-spin-flip Metropolis trials, with the total
    energy and the magnetization recorded after every trial. */
module Env {
  import opened Agent
  import opened Lattice
  import opened LatticeFacts

  class IsingEnvironment {
    const lattice: array2<SpinAgent>
    const size: nat
    var temperature: real
    var jCoupling: real
    var energyHistory: seq<real>
    var magnetizationHistory: seq<real>

    /** The spins of the lattice, row by row, as values. */
    ghost var Spins: Lattice.Grid

    /** The cell each agent of the lattice sits in. */
    ghost var Position: map<SpinAgent, (nat, nat)>

    /** The lattice is `size x size`, every spin is +1 or -1 and equals the
        matching cell of `Spins`, and no agent sits in two cells. */
    ghost predicate ValidLattice()
      reads this`Spins, this`Position, lattice, Position.Keys
    {
      lattice.Length0 == size && lattice.Length1 == size &&
      (forall r, c {:trigger lattice[r, c]} :: 0 <= r < size && 0 <= c < size ==> lattice[r, c] in Position && Position[lattice[r, c]] == (r, c)) &&
      IsSpinGrid(Spins, size) &&
      (forall r, c {:trigger lattice[r, c]} :: 0 <= r < size && 0 <= c < size ==> lattice[r, c].spin as int == Spins[r][c])
    }

    /** The lattice invariant, and the two histories have the same length. */
    ghost predicate Valid()
      reads this, lattice, Position.Keys
    {
      ValidLattice() && |energyHistory| == |magnetizationHistory|
    }

    /** `draw(i, j)` is the outcome of the fair coin that sets the initial
        spin of cell `(i, j)`. */
    constructor (size: nat, temperature: real, jCoupling: real, draw: (nat, nat) -> bool)
      ensures Valid()
      ensures this.size == size && this.temperature == temperature && this.jCoupling == jCoupling
      ensures energyHistory == [] && magnetizationHistory == []
      ensures Spins == InitialGrid(size, draw)
      ensures fresh(lattice) && fresh(Position.Keys)
    {
      var placeholder := new SpinAgent(true);
      var cells := new SpinAgent[size, size]((r, c) => placeholder);
      ghost var position: map<SpinAgent, (nat, nat)> := map[];
      for r := 0 to size
        invariant fresh(position.Keys)
        invariant forall p, q :: 0 <= p < r && 0 <= q < size ==>
                    cells[p, q] in position && position[cells[p, q]] == (p, q) &&
                    cells[p, q].spin as int == CoinSpin(draw(p, q))
      {
        for c := 0 to size
          invariant fresh(position.Keys)
          invariant forall p, q :: (0 <= p < r && 0 <= q < size) || (p == r && 0 <= q < c) ==>
                      cells[p, q] in position && position[cells[p, q]] == (p, q) &&
                      cells[p, q].spin as int == CoinSpin(draw(p, q))
        {
          var agent := new SpinAgent(draw(r, c));
          cells[r, c] := agent;
          position := position[agent := (r, c)];
        }
      }
      this.lattice := cells;
      this.size := size;
      this.temperature := temperature;
      this.jCoupling := jCoupling;
      energyHistory := [];
      magnetizationHistory := [];
      Spins := InitialGrid(size, draw);
      Position := position;
    }

    /** The local energy of `(i, j)`, accumulated over the four periodic
        neighbours in the order up, down, left, right. */
    method CalculateSiteEnergy(i: nat, j: nat) returns (energy: real)
      requires ValidLattice() && i < size && j < size
      ensures energy == SiteEnergy(Spins, size, jCoupling, i, j)
    {
      var currentSpin := lattice[i, j].spin as int;
      energy := 0.0;
      var neighbors: seq<(nat, nat)> :=
        [((i + size - 1) % size, j), ((i + 1) % size, j), (i, (j + size - 1) % size), (i, (j + 1) % size)];
      PrevIsWrapped(i, size);
      NextIsWrapped(i, size);
      PrevIsWrapped(j, size);
      NextIsWrapped(j, size);
      assert neighbors == Neighbours(size, i, j);
      for k := 0 to |neighbors|
        invariant energy == Interaction(Spins, size, jCoupling, currentSpin, neighbors[..k])
      {
        var (ni, nj) := neighbors[k];
        assert neighbors[..k + 1][..k] == neighbors[..k];
        energy := energy - jCoupling * (currentSpin as real) * (lattice[ni, nj].spin as real);
      }
      assert neighbors[..|neighbors|] == neighbors;
      InteractionOverNeighbours(Spins, size, jCoupling, i, j);
    }

    /** The sum of all site energies, visited row by row, halved. */
    method CalculateTotalEnergy() returns (total: real)
      requires ValidLattice()
      ensures total == TotalEnergy(Spins, size, jCoupling)
    {
      var totalEnergy := 0.0;
      for i := 0 to size
        invariant totalEnergy == SitesEnergy(Spins, size, jCoupling, i)
      {
        for j := 0 to size
          invariant totalEnergy == SitesEnergy(Spins, size, jCoupling, i) + RowEnergy(Spins, size, jCoupling, i, j)
        {
          var e := CalculateSiteEnergy(i, j);
          totalEnergy := totalEnergy + e;
        }
      }
      total := totalEnergy / 2.0;
    }

    /** The spins of row `i`, columns `0 .. c-1`, read from the agents. */
    function RowSpinOf(i: nat, c: nat): (t: int)
      reads this, lattice, Position.Keys
      requires ValidLattice() && i < size && c <= size
      ensures t == RowSpin(Spins, size, i, c)
    {
      if c == 0 then 0 else RowSpinOf(i, c - 1) + lattice[i, c - 1].spin as int
    }

    /** The spins of rows `0 .. r-1`, read from the agents. */
    function SpinTotalOf(r: nat): (t: int)
      reads this, lattice, Position.Keys
      requires ValidLattice() && r <= size
      ensures t == SpinTotal(Spins, size, r)
    {
      if r == 0 then 0 else SpinTotalOf(r - 1) + RowSpinOf(r - 1, size)
    }

    /** The mean spin over the whole lattice. */
    function CalculateMagnetization(): (m: real)
      reads this, lattice, Position.Keys
      requires ValidLattice() && size > 0
      ensures m == Magnetization(Spins, size)
      ensures -1.0 <= m <= 1.0
    {
      MagnetizationBounds(Spins, size);
      (SpinTotalOf(size) as real) / ((size * size) as real)
    }

    /** After the agent in `cell` has been flipped and `Spins` updated to
        match, the lattice invariant holds again: no other agent changed. */
    twostate lemma FlippedLatticeValid(cell: (nat, nat))
      requires old(ValidLattice()) && cell.0 < size && cell.1 < size
      requires Position == old(Position) && unchanged(lattice)
      requires forall a: SpinAgent :: a in Position && a != lattice[cell.0, cell.1] ==> unchanged(a)
      requires lattice[cell.0, cell.1].spin as int == -old(lattice[cell.0, cell.1].spin as int)
      requires Spins == FlipAt(old(Spins), size, cell.0, cell.1)
      ensures ValidLattice()
    {
      var (i, j) := cell;
      forall r, c | 0 <= r < size && 0 <= c < size
        ensures lattice[r, c].spin as int == Spins[r][c]
      {
        if r != i || c != j {
          assert Position[lattice[r, c]] != Position[lattice[i, j]];
        }
      }
      StepGridLocal(old(Spins), size, jCoupling, i, j, true);
    }

    /** Flips the agent at `(i, j)` and flips it back when the site energy
        rose and `acceptUphill` is false; `Spins` follows the agent. */
    method Trial(i: nat, j: nat, acceptUphill: bool)
      requires ValidLattice() && i < size && j < size
      modifies this`Spins, lattice[i, j]
      ensures ValidLattice()
      ensures Spins == StepGrid(old(Spins), size, jCoupling, i, j, acceptUphill)
    {
      ghost var before := Spins;
      StepGridLocal(before, size, jCoupling, i, j, true);
      var energyBefore := CalculateSiteEnergy(i, j);

      label beforeFlip:
      lattice[i, j].Flip();
      Spins := FlipAt(Spins, size, i, j);
      FlippedLatticeValid@beforeFlip((i, j));

      var energyAfter := CalculateSiteEnergy(i, j);
      var deltaE := energyAfter - energyBefore;

      if deltaE > 0.0 && !acceptUphill {
        label beforeFlipBack:
        lattice[i, j].Flip();
        Spins := before;
        FlipAtTwice(before, size, i, j);
        FlippedLatticeValid@beforeFlipBack((i, j));
      }
    }

    /** Appends the current total energy and magnetization to the histories. */
    method Record()
      requires ValidLattice() && size > 0
      modifies this`energyHistory, this`magnetizationHistory
      ensures energyHistory == old(energyHistory) + [TotalEnergy(Spins, size, jCoupling)]
      ensures magnetizationHistory == old(magnetizationHistory) + [Magnetization(Spins, size)]
    {
      var e := CalculateTotalEnergy();
      energyHistory := energyHistory + [e];
      var m := CalculateMagnetization();
      magnetizationHistory := magnetizationHistory + [m];
    }

    /** One Metropolis trial at the site `(i, j)`, then one sample of each
        observable. `acceptUphill` is the outcome of comparing a uniform draw
        with exp(-delta / temperature); it is consulted only when the flip
        raises the energy. */
    method Step(i: nat, j: nat, acceptUphill: bool)
      requires Valid() && i < size && j < size
      modifies this, lattice[i, j]
      ensures Valid()
      ensures temperature == old(temperature) && jCoupling == old(jCoupling)
      ensures Spins == StepGrid(old(Spins), size, jCoupling, i, j, acceptUphill)
      ensures var rejected := size >= 2 && SiteEnergy(old(Spins), size, jCoupling, i, j) < 0.0 && !acceptUphill;
              Spins == if rejected then old(Spins) else FlipAt(old(Spins), size, i, j)
      ensures energyHistory == old(energyHistory) + [TotalEnergy(Spins, size, jCoupling)]
      ensures magnetizationHistory == old(magnetizationHistory) + [Magnetization(Spins, size)]
    {
      StepGridRule(Spins, size, jCoupling, i, j, acceptUphill);
      Trial(i, j, acceptUphill);
      Record();
    }
  }
}

# Ising model engine

This is a Dafny model of the engine behind a two-dimensional Ising-model simulation. The engine holds a periodic (toroidal) `size x size` lattice of spin agents. Each agent holds a spin of +1 or -1 in a signed 8-bit field.

The engine can:
- compute the local energy of a site from its four nearest neighbours;
- compute the total energy of the lattice, which is half the sum of the site energies;
- compute the magnetization, which is the mean spin;
- run single-spin-flip Metropolis trials. A trial flips a randomly chosen spin in place, computes the change of that site's energy, flips the spin back when the energy rose and the acceptance draw failed, and then appends the total energy and the magnetization to two history vectors.

The model is split into five modules:
- `Agent` (`agent.dfy`): the spin agent as a class with a mutable `spin: i8` field.
- `Env` (`env.dfy`): the engine as a class.
  - The lattice is an `array2` of agent objects.
  - The parameters and the two histories are fields.
  - The energy computations are methods whose loops are proved against functions.
  - `Step` is split into the trial proper (`Trial`) and the recording of the observables (`Record`).
  - A ghost `Spins` mirrors the spins as values.
  - A ghost `Position` map records where each agent sits, so that flipping one agent provably leaves every other cell alone.
- `Lattice` (`lattice.dfy`): the value-level definitions the methods are proved against. These are the neighbour lookup, the site energy, the row-major sums, the total energy, the magnetization, the flip of one cell and the closed form of one trial.
- `LatticeFacts` (`lattice_facts.dfy`): properties of those definitions:
  - the flip negates the site energy;
  - flipping twice restores the lattice;
  - a trial touches one cell;
  - the exact energy and magnetization of the aligned lattices;
  - magnetization bounds.
- `Bonds` (`bonds.dfy`) and `Metropolis` (`metropolis.dfy`): two global facts about the energy that the source relies on without checking them:
  - Halving the sum of the site energies gives exactly the energy with every bond counted once. Because of this, for `J >= 0` no lattice has energy below `-2 J size^2`, the energy of the aligned lattices.
  - The change in total energy caused by one flip is exactly the change in that site's energy. So the local `delta_e` the trial decides on is the true energy change, and a trial whose draw rejects uphill moves never raises the total energy.

On a `1 x 1` lattice all four neighbours of the only cell are the cell itself. Flipping it leaves its energy unchanged, so the change is 0 and not `-2 * energy_before`. The model states both cases.

## Model

| member | source | states |
|---|---|---|
| Agent.Flipped | src/agent.rs:15-17 | the flipped value is the arithmetic negation of the old spin; for a spin of +1 or -1 it is again +1 or -1 and differs from the old value |
| Agent.FlippedTwice | src/agent.rs:15-17 | negating twice gives the original spin back, and the first negation never produces -128, the only `i8` whose negation overflows |
| Agent.SpinAgent.constructor | src/agent.rs:8-13 | a new agent holds 1 when the coin comes up and -1 otherwise, so its spin is valid |
| Agent.SpinAgent.Flip | src/agent.rs:4-17 | the field becomes the negation of its old value; a valid spin stays valid and always changes; -128, whose negation overflows `i8`, is excluded |
| Lattice.CoinSpin | src/agent.rs:11 | the coin outcome maps to +1 exactly when it comes up, otherwise to -1 |
| Lattice.InitialGrid | src/env.rs:15-17 | the initial lattice has `size` rows of `size` cells, each the spin of that cell's coin |
| Lattice.Prev | src/env.rs:35 | the index above/left stays in `[0, size)` and wraps from 0 to `size - 1` |
| Lattice.Next | src/env.rs:36 | the index below/right stays in `[0, size)` and wraps from `size - 1` to 0 |
| Lattice.PrevIsWrapped | src/env.rs:35 | `Prev` equals the source's `(k + size - 1) % size` for every in-range `k` |
| Lattice.NextIsWrapped | src/env.rs:36 | `Next` equals the source's `(k + 1) % size` for every in-range `k` |
| Lattice.Neighbours | src/env.rs:34-39 | the four neighbours are, in this order, `(Prev(i), j)` (up), `(Next(i), j)` (down), `(i, Prev(j))` (left) and `(i, Next(j))` (right), and all lie on the lattice; on a lattice of side 2 or more none is the site itself, and on side 1 all are |
| Lattice.NeighbourSum | src/env.rs:34-43 | definition: the sum of the spins at the four periodic neighbours of `(i, j)` |
| LatticeFacts.NeighbourSumBounds | src/env.rs:34-43 | on a +1/-1 lattice the neighbour sum lies in `[-4, 4]` |
| Lattice.SiteEnergy | src/env.rs:29-46 | definition: the closed form of the site energy, `-J * s(i,j) * (neighbour sum)` |
| Lattice.Interaction | src/env.rs:41-43 | definition: the loop's accumulator after a prefix of the neighbour list, one `- J * s * spin` term per visited neighbour, in list order |
| Lattice.RowEnergy | src/env.rs:51-53 | definition: the inner loop's sum, the site energies of row `i` for columns `0 .. c-1` added left to right |
| Lattice.SitesEnergy | src/env.rs:50-54 | definition: the outer loop's sum, the row energies of rows `0 .. r-1` in row-major order |
| Lattice.TotalEnergy | src/env.rs:48-56 | definition: the sum of all site energies divided by 2 |
| Lattice.RowSpin | src/env.rs:59-63 | definition: the spins of row `i`, columns `0 .. c-1`, added |
| Lattice.SpinTotal | src/env.rs:59-63 | definition: the spins of rows `0 .. r-1`, added row by row |
| Lattice.Magnetization | src/env.rs:58-65 | definition: the spin total divided by `size * size` |
| Lattice.StepGrid | src/env.rs:75-90 | the closed-form trial: flip `(i, j)`, take the difference of the site energies after and before, and undo the flip when that difference is positive and `acceptUphill` is false; its contract says the result is the old lattice or the flipped one, and always the flipped one when the draw accepts |
| LatticeFacts.FourInteractions | src/env.rs:41-43 | the four subtractions of `J * s * spin` equal one subtraction of `J * s` times the sum of the four spins |
| Lattice.FlipAt | src/env.rs:78 | the flipped lattice keeps its shape, negates cell `(i, j)` and keeps every other cell |
| LatticeFacts.InteractionStep | src/env.rs:41-43 | one more loop iteration subtracts `J * s * spin` of the next neighbour |
| LatticeFacts.InteractionOverNeighbours | src/env.rs:29-46 | accumulating over the four neighbours gives the closed form `-J * s(i,j) * (sum of the neighbour spins)` |
| LatticeFacts.FlipSiteEnergy | src/env.rs:75-84 | flipping `(i, j)` negates its site energy, so `delta_e = -2 * energy_before`, when the side is 2 or more; on side 1 the energy is unchanged |
| LatticeFacts.FlipAtTwice | src/env.rs:87-90 | the second flip restores the lattice exactly |
| LatticeFacts.StepGridRule | src/env.rs:84-90 | the trial keeps the flip unless the side is at least 2, the site energy before is negative and the draw rejects; the lattice is unchanged exactly in that case, and a flip always changes the lattice |
| LatticeFacts.StepGridLocal | src/env.rs:67-90 | a trial leaves a lattice of +1/-1 spins, changes no cell other than `(i, j)`, and leaves `(i, j)` either as it was or negated |
| LatticeFacts.AlignedSiteEnergy | src/env.rs:29-46 | on an all +1 or all -1 lattice every site has energy `-4 J` |
| LatticeFacts.RepeatIsProduct | src/env.rs:50-54 | adding `k` equal terms gives `k` times the term |
| LatticeFacts.AlignedRowEnergy | src/env.rs:51-53 | on an aligned lattice the inner loop's row sum after `c` columns is `c` copies of `-4 J` |
| LatticeFacts.AlignedSitesEnergy | src/env.rs:50-54 | on an aligned lattice the outer loop's sum after `r` rows is `r` rows of `-4 J` per site |
| LatticeFacts.AlignedTotalEnergy | src/env.rs:48-56 | an aligned lattice has total energy `-2 J size^2` |
| LatticeFacts.TwoByTwoAlignedEnergy | src/env.rs:48-56 | the 2 x 2 all +1 lattice with `J = 1` has total energy -8 |
| LatticeFacts.RowSpinBounds | src/env.rs:59-63 | the spin sum of a row prefix of length `c` lies in `[-c, c]` |
| LatticeFacts.SpinTotalBounds | src/env.rs:59-63 | the spin sum of the first `r` rows lies in `[-size*r, size*r]` |
| LatticeFacts.MagnetizationBounds | src/env.rs:58-65 | the magnetization lies in `[-1, 1]` |
| LatticeFacts.AlignedRowSpin | src/env.rs:59-63 | on a lattice with every spin `s`, a row prefix of length `c` sums to `s * c` |
| LatticeFacts.AlignedSpinTotal | src/env.rs:59-63 | on a lattice with every spin `s`, the first `r` rows sum to `s * size * r` |
| LatticeFacts.AlignedMagnetization | src/env.rs:58-65 | the all +1 lattice has magnetization 1 and the all -1 lattice has magnetization -1 |
| Bonds.RowSumAgree | src/env.rs:50-54 | two cell quantities that agree on a row prefix have the same row sum there |
| Bonds.RowSumOfFour | src/env.rs:50-54 | a row sum of a cell-wise sum of four quantities is the sum of the four row sums |
| Bonds.GridSumOfFour | src/env.rs:50-54 | the same for the sum over the whole lattice |
| Bonds.RowShiftPrefix | src/env.rs:37 | a column-shifted quantity's row prefix sums to the unshifted one with the wrapped-around term moved |
| Bonds.ColumnShift | src/env.rs:37 | summing a quantity shifted one column to the left around the torus gives the same lattice sum |
| Bonds.RowsShiftPrefix | src/env.rs:35 | a row-shifted quantity's prefix of rows sums to the unshifted one with the wrapped-around row moved |
| Bonds.RowShift | src/env.rs:35 | summing a quantity shifted one row up around the torus gives the same lattice sum |
| Bonds.GridSumAtMost | src/env.rs:50-54 | a lattice sum of terms each at most 1 is at most the number of cells summed |
| Bonds.RowSumAtMost | src/env.rs:51-53 | a row sum of terms each at most 1 is at most the number of columns summed |
| Bonds.RealRowSumScaled | src/env.rs:51-53 | a row sum of the terms `-k * f` is `-k` times the row sum of `f` |
| Bonds.RealGridSumScaled | src/env.rs:50-54 | a lattice sum of the terms `-k * f` is `-k` times the lattice sum of `f` |
| Bonds.RowEnergyIsRowSum | src/env.rs:51-53 | the inner loop's row energy is the generic row sum of the site energies |
| Bonds.SitesEnergyIsGridSum | src/env.rs:50-54 | the nested loops' sum is the generic lattice sum of the site energies |
| Bonds.ScaledProduct | src/env.rs:42 | `-J * s * t` computed factor by factor equals `-J` times the integer product `s * t` |
| Bonds.SiteEnergiesAreScaledProducts | src/env.rs:49-54 | the sum of all site energies is `-J` times the sum of the integer products spin times neighbour sum |
| Bonds.SitesEnergyIsProductSum | src/env.rs:49-54 | the same, for the row-major sum the nested loops compute |
| Bonds.SiteProductsSplit | src/env.rs:34-43 | every site's product splits into its up, down, left and right bonds |
| Bonds.UpBondsAreDownBonds | src/env.rs:35-36 | the bond from a cell upward is the downward bond of the cell above it |
| Bonds.LeftBondsAreRightBonds | src/env.rs:37-38 | the bond from a cell leftward is the rightward bond of the cell to its left |
| Bonds.SiteProductsAreBonds | src/env.rs:55 | the site products add up to twice the bond sum: each bond is seen from both ends |
| Bonds.HalvedDouble | src/env.rs:55 | halving `-J` times twice a sum gives `-J` times the sum |
| Bonds.TotalEnergyCountsEachBondOnce | src/env.rs:48-56 | for every lattice size the halved total equals the energy with every bond counted once, which is what the halving is for |
| Bonds.BondsAtMostOne | src/agent.rs:4 | every bond of a +1/-1 lattice is at most 1 |
| Bonds.BondSumAtMost | src/env.rs:48-56 | the bond sum of a +1/-1 lattice is at most `2 * size^2` |
| Bonds.ScaledBound | src/env.rs:55 | for `J >= 0`, `-J` times a bond sum at most `2 size^2` is at least `-2 J size^2` |
| Bonds.GroundStateEnergy | src/env.rs:48-56 | for `J >= 0` no lattice has total energy below `-2 J size^2`, the energy of the aligned lattices |
| Metropolis.RowSumPoint | src/env.rs:51-53 | a row sum whose terms vanish outside one column is that column's term |
| Metropolis.GridSumPoint | src/env.rs:50-54 | a lattice sum whose terms vanish outside one cell is that cell's term |
| Metropolis.RowSumOfThree | src/env.rs:51-53 | a row sum of a cell-wise sum of three quantities is the sum of the three row sums |
| Metropolis.GridSumOfThree | src/env.rs:50-54 | the same for the lattice sum |
| Metropolis.TwoCellChange | src/env.rs:50-54 | a quantity that differs from another in at most two cells has a lattice sum that differs by those two differences |
| Metropolis.GridSumAgree | src/env.rs:50-54 | quantities that agree on the lattice have the same lattice sum |
| Metropolis.DownBondsOutsideFlip | src/env.rs:78 | flipping `(i, j)` changes the downward bond sum only by the changes of the bonds from `(i, j)` and from the cell above it |
| Metropolis.DownBondsAtFlip | src/env.rs:78 | those two downward bonds change sign |
| Metropolis.DownBondsAfterFlip | src/env.rs:78 | the downward bond sum drops by twice the spin times its up and down neighbours |
| Metropolis.RightBondsOutsideFlip | src/env.rs:78 | flipping `(i, j)` changes the rightward bond sum only by the changes of the bonds from `(i, j)` and from the cell to its left |
| Metropolis.RightBondsAtFlip | src/env.rs:78 | those two rightward bonds change sign |
| Metropolis.RightBondsAfterFlip | src/env.rs:78 | the rightward bond sum drops by twice the spin times its left and right neighbours |
| Metropolis.BondSumAfterFlipOnOneCell | src/env.rs:78 | on the 1 x 1 lattice a flip leaves the bond sum unchanged |
| Metropolis.BondSumAfterFlip | src/env.rs:78 | a flip lowers the bond sum by twice the spin times its neighbour sum (side 2 or more) and leaves it unchanged on side 1 |
| Metropolis.ScaledChange | src/env.rs:84 | when an integer sum drops by `2 d`, `-J` times it rises by `2 J d` |
| Metropolis.SiteEnergyChangeAsProduct | src/env.rs:75-84 | on side 2 or more `delta_e` is `2 J` times the spin times its neighbour sum |
| Metropolis.BondEnergyChangeWide | src/env.rs:78 | on side 2 or more a flip changes the bond energy by `2 J` times the spin times its neighbour sum |
| Metropolis.TotalEnergyChangeIsLocal | src/env.rs:75-84 | the change of the total energy caused by flipping `(i, j)` equals the change of that site's energy, the `delta_e` the trial decides on |
| Metropolis.TrialRaisesEnergyOnlyIfAccepted | src/env.rs:87-90 | a trial ends with a higher total energy only if the draw accepted an uphill move |
| Metropolis.TrialEnergyChange | src/env.rs:84-90 | the total energy changes by `delta_e` when the flip is kept and by 0 when it is undone |
| Env.IsingEnvironment.constructor | src/env.rs:14-27 | the new engine has a `size x size` lattice of distinct fresh agents, each with the spin of its coin; both histories are empty; `size`, `temperature` and `j_coupling` are the arguments |
| Env.IsingEnvironment.CalculateSiteEnergy | src/env.rs:29-46 | the loop over the four wrapped neighbours, in the source's index arithmetic, returns the site energy of the current lattice |
| Env.IsingEnvironment.CalculateTotalEnergy | src/env.rs:48-56 | the nested loops over all sites, followed by halving, return the total energy of the current lattice |
| Env.IsingEnvironment.RowSpinOf | src/env.rs:59-63 | the spins read from the agents of a row prefix add up to that prefix's spin sum |
| Env.IsingEnvironment.SpinTotalOf | src/env.rs:59-63 | the spins read from the agents of the first `r` rows add up to their spin sum |
| Env.IsingEnvironment.CalculateMagnetization | src/env.rs:58-65 | returns the magnetization of the current lattice, which lies in `[-1, 1]` |
| Env.IsingEnvironment.FlippedLatticeValid | src/env.rs:78 | after flipping one agent in place and nothing else, the agents still match the value lattice, now flipped at that cell |
| Env.IsingEnvironment.Trial | src/env.rs:71-90 | after flipping, measuring and possibly flipping back, the agents match the closed-form trial result and every spin is still +1 or -1 |
| Env.IsingEnvironment.Record | src/env.rs:93-94 | each history grows by exactly one entry, the total energy and magnetization of the lattice after the trial, and earlier entries are unchanged |
| Env.IsingEnvironment.Step | src/env.rs:67-95 | the whole step: the invariant is kept; `temperature` and `j_coupling` are unchanged; only the agent at `(i, j)` may change; the lattice is the closed-form trial result, which equals the old lattice exactly when the move is rejected; both histories grow in lockstep by the values after the trial |

## Left out

- The graphical front end (`src/main.rs`) is not part of this model: window, sliders, painting and plots. It only creates the engine, sets its public fields and calls `step` in a loop.
- Randomness. The thread-local generator is replaced by parameters:
  - the site `(i, j)` drawn in `step` becomes arguments of `Step`;
  - the fair coin of each new agent becomes `up` for the agent constructor and the function `draw` for the engine constructor;
  - the uniform draw compared with `exp(-delta_e / temperature)` becomes `acceptUphill`. This is true exactly when the draw does not exceed the Boltzmann factor.
- Step: the model does not compute `exp` or compare floating-point numbers, so `temperature` is only carried, never used. `acceptUphill` is consulted only when `delta_e > 0`, as in the source. Every temperature still maps onto a value of `acceptUphill`. At temperature 0 the factor is `exp(-inf) = 0`, so an uphill move is rejected and `acceptUphill` is false, unless the draw is exactly 0. Below 0 the factor is above 1 or infinite, so every uphill move is accepted: `acceptUphill` is true. The front end's slider keeps the temperature in `0.1 ..= 10.0` (`src/main.rs:45`).
- Floating point. Energies and the magnetization are exact reals. The `f64` rounding of the sums and of the divisions by 2 and by `size * size` is not modelled.
- Machine integers. The `i32` spin sum of the magnetization and the `usize` index arithmetic `i + size - 1` and `size * size` are unbounded integers here. They would overflow only for lattices of more than about 46 000 cells per side.
- Agent.SpinAgent.Flip requires the spin not to be -128. The source never stores that value, and negating it would overflow `i8`.
- CalculateSiteEnergy requires `i < size && j < size`. The source's public `calculate_site_energy` panics with an out-of-bounds index for other arguments; that panic is not modelled. Every call in the source passes in-range indices.
- A lattice of side 0. The source would give NaN in `calculate_magnetization` and panic in `gen_range`. `CalculateMagnetization` and `Record` require `size > 0`. `Step` gets it from `i < size`.
- The lattice is an `array2` of agent objects, created with two loops. The source builds a vector of vectors with iterator chains. The values are the same, but the iteration order of the coin draws is a property of the `draw` parameter.
- Direct assignments to the public fields from the front end (temperature and coupling sliders) are not modelled as operations. They are plain field writes.

# Lattice model of the DDQMC system description

This project models the core of `System_Model`, the class that describes one spin
lattice in the DDQMC quantum Monte Carlo code:

- **The diagonal matrix element.** A configuration (a determinant) is a fixed-width
  bit vector of `Bl` bits. It holds two stacked halves of `xSite` bits each: the ket
  half in bits `[0, xSite)` and the bra half in bits `[xSite, 2 xSite)`.
  `DiagonalElement` selects one half and treats it as a periodic ring of `xSite`
  spins. Each site and its right neighbour form a bond. It counts the anti-aligned
  bonds (`counter`) and returns `(J_z / 4) (Nbonds - 2 counter)`. An aligned bond
  contributes `J_z / 4` and an anti-aligned bond `-J_z / 4`.
- **The configuration loader `Init`.** It reads a positional text file:
  - the model name on line 2, with its last character dropped;
  - `xSite`, `J_x`, `J_y`, `J_z`, `gamma`, `h` and `theta` on every fifth line after
    that (lines 7, 12, ..., 37);
  - the ket reference string on line 42 and the bra reference string on line 44
    (all line numbers 0-based).

  Each reference string is written into the reference configuration most significant
  bit first. Every bit from `2 xSite` up is cleared. The hopping amplitudes
  `hop = (J_x + J_y) / 4` and `double_hop = (J_x - J_y) / 4` are derived last.
- **The report's reference rows.** These are the two loops in `OutputGen` that print
  both halves of a configuration back, highest bit first.
- **`toInt`**, the binary-string-to-integer conversion.
- **The byte count `ceil(Bl / 8)`** of the configuration record that processes
  exchange.

Modules:

- `BinaryString`: the character/bit conversions and `toInt`, with the numeral round
  trips.
- `RingEnergy`: the specification of the diagonal element. `Bonds` gives one flag per
  site, set when the site differs from its right neighbour. `Counter` counts those
  flags and `DiagonalEnergy` applies the energy formula. The module also holds the
  properties of the element: bounds, the uniform and alternating extremes, the
  one-site ring, rotation invariance and locality.
- `ReferenceBits`: the bit layout that `Init` writes and `OutputGen` prints, with the
  load/render round trips.
- `RecordLayout`: the record byte count.
- `Lattice`: the class `SystemModel` with the imperative `Init` and `DiagonalElement`.
  `reference` is an array of `Bl` booleans that `Init` updates in place.

`Bl` is defined in a header that is not part of this model. Here it is the length of
the `reference` array, which the constructor allocates with a caller-given width.
Reading a line of the file is modelled over the file's lines as a `seq<string>`. A
read past the last line fails, as the stream does with its fail bit raising
exceptions (`src/Classes/System_Model.cpp:42`).

## Model

| member | source | states |
|---|---|---|
| Lattice.SystemModel.DiagonalElement | src/Classes/System_Model.cpp:219-254 | The element equals `DiagonalEnergy(J_z, half)`. The half is bits `[0, xSite)` of `det` when `j != 0`, or bits `[xSite, 2 xSite)` copied down when `j == 0`. The loop invariant ties the running `counter` to the count of anti-aligned bonds seen so far, and `Nbonds` ends at `xSite`. |
| Lattice.SystemModel.CopyHalf | src/Classes/System_Model.cpp:228-241 | The local configuration: `det` itself when `j != 0`. When `j == 0` it is all zero except the bra half of `det`, copied into bits `[0, xSite)`. Either way its first `xSite` bits are the selected half. |
| Lattice.SystemModel.Init | src/Classes/System_Model.cpp:35-95 | Succeeds exactly when the file has all 45 lines. Each field holds the value parsed from its own line, and a field whose line is missing keeps its old value. On success `reference` is exactly the loaded ket/bra layout with the high bits cleared, and `hop`/`double_hop` are `(J_x ± J_y)/4`. A file that ends between the ket and bra lines leaves only the ket bits written, for any `xSite` up to `Bl` (a negative one writes none). Any `xSite` read from a file that ends before line 42 is stored as it is. A complete file leaves the invariant `0 <= xSite`, `2 xSite <= Bl` established. |
| Lattice.SystemModel.ReadScalars | src/Classes/System_Model.cpp:47-71 | The scalar reads: the name and the seven numbers are each taken from their own line (2, 7, 12, ..., 37). Reading stops at the first missing line, and it succeeds exactly when line 37 exists. Any `xSite` value is accepted and stored. |
| Lattice.SystemModel.ReadHeader | src/Classes/System_Model.cpp:47-53 | The name is line 2 without its last character, and `xSite` is parsed from line 7, whatever value it has. A missing line stops the read and leaves the fields after it unchanged. |
| Lattice.SystemModel.ReadCouplings | src/Classes/System_Model.cpp:55-62 | `J_x`, `J_y` and `J_z` are parsed from lines 12, 17 and 22, each only if its line exists. It succeeds exactly when line 22 exists. |
| Lattice.SystemModel.ReadFields | src/Classes/System_Model.cpp:64-71 | `gamma`, `h` and `theta` are parsed from lines 27, 32 and 37, each only if its line exists. It succeeds exactly when line 37 exists. |
| Lattice.SystemModel.LoadKetLine | src/Classes/System_Model.cpp:75-76 | Character `k` of the ket line becomes bit `xSite-1-k` for `k < xSite`. Every other bit is unchanged. |
| Lattice.SystemModel.LoadBraLine | src/Classes/System_Model.cpp:80-81 | Character `k` of the bra line becomes bit `2 xSite-1-k` for `k < xSite`. Every other bit is unchanged. |
| Lattice.SystemModel.ClearAbove | src/Classes/System_Model.cpp:83-84 | Every bit from `2 xSite` up to `Bl` is 0 and the bits below are unchanged. |
| Lattice.GetLines | src/Classes/System_Model.cpp:47 | `count` consecutive line reads. They succeed exactly when that many lines remain. On success the last line read is returned and the cursor has advanced by `count`. |
| ReferenceBits.LoadStages | src/Classes/System_Model.cpp:75-84 | Loading the ket, then the bra, then clearing from `2 xSite` yields the reference layout, whatever the bits were before. |
| ReferenceBits.LoadPlacesCharacters | src/Classes/System_Model.cpp:75-84 | In the loaded reference, bit `xSite-1-k` is ket character `k` and bit `2 xSite-1-k` is bra character `k`. Every bit in `[2 xSite, Bl)` is 0. |
| ReferenceBits.RenderRow | src/Classes/System_Model.cpp:282-293 | One printed row: `xSite` binary digits, with digit `j` the bit `top-1-j` (top = `xSite` for the ket row, `2 xSite` for the bra row). |
| ReferenceBits.RenderAfterLoad | src/Classes/System_Model.cpp:282-293 | Printing the loaded reference as the report does reproduces the first `xSite` characters of the ket line and of the bra line. |
| ReferenceBits.LoadAfterRender | src/Classes/System_Model.cpp:282-293 | Take a configuration whose bits from `2 xSite` up are 0. Its two printed rows are binary strings, and loading them gives the configuration back. |
| RingEnergy.Neighbour | src/Classes/System_Model.cpp:247 | `(xSite + (pos+1) % xSite) % xSite` lies in `[0, xSite)`. It is `pos+1`, or `0` for the last site. |
| RingEnergy.CounterCountsAntiBonds | src/Classes/System_Model.cpp:243-251 | `counter` is the number of sites `p < xSite` whose bit differs from bit `(p+1) mod xSite`. |
| RingEnergy.EnergyBound | src/Classes/System_Model.cpp:243-251 | `0 <= counter <= xSite`, and the element's magnitude is at most `abs(J_z)/4 · xSite`. |
| RingEnergy.NoAntiBondIffUniform | src/Classes/System_Model.cpp:221-225 | There is no anti-aligned bond exactly when every spin of the half is equal. |
| RingEnergy.UniformHalfEnergy | src/Classes/System_Model.cpp:221-225 | A uniform half gives exactly `J_z/4 · xSite`. |
| RingEnergy.AllAntiBondsIffAlternatingEven | src/Classes/System_Model.cpp:221-225 | Every bond is anti-aligned exactly when the half alternates and `xSite` is even. |
| RingEnergy.AlternatingHalfEnergy | src/Classes/System_Model.cpp:221-225 | An alternating half of even length gives exactly `-J_z/4 · xSite`. |
| RingEnergy.SingleSiteEnergy | src/Classes/System_Model.cpp:247-251 | On a ring of one site the site is its own neighbour, `counter` is 0 and the element is `J_z/4`. |
| RingEnergy.RotationInvariance | src/Classes/System_Model.cpp:243-251 | Rotating the ring by one site changes neither `counter` nor the element. |
| RingEnergy.KetHalfOnly | src/Classes/System_Model.cpp:233-234 | With `j != 0` the element depends only on bits `[0, xSite)`. |
| RingEnergy.BraHalfOnly | src/Classes/System_Model.cpp:235-241 | With `j == 0` the element depends only on bits `[xSite, 2 xSite)`. |
| RingEnergy.HighBitsIrrelevant | src/Classes/System_Model.cpp:233-251 | Bits from `2 xSite` up never change the element. |
| RingEnergy.CountZero | src/Classes/System_Model.cpp:243-249 | The count of flags is 0 exactly when no flag is set. |
| RingEnergy.CountFull | src/Classes/System_Model.cpp:243-249 | The count of flags equals their number exactly when every flag is set. |
| RingEnergy.CountBondsStep | src/Classes/System_Model.cpp:243-249 | One loop step adds 1 to `counter` exactly when site `pos` differs from its right neighbour. |
| BinaryString.ToInt | src/Classes/System_Model.cpp:372-380 | A string longer than 64 characters gives 0. Otherwise the result is the string's MSB-first binary value, which is below `2^|s|` (so below `2^64`). |
| BinaryString.ToIntOfNumeral | src/Classes/System_Model.cpp:372-380 | `toInt` reads back every numeral of at most 64 digits. |
| BinaryString.NumeralOfToInt | src/Classes/System_Model.cpp:372-380 | Writing `toInt(s)` with `|s|` digits gives `s` back, for binary strings of at most 64 characters. |
| BinaryString.BinaryValue | src/Classes/System_Model.cpp:376-379 | The MSB-first value of an `n`-digit binary string is below `2^n`. |
| RecordLayout.ConfigRecordBytes | src/Classes/System_Model.cpp:106 | `ceil(Bl/8)`: the result times 8 covers `Bl` bits, and one byte fewer would not. |
| RecordLayout.ConfigRecordBytesUnique | src/Classes/System_Model.cpp:106 | That byte count is the only one with this property. |
| Lattice.TruncatedFileScenario | src/Classes/System_Model.cpp:52-56 | A ten-line file whose line 7 reads as -1 stores `xSite = -1`, fails at the read of line 12 and leaves the reference configuration unchanged. |
| Lattice.AlternatingKetScenario | src/Classes/System_Model.cpp:75-76 | Ket line `1010` with `J_z = 1` loads bits 0 to 3 as 0,1,0,1 and gives the element -1. |
| Lattice.UniformKetScenario | src/Classes/System_Model.cpp:75-76 | Ket line `111` with `J_z = 2` loads three 1 bits and gives the element 1.5. |

## Left out

- `MPI_Data` and `MPI_Free` (`src/Classes/System_Model.cpp:97-216`) register MPI datatypes. Their offsets come from run-time memory addresses, so only the `ceil(Bl/8)` byte count is modelled.
- `OutputGen`'s file handling, path building, clock reading and report text (`src/Classes/System_Model.cpp:257-370`) are I/O. Only the two reference rows it prints are modelled.
- Opening the file is not modelled. `Init` receives the file's lines, and a file that cannot be opened behaves like one with no lines: nothing is set.
- Lattice.SystemModel.Init: it returns an `ok` flag that the C++ function (which returns nothing) lacks. On failure the C++ code prints a message, which the model leaves out, and keeps the fields read before the missing line, as the model does.
- Lattice.SystemModel.Init: `atoi` and `atof` are parameters of type `string -> int` / `string -> real`. Their parsing is not modelled, and doubles are modelled as `real`, without rounding.
- Lattice.SystemModel.Init: each requirement applies only once the stage that needs it is reached:
  - a non-empty name line, which `erase(end() - 1)` needs;
  - from line 42 on, `xSite <= Bl` and at least `xSite` characters on the ket line, because the ket loop indexes both with `xSite`;
  - for a complete file, `0 <= xSite` and `2 xSite <= Bl` and at least `xSite` characters on the bra line, because the bra loop and the clearing loop index with `2 xSite`.

  A file that ends earlier is accepted whatever `xSite` it holds. The model goes further than the C++ in one respect: the characters it reads from the reference lines must be `0` or `1`. `boost::lexical_cast<int>` also accepts the digits `2` to `9`, which store a set bit, and throws on other characters, which the handler at :91-94 does not catch. Neither is modelled.
- Lattice.SystemModel.DiagonalElement: `det` is passed as a sequence of `Bl` bits rather than a reference to a bitset. The C++ code never writes through that reference. It requires `0 <= xSite` and `2 xSite <= Bl` (the class invariant).
- BinaryString.ToInt: for strings of at most 64 characters it requires every character to be `0` or `1`. The stream extraction's handling of other characters (stopping at the first non-binary one, leading whitespace) is not modelled.
- BinaryString.ULongBits: `unsigned long` is taken to be 64 bits wide (LP64).
- `Bl` is defined in a header that is not part of this model. It is the width of the `reference` array.

# LiteSpiCE DC engine, modelled in Dafny

LiteSpiCE is a small circuit simulator written as two C headers. It is meant for a graphing calculator with very little memory.

- `src/mem.h` holds two arena allocators over a caller's byte buffer:
  - the bump region `TIMemRegion`;
  - the double-ended stack `TIBiStack`. Its front cursor grows up from 0 and its back cursor grows down from the end.
- `src/node.h` holds the DC engine. It works in four stages:
  1. It reads a netlist line by line (`R 1 0 1k`, `I 1 0 1m`, …) into a graph. The graph has at most ten nodes; node 0 is ground.
  2. The component records come from the back of the arena. Each node owns a linked list of the components that start at it. A bitset records which nodes are touched.
  3. `circuit_build_dc` numbers the active non-ground nodes. It takes the conductance matrix G (n·n numbers) and the current vector I (n numbers) from the front of the arena, and stamps resistors and DC current sources into them.
  4. `circuit_solve_dc` reduces [G | I] with `gaussian_rref`, a Gauss–Jordan elimination with partial pivoting and a magnitude threshold eps. It reports a voltage per node unless some row reads 0 = non-zero. Then it releases the front of the arena.

The project has one module per concern:

| file | module | what it holds |
|---|---|---|
| `maybe.dfy` | `Maybe` | `Option` |
| `arith.dfy` | `Arith` | three facts about multiplication, division and remainder |
| `mem.dfy` | `Mem` | `_align_size`, the `Region` and `BiStack` classes, and a value model of the stack (`Cursors`, `Step`, `Run`) with its lemmas |
| `netlist.dfy` | `Netlist` | C-string access, `skip_ws`, `kind_from_letter`, `parse_si_scalar`, the `sscanf` field split, and the split of a text into lines |
| `linalg.dfy` | `Linalg` | the flat row-major layout (`idx_2_to_1`), systems as rows, and the three row operations with the proof that each keeps the solution set |
| `rref.dfy` | `Rref` | `gaussian_rref`, both as a row-level specification (`Reduce`) and as in-place array methods proved to compute exactly that |
| `graph.dfy` | `Graph` | the graph invariant, `circuit_add_component` on values, `setup_matrix_ids`, and the nodal stamps as functions (`BuildSystem`) |
| `circuit.dfy` | `Circuits` | `struct Circuit` as a class whose methods update the lists, the bitset and the arena; `circuit_build_dc` and `circuit_solve_dc` proved against `BuildSystem`, `Reduce` and `DcSolution` |
| `scenarios.dfy` | `Scenarios` | one worked netlist, a 1 kΩ resistor and a 1 mA source, carried from text to reported voltage |

How the C constructs are represented:

- `rat` is `real`.
- A Dafny `char` stands for one C `char`, that is one byte. So the 127-character line cut (`Netlist.Truncate`), the `%47s` bound (`Netlist.ScanWord`) and the 48-byte buffer test of `parse_si_scalar` (`Netlist.SiScalar`) count bytes, as the code does. Multi-byte text is outside the model.
- `rat_epsilon()` is the parameter `eps > 0`.
- The backend's `str_to_rat` is the parameter `toRat: string -> real`.
- `size_t` is an unbounded `nat` on a 64-bit host. `sizeof(size_t)` is 8, `sizeof(struct Comp)` is 64 and `sizeof(rat)` is 16 (a `long double`).
- The active-node bitset is the set of its bit positions.
- A node's component list is a sequence whose first element is the list head.
- G and I are `array<real>` values, read through `Held` as a system of rows.

An exact fit fails in both directions of `TIBiStack`. The front guard `front + bytes >= back` (src/mem.h:99) and the back guard `back - bytes <= front` (src/mem.h:118) both refuse a block that would fill the gap exactly. So the success lemmas (`StepSucceeds`, `RunPlaced`, `RunDisjoint`, `RunSucceeds`) require `front + total < back`, strictly. For example, from `Cursors(0, 16)` a request for one 16-byte number fails; `Circuits.AllocVecNullWrite` is that case.

## Model

| member | source | states |
|---|---|---|
| Mem.AndNotLowMask | src/mem.h:30 | `x & ~(a - 1)` with a power-of-two `a` clears the low bits: the result is `x - x % a` |
| Mem.AlignSize | src/mem.h:29-31 | `_align_size`: `(size + align - 1) & ~(align - 1)` over `nat`; `AlignSizeIsLeastMultiple` gives its meaning |
| Mem.AlignSizeIsLeastMultiple | src/mem.h:29-31 | for a power-of-two alignment, `_align_size` gives the least multiple of `align` that is at least `size`, and it is below `size + align` |
| Mem.WordAlign | src/mem.h:49 | rounding to the 8-byte word gives a multiple of 8 in `[size, size + 8)` |
| Mem.Memset | src/mem.h:55 | zero is written into exactly `[start, start + count)`; every other byte keeps its value |
| Mem.Region.constructor | src/mem.h:40-42 | the region spans the caller's buffer of `len` bytes, with its cursor at 0 |
| Mem.Region.Reset | src/mem.h:44-46 | the cursor is 0 again; the bytes are not touched |
| Mem.Region.Alloc | src/mem.h:48-56 | fails with no change when `offs + aligned >= len`; otherwise it returns the old cursor, advances the cursor by the aligned size and zeroes exactly that block |
| Mem.ResetWhenFullAsWritten | src/mem.h:58-67 | the cursor arithmetic of `region_alloc_reset_when_full` as written: rewind to 0 when `offs + bytes >= len`, then hand out the block and advance, with no second fit test; `ResetWhenFullOverruns` shows where that goes wrong |
| Mem.ResetWhenFullOverruns | src/mem.h:58-67 | as written, a 20-byte request on an empty 16-byte region is handed out from 0 and runs past the end (Findings) |
| Mem.Region.AllocResetWhenFull | src/mem.h:58-67 | corrected form: it returns the cursor, or 0 when the block does not fit behind it; the flag is set exactly on a rewind and otherwise kept; the block is zeroed and the cursor moves past it |
| Mem.Region.SizeRemaining | src/mem.h:69-71 | the result lies in `[0, len]` and adds up with the cursor to `len` |
| Mem.FrontFits | src/mem.h:98-99 | the front allocation succeeds exactly when `front + bytes < back`, the negation of the guard |
| Mem.BackFits | src/mem.h:118 | the back allocation succeeds exactly when `back - bytes > front` over the integers, the corrected guard |
| Mem.BackGuardAsWritten | src/mem.h:118 | the back guard as written, with the subtraction reduced modulo 2^64 as `size_t` does; `BackGuardWraps` and `BackGuardAgrees` relate it to `BackFits` |
| Mem.BackGuardWraps | src/mem.h:116-123 | as written, the size_t subtraction in the guard lets a 24-byte request through on an arena whose back cursor is 16 (Findings) |
| Mem.BackGuardAgrees | src/mem.h:118 | whenever `bytes <= back`, the guard as written and the corrected guard decide alike |
| Mem.Bytes | src/mem.h:97 | every request is rounded up to the 8-byte word before the guard is tested |
| Mem.Step | src/mem.h:96-132 | one front or back allocation on the cursors: on success the new cursors and the block start, otherwise the same cursors and no block; `StepFailureKeepsCursors` and `StepSucceeds` give its meaning |
| Mem.Run | src/mem.h:96-132 | a sequence of allocations applied in order, collecting every block start; `RunPlaced`, `RunDisjoint`, `RunSucceeds` and `ReplayFrom` give its meaning |
| Mem.StepFailureKeepsCursors | src/mem.h:96-132 | an allocation fails exactly when its guard fires, and then neither cursor moves |
| Mem.StepSucceeds | src/mem.h:96-132 | a request smaller than the gap succeeds, its block lies where the cursor moved, and the gap narrows by the aligned size |
| Mem.RunPlaced | src/mem.h:96-132 | under the same bound every block of the run lies in the space its cursor moved over, and the gap shrinks by the aligned total |
| Mem.RunDisjoint | src/mem.h:96-132 | under the same bound every request of the run succeeds and no two blocks overlap |
| Mem.RunSucceeds | src/mem.h:96-132 | a run of front and back allocations whose aligned total is strictly smaller than the gap succeeds throughout; each block lies on its own side of the gap, the blocks are pairwise disjoint, and the gap shrinks by the total |
| Mem.ReplayAfterResetFront | src/mem.h:89-114 | after `bistack_reset_front`, front allocations that once succeeded succeed again while the back cursor has not moved closer |
| Mem.ReplayFrom | src/mem.h:96-114 | front allocations that succeeded from some cursors succeed from any cursors with at least as much room |
| Mem.BiStack.constructor | src/mem.h:81-83 | the front cursor is 0 and the back cursor is `len`, over the caller's buffer |
| Mem.BiStack.Reset | src/mem.h:85-88 | both cursors are back at their ends |
| Mem.BiStack.ResetFront | src/mem.h:89-91 | the front cursor is 0 |
| Mem.BiStack.ResetBack | src/mem.h:92-94 | the back cursor is `len` |
| Mem.BiStack.TakeFront | src/mem.h:98-103 | the shared front block: it fails with no change when `front + bytes >= back`, otherwise it returns the old front, advances it and zeroes exactly the block |
| Mem.BiStack.AllocFront | src/mem.h:96-104 | the new cursors and the result are `Step` on `FrontReq(size)`; the back cursor is kept; a block is zeroed and a failure writes nothing |
| Mem.BiStack.AllocFrontVec | src/mem.h:106-114 | the same for `count * elemSize` bytes |
| Mem.BiStack.TakeBack | src/mem.h:118-122 | the shared back block: it fails with no change when `back - bytes <= front`, otherwise it moves back down by `bytes` and zeroes exactly the new block |
| Mem.BiStack.AllocBack | src/mem.h:116-123 | the new cursors and the result are `Step` on `BackReq(size)`, with the corrected guard; the front cursor is kept |
| Mem.BiStack.AllocBackVec | src/mem.h:125-132 | the same for `count * elemSize` bytes |
| Mem.BiStack.Margins | src/mem.h:134-136 | the result is the gap: non-negative, at most `len`, and `front + r == back` |
| Netlist.IsSpace | src/node.h:39 | the six characters `isspace` accepts in the C locale |
| Netlist.IsAlpha | src/node.h:352 | the 52 letters `isalpha` accepts in the C locale |
| Netlist.FirstNonSpace | src/node.h:38-42 | the first position at or after `i` that does not hold white space (a NUL stops it); everything before it is white space |
| Netlist.SkipWs | src/node.h:38-42 | the loop stops exactly at `FirstNonSpace` |
| Netlist.KindFromLetter | src/node.h:74-90 | it returns `Invalid` exactly for characters outside the twenty listed letters, and never the AC voltage source |
| Netlist.LetterOf | src/node.h:74-90 | every selectable kind has one of the listed letters |
| Netlist.KindLetterRoundTrip | src/node.h:74-90 | `kind_from_letter` maps the letter of each selectable kind back to that kind |
| Netlist.TokenLength | src/node.h:45-48 | the token length is the first NUL, `'\n'` or `'\r'`, and no terminator comes before it |
| Netlist.ParseSiScalar | src/node.h:44-72 | the measuring loop and the suffix switch compute `SiScalar` |
| Netlist.ScaleOf | src/node.h:56-64 | the scale of each SI suffix `k K M G m u n`, and none for any other last character |
| Netlist.SiScalar | src/node.h:44-72 | the value `parse_si_scalar` returns; `SiScalarEmpty`, `SiScalarSuffixed` and `SiScalarPlain` state it case by case, and `ParseSiScalar` is the loop |
| Netlist.SiScalarEmpty | src/node.h:49-51 | an empty token is 0 |
| Netlist.SiScalarSuffixed | src/node.h:53-70 | a token shorter than 48 characters that ends in `k K M G m u n` is the backend's value of the digits before the suffix, times that suffix's scale |
| Netlist.SiScalarPlain | src/node.h:62-71 | a token whose last character is no suffix goes to the backend whole |
| Netlist.DigitsEnd | src/node.h:378 | the end of the digit run that `%hhu` reads |
| Netlist.ToU8 | src/node.h:378 | the value `%hhu` stores is below 256 |
| Netlist.ScanU8 | src/node.h:378 | a converted number is below 256 and consumes at least one character |
| Netlist.ScanWord | src/node.h:378 | `%47s` stores at most 47 characters, none white space or NUL |
| Netlist.Scan | src/node.h:378 | the four `sscanf` conversions ` %c %hhu %hhu %47s`, or none when fewer than four succeed; `ScanFormatLine` is its round trip |
| Netlist.ScanFormatLine | src/node.h:378-380 | every line written as `"<letter> <n1> <n2> <tok>"` scans back to exactly those four fields |
| Netlist.CStr | src/node.h:71 | what a C function reading the string sees: the prefix before the first NUL |
| Netlist.LineEnd | src/node.h:396-398 | the first NUL or `'\n'` at or after `p`, with none before it |
| Netlist.Truncate | src/node.h:399-405 | a line copied into the 128-byte buffer keeps its first 127 characters at most, and a short line is kept whole |
| Netlist.LinesFrom | src/node.h:392-412 | the lines `circuit_add_from_string` hands on from position `p`, each cut to 127 characters; `LinesOfJoin` and `Circuits.LinesFromSplit` give its meaning |
| Netlist.LinesOfJoin | src/node.h:392-412 | splitting newline-terminated short lines gives back exactly those lines |
| Linalg.Abs | src/node.h:192-195 | the magnitude is non-negative and equals `x` or `-x` |
| Linalg.Idx | src/node.h:127-129 | `idx_2_to_1`: `i * n + j`, below `n * n`; `IdxInverse` and `IdxInjective` make it a bijection onto the buffer |
| Linalg.IdxInverse | src/node.h:127-129 | row and column can be read back from `idx_2_to_1` |
| Linalg.IdxInjective | src/node.h:127-129 | distinct entries have distinct flat positions |
| Linalg.RowsApart | src/node.h:209-211 | two distinct rows occupy disjoint stretches of the buffer |
| Linalg.SwapRows | src/node.h:205-216 | rows r and q of the system A x = v exchanged, every other row kept |
| Linalg.DivideRow | src/node.h:218-224 | row r of the system A x = v divided by the pivot, every other row kept |
| Linalg.SubtractRow | src/node.h:235-240 | f times row r subtracted from row i of the system A x = v, every other row kept |
| Linalg.SwapRowsPreserves | src/node.h:205-216 | exchanging two equations keeps the solution set |
| Linalg.DivideRowPreserves | src/node.h:218-224 | dividing an equation by a non-zero pivot keeps the solution set |
| Linalg.SubtractRowPreserves | src/node.h:226-241 | subtracting a multiple of another equation keeps the solution set |
| Rref.ArgMaxFrom | src/node.h:193-200 | the row the search settles on is the best so far, or one of the rows it scanned |
| Rref.PivotRow | src/node.h:190-199 | the pivot search of column c from the pivot row down; `PivotRowIsFirstMax` gives its meaning |
| Rref.PivotRowIsFirstMax | src/node.h:190-199 | the pivot is the first row at or below the pivot row with the largest magnitude in the column |
| Rref.EliminateFrom | src/node.h:226-241 | the elimination sweep of column c against the pivot row, skipping the pivot row and every entry below eps; `EliminateFromPreserves` and `EliminateFromClears` give its meaning |
| Rref.EliminateFromPreserves | src/node.h:226-241 | the elimination sweep keeps the solution set |
| Rref.EliminateFromClears | src/node.h:226-241 | with a unit pivot, the sweep zeroes the column in every other row whose entry is at least eps, and leaves every other row unchanged |
| Rref.ColumnStep | src/node.h:189-243 | one pass of the column loop: pivot search, then no change when the best entry is below eps, otherwise swap, divide, eliminate and one more pivot |
| Rref.ColumnStepOutcome | src/node.h:189-243 | a column produces no pivot exactly when every entry at or below the pivot row is below eps, and then nothing changes; otherwise the pivot entry is 1 and every other entry of the column is below eps |
| Rref.ColumnStepPreserves | src/node.h:189-243 | one column step keeps the solution set |
| Rref.ReduceFrom | src/node.h:189 | the pivot count never decreases and stays at most n |
| Rref.Reduce | src/node.h:187-243 | the reduced system is n by n and has at most n pivots |
| Rref.ReduceFromPreserves | src/node.h:189-243 | the column loop from any column keeps the solution set |
| Rref.ReducePreserves | src/node.h:186-243 | the system after the whole reduction has exactly the solutions of the original |
| Rref.Inconsistent | src/node.h:245-256 | row i reads 0 = non-zero: every coefficient is below eps in magnitude and the right-hand side is not |
| Rref.HasInconsistentRow | src/node.h:245-257 | some row is `Inconsistent`, the test that makes `gaussian_rref` return `BadMatrix` |
| Rref.ReducedZeroRowUnsolvable | src/node.h:245-256 | a reduced row of exact zeros with a non-zero right-hand side shows the system has no solution |
| Rref.IdentitySolves | src/node.h:177 | when the reduction reaches the identity, the right-hand side is the one solution |
| Rref.FindPivot | src/node.h:190-199 | the pivot search loop returns `PivotRow` and the magnitude there |
| Rref.SwapStretch | src/node.h:209-215 | the swap loop exchanges two disjoint stretches and leaves everything else alone |
| Rref.SwapRowsInPlace | src/node.h:205-216 | the buffers hold `SwapRows` of what they held |
| Rref.DivideStretch | src/node.h:220-223 | the divide loop divides exactly one stretch by the pivot |
| Rref.DivideRowInPlace | src/node.h:218-224 | the buffers hold `DivideRow` of what they held |
| Rref.SubtractStretch | src/node.h:235-239 | the inner loop subtracts the factor times the pivot stretch from exactly one stretch |
| Rref.SubtractRowInPlace | src/node.h:235-240 | the buffers hold `SubtractRow` of what they held |
| Rref.EliminateColumn | src/node.h:226-241 | the elimination loop leaves `EliminateFrom` of what the buffers held |
| Rref.ClassifyRows | src/node.h:245-258 | `BadMatrix` exactly when some row reads 0 = non-zero up to eps; `Ok` exactly when none does and every column produced a pivot |
| Rref.ReduceColumn | src/node.h:190-242 | one pass of the column loop computes `ColumnStep`, buffers and pivot count alike |
| Rref.ReduceInPlace | src/node.h:187-243 | the column loop leaves the buffers holding `Reduce` of the system they held, and its pivot count |
| Rref.GaussianRref | src/node.h:186-259 | the buffers end up holding `Reduce` of the system they held, and the result classifies it as `ClassifyRows` states |
| Rref.IdentityReductionUnique | src/node.h:177 | when the reduced matrix is the identity, a vector solves the original system exactly when it is the reduced right-hand side |
| Rref.HoldsIdentity | src/node.h:177 | the test returns true exactly when the buffer holds the n by n identity |
| Rref.ClassifyRowsExact | src/node.h:176-180 | corrected form: `BadMatrix` exactly as in `ClassifyRows`; `Ok` exactly when no row is inconsistent, every column produced a pivot and the matrix is the identity (Findings) |
| Rref.GaussianRrefExact | src/node.h:176-259 | corrected form: the buffers hold `Reduce` of the system they held; `Ok` is returned only at the identity, and then the returned right-hand side is the one solution of the original system (Findings) |
| Graph.IsGround | src/node.h:139 | `node_is_ground`: node 0 is ground |
| Graph.Active | src/node.h:161 | bit i of the active-node bitset is set |
| Graph.NewComp | src/node.h:286-296 | the record `component_new` fills in: value, kind and node, a zero current in `aux`, and the zeroed owner |
| Graph.Connect | src/node.h:310-320 | `circuit_connect_component`: the component, owned by n1, heads list n1, and bits n1 and n2 are set; `ConnectWellFormed` is its invariant |
| Graph.AddComponent | src/node.h:322-341 | `circuit_add_component`: the range check, the self-loop check, then one back allocation; `AddComponentCodes`, `AddComponentSuccess` and `AddComponentWellFormed` give its meaning |
| Graph.EmptyNet | src/node.h:414-418 | every list is empty, no node is active, and the graph invariant holds |
| Graph.AddComponentCodes | src/node.h:322-341 | each return code is tied to its condition in both directions (node out of range, self-loop, arena full); a failed call changes neither the graph nor the arena |
| Graph.AddComponentSuccess | src/node.h:310-341 | on success the new component, owned by n1 and leading to n2, heads list n1; every other list is unchanged; both nodes are marked; one 64-byte record comes off the back |
| Graph.ConnectWellFormed | src/node.h:310-320 | head insertion of a component to a different node in range keeps the graph invariant |
| Graph.AddComponentWellFormed | src/node.h:322-341 | `circuit_add_component` keeps the graph invariant, whatever it returns |
| Graph.ActiveCount | src/node.h:157-168 | the dimension is below `MAX_NODES` |
| Graph.Rank | src/node.h:157-168 | the matrix index `setup_matrix_ids` gives active node i: the number of active nodes among 1 .. i-1 |
| Graph.RankIncreasing | src/node.h:160-166 | an active node is numbered before every later node |
| Graph.RankInjective | src/node.h:160-166 | distinct active nodes get distinct matrix indices below the dimension |
| Graph.ActiveCountZero | src/node.h:431-436 | the dimension is 0 exactly when no node other than ground is active |
| Graph.NodesBelow | src/node.h:157-168 | the `m_to_n` half of the index map: the active nodes among 1 .. i-1 in increasing order; `NodesBelowRanks` ties it to `Rank` |
| Graph.IndexMap | src/node.h:157-168 | what `setup_matrix_ids` fills: active node i to `Rank`, and the first n entries of `m_to_n` to `NodesBelow`; `IndexMapInverse` is its bijection |
| Graph.NodesBelowRanks | src/node.h:160-166 | the matrix-to-node map lists the active non-ground nodes in increasing order, each at its own rank |
| Graph.IndexMapInverse | src/node.h:157-168 | the two halves of the index map are inverse, and the map counts exactly the active nodes |
| Graph.SetupMatrixIds | src/node.h:157-168 | the loop fills the index map for the active nodes and returns their count; every other entry is unchanged |
| Graph.StampIndicesInRange | src/node.h:441-443 | every component the stamping loop visits has matrix indices below the dimension |
| Graph.StampComp | src/node.h:443-529 | one component's stamp on G and I: a resistor of magnitude at least eps adds its conductance, to a single diagonal entry when it goes to ground; a DC current source moves its value out of its owner's entry and into the other node's; other kinds stamp nothing |
| Graph.StampList | src/node.h:442-531 | the components of one list stamped head first |
| Graph.StampFrom | src/node.h:441-532 | the node loop from `node` to the last node, one list each |
| Graph.BuildSystem | src/node.h:423-534 | the G and I `circuit_build_dc` assembles from zeroed buffers; `BuildSystemSymmetric` and `BuildSystemIgnoresList0` give its meaning |
| Graph.StampCompSymmetric | src/node.h:445-472 | every stamp keeps G symmetric |
| Graph.BuildSystemSymmetric | src/node.h:441-532 | the conductance matrix `circuit_build_dc` assembles is symmetric |
| Graph.StampCompRowSums | src/node.h:445-461 | a resistor between two non-ground nodes leaves every row sum of G unchanged; one to ground adds its conductance to its owner's row alone |
| Graph.StampCompCurrentBalance | src/node.h:462-472 | a current source between non-ground nodes keeps the sum of I; one to ground subtracts its value; every other kind leaves I unchanged |
| Graph.BuildSystemIgnoresList0 | src/node.h:441 | the components on the ground node's own list never reach the matrices |
| Circuits.LineRequest | src/node.h:344-390 | what one line asks of `circuit_add_component`: nothing for a blank, non-letter, dependent-source, unscannable or rejected line, otherwise the scanned nodes, kind and value; `LineRequestOfFormat` and `NonLetterLineSkipped` give its meaning |
| Circuits.ApplyLine | src/node.h:344-390 | reading one line keeps the graph invariant |
| Circuits.ApplyLines | src/node.h:392-412 | reading lines in order keeps the graph invariant |
| Circuits.ApplyLineOutcome | src/node.h:344-390 | a line reports `ERR_OK` or `ERR_OOM`; a line asking for nothing, or one that runs out of memory, changes neither the graph nor the arena |
| Circuits.NonLetterLineSkipped | src/node.h:345-354 | a blank line, or one whose first non-blank character is not a letter, is skipped |
| Circuits.DependentLineSkipped | src/node.h:360-365 | a line of a VCCS, VCVS or CCCS (`G g E e F f`) is always skipped, because its node fields are never read and stay 0 |
| Circuits.LineRequestOfFormat | src/node.h:378-389 | a written line asks for exactly the component its fields name when the letter is known and the nodes are distinct and in range, and for nothing otherwise |
| Circuits.FormatAll | src/node.h:392-412 | written lines fit the 128-byte buffer and hold no line break or NUL |
| Circuits.NetlistRoundTrip | src/node.h:392-412 | a netlist written one field set per line hands exactly those lines, in order, to `circuit_add_from_line` |
| Circuits.NetlistRequests | src/node.h:344-412 | for a netlist written one field set per line, line k asks for exactly the component of field set k, or for nothing when its letter is unknown or its nodes are equal or out of range |
| Circuits.LinesFromSplit | src/node.h:394-410 | the lines from position `i` are the first line truncated to 127 characters, then the lines after the break |
| Circuits.FindLineEnd | src/node.h:396-398 | the scan stops at `LineEnd` |
| Circuits.ComponentNew | src/node.h:286-296 | one 64-byte record comes off the back of the arena holding the value, kind and node, or nothing when the arena is full |
| Circuits.AllocVecAsWritten | src/node.h:131-137 | as written: the cursors and the block are `Step` on the request, and the zeroing loop writes indices 0 to n - 1 whether or not a block came back |
| Circuits.AllocVecNullWrite | src/node.h:131-137 | as written, a one-number request on a 16-byte arena returns no block, yet the loop stores to index 0 (Findings) |
| Circuits.AllocVec | src/node.h:131-137 | corrected form: n zeroed numbers from the front of the arena, or none and no write when they do not fit; the cursors move as `Step` says |
| Circuits.Zeroed | src/node.h:133-135 | the zeroing loop writes 0 into all n numbers |
| Circuits.AddAt | src/node.h:452-458 | one update in the buffer bumps exactly entry (i, j) |
| Circuits.StampConductance | src/node.h:455-458 | a resistor between two non-ground nodes bumps its four entries by +g, +g, -g and -g |
| Circuits.StampComponent | src/node.h:443-529 | the body of the component loop computes `StampComp` on the buffers |
| Circuits.StampListStep | src/node.h:442 | walking a list onwards from its k-th component is stamping that component, then the rest |
| Circuits.SolveSystem | src/node.h:555-560 | the reduction and read-out give `Classify` of the system the buffers held |
| Circuits.DcSolution | src/node.h:536-562 | the outcome of `circuit_solve_dc`: no system when no node other than ground is active or a buffer does not fit, otherwise `Classify` of the built system |
| Circuits.Classify | src/node.h:555-560 | no report when the reduced system has an inconsistent row, otherwise the reduced right-hand side node by node; `DcVoltagesNodes` and `DcVoltagesSolve` give its meaning |
| Circuits.DcNoSystem | src/node.h:536-544 | no voltages are reported exactly when no node other than ground is active, or G or I does not fit in front of the component records |
| Circuits.DcVoltagesNodes | src/node.h:555-560 | a report lists every active non-ground node once, in increasing order, with one value each |
| Circuits.DcVoltagesSolve | src/node.h:555-560 | the reported values are the right-hand side of the reduced nodal equations, and those equations have exactly the solutions of the built ones; at the identity the report is the one solution |
| Circuits.Circuit.constructor | src/node.h:414-421 | an empty graph over a fresh arena spanning the caller's buffer |
| Circuits.Circuit.ConnectComponent | src/node.h:310-320 | the graph becomes `Connect` of the old one |
| Circuits.Circuit.AddComponent | src/node.h:322-341 | the code, graph and cursors are those `Graph.AddComponent` specifies; the front cursor is kept |
| Circuits.Circuit.AddFromLine | src/node.h:344-390 | the code, graph and cursors are those `ApplyLine` specifies |
| Circuits.Circuit.AddLineAt | src/node.h:395-410 | one pass of the loop consumes the line at `i` and what is left to apply is unchanged |
| Circuits.Circuit.AddFromString | src/node.h:392-412 | the circuit ends up as if every line of the text had been applied in order |
| Circuits.Circuit.StampNode | src/node.h:442-531 | the component loop over one list leaves `StampList` of what the buffers held |
| Circuits.Circuit.StampAll | src/node.h:441-532 | the node loop from node 1 leaves `StampFrom` of what the buffers held |
| Circuits.Circuit.AllocSystem | src/node.h:437-532 | G then I come from the front as `Step` says; when both are there they are distinct and hold `BuildSystem` of the graph |
| Circuits.Circuit.BuildDc | src/node.h:423-534 | it returns the count and map of the active nodes; G then I come from the front as `Step` says; when both are there they hold `BuildSystem` of the graph; with no nodes neither is taken |
| Circuits.Circuit.SolveDc | src/node.h:536-562 | it reports `DcSolution` of the graph and the arena it started from, and always releases the front of the arena |
| Scenarios.ReadNetlist | src/node.h:392-412 | reading `"R 1 0 1000\nI 1 0 0.001\n"` into a fresh 4096-byte arena wires both components onto list 1 and takes two records |
| Scenarios.WiredSystem | src/node.h:423-472 | that circuit's nodal equations are `[0.001] x = [-0.001]` |
| Scenarios.ReduceWired | src/node.h:186-259 | they reduce to `[1] x = [-1]` with no inconsistent row |
| Scenarios.WiredSolution | src/node.h:536-562 | both buffers fit, and the report is V1 = -1 |
| Scenarios.ProbeReduces | src/node.h:186-243 | with eps = 0.1, the 3 by 3 probe system reduces in three pivots to a matrix whose third row keeps 0.025 in the first column |
| Scenarios.ProbeSolutions | src/node.h:177 | the probe system is solved both by (0, 0, 0) and by (-40, 0, 1) |
| Scenarios.OkWithoutIdentity | src/node.h:176-258 | as written, the probe gets every pivot and no inconsistent row, so `gaussian_rref` returns `Ok`, yet the reduced matrix is not the identity and the system has two solutions (Findings) |
| Scenarios.ResistorAndSource | src/node.h:392-562 | from text to report: the netlist yields exactly the voltage V1 = -1 |

## Left out

- `src/realtype.h` is not part of this model. `rat` is an exact real, so rounding, the scale constants and `float_to_rat` are not modelled. `rat_epsilon()` is the parameter `eps`, and `str_to_rat` is the parameter `toRat`.
- `lex_decimal` (src/node.h:92-125) has no caller in the core and is not modelled.
- `print_matrix`, every `printf` and `src/main.c` are left out because they are I/O. `SolveDc` returns what would be printed.
- `should_stamp_once` (src/node.h:284) has no caller.
- The `TIBuffer` type after src/mem.h:138 is not used by the core.
- The voltage-source, VCCS, VCVS and CCVS branches of `circuit_build_dc` are empty TODOs and stamp nothing. The model stamps nothing for them too.
- The CCCS branch is modelled as stamping nothing. As written it refers to an undeclared `b`.
- Component records are kept as values in sequences; the lists are sequences whose first element is the head. Only their bytes are accounted for on the back cursor, so the `next` links and the bytes of a record are not modelled.
- The `aux` union of a record is written 0 by `component_new`. Only the dependent-source branch would set `dep`, and it never reaches that point.
- `size_t` arithmetic is unbounded except for the back-allocation guard (Findings). A product `len * elem_size` or `n * n` that would wrap is not modelled.
- `Mem.Region.SizeRemaining` and `Mem.BiStack.Margins`: they do not model the cast to a 32-bit `int`, so a gap above `INT_MAX` is not truncated.
- `Circuits.Circuit.BuildDc` requires the index-map array to be distinct from the arena buffer, as the `restrict` qualifiers promise.
- `Rref.SwapRowsInPlace` requires the two rows to differ. `gaussian_rref` swaps only in that case.
- The calculator target (`TICE_H`) builds are not modelled.
- `Rref.ClassifyRows` and `Rref.GaussianRref` keep the code's `Ok`, which tests only the pivot count, so their `Ok` does not promise a unique solution (Findings). `Rref.GaussianRrefExact` is the corrected form.
- `Circuits.DcVoltagesSolve` states the unique solution only when the reduced G is the identity, because the code's `Ok` does not imply it. `circuit_solve_dc` only tests for `BadMatrix` (src/node.h:555), so the corrected classification would not change what it reports.
- The worked circuit reports V1 = -1 V. The current-source stamp subtracts the source's value from its owner's entry of I (src/node.h:466). A reading of that netlist as giving +1 V does not match this code, and the model follows the code.

## Findings

| source | as written | input that shows it | evidently intended | confidence | as-written member | corrected member |
|---|---|---|---|---|---|---|
| src/mem.h:116-132 | `s->back - bytes <= s->front` is computed in `size_t`, so a request larger than `back` wraps to a huge value and passes the guard | back = 16, front = 0, a 24-byte request: 16 - 24 wraps and is not `<= 0`, so the back cursor goes below zero | fail whenever `back - bytes <= front` over the integers | not executed | Mem.BackGuardWraps | Mem.BiStack.AllocBack |
| src/node.h:131-137 | `alloc_vec` runs its zeroing loop even when `bistack_alloc_front_vec` returned NULL, and `circuit_build_dc` then goes on to stamp through the returned pointers | an arena of 16 bytes and a request for one 16-byte number: the allocation fails and `v[0]` is written through NULL | return NULL without writing, and skip stamping; `circuit_solve_dc` already tests for NULL | not executed | Circuits.AllocVecNullWrite | Circuits.AllocVec |
| src/node.h:176-258 | `Ok` is returned when every column produced a pivot and no row reads 0 = non-zero; a row whose entry in the pivot column is below eps is not eliminated, so A need not become the identity and the solution need not be unique | `[[1, 0, 40], [0, 1, 0], [0.05, 0, 2]] x = 0` with eps = 0.1: the third row keeps 0.025 in column 0, the result is `Ok`, and both (0, 0, 0) and (-40, 0, 1) solve it | `Ok` only when A ends as the identity, so that v is the unique solution | not executed | Scenarios.OkWithoutIdentity | Rref.GaussianRrefExact |
| src/mem.h:58-67 | `region_alloc_reset_when_full` rewinds to 0 and hands out the block even when the request is larger than the whole region | a 16-byte region and a 20-byte request (24 aligned): the block runs 8 bytes past the end and the cursor ends at 24 | a request must fit an empty region; the corrected method requires it | not executed | Mem.ResetWhenFullOverruns | Mem.Region.AllocResetWhenFull |

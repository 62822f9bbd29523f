# Advent of Code 2019 solutions, days 1–4 and 6–8, in Dafny

This project models the core of a set of Rust solutions to the 2019 Advent of
Code puzzles and proves what each solution computes:

- the **Intcode** interpreter (`src/intcode.rs`): program text parsed into
  cells; instructions decoded by `instruction % 100` and the decimal mode
  digits; the eight opcodes plus halt; patches applied before a run;
- **day 1** (`src/q1.rs`): the fuel a mass needs, counting the fuel's own
  fuel, summed over the input lines;
- **day 2** (`src/q2.rs`): one patched run, and the search over nouns and
  verbs for the target output;
- **day 3** (`src/q3.rs`): two wires as segments, their crossings, the
  crossing nearest the port, and the fewest combined steps to a crossing;
- **day 4** (`src/q4.rs`): passwords whose digits never decrease and that
  contain an equal pair, or a run of exactly two;
- **day 6** (`src/q6.rs`): the total count of direct and indirect orbits, and
  the transfers between two bodies;
- **day 7** (`src/q7.rs`): five amplifiers, each with its own phase setting,
  run round by round with feedback, maximised over all orderings of the
  settings;
- the **layered image** (`src/image.rs`) and **day 8** (`src/q8.rs`): the
  checksum of the layer with the fewest zeros, and the picture you get when
  transparent pixels let lower layers show through.

Each source file is one module:

- `Intcode` (intcode.dfy)
- `RocketEquation` (rocket_equation.dfy)
- `GravityAssist` (gravity_assist.dfy)
- `CrossedWires` (crossed_wires.dfy)
- `SecureContainer` (secure_container.dfy)
- `OrbitMap` (orbit_map.dfy)
- `Amplifiers` (amplifiers.dfy)
- `LayeredImage` (image.dfy)
- `SpaceImage` (space_image.dfy)

Three modules support them:

- `Arith` models Rust's truncating `/` and `%`.
- `Decimal` models `i64::from_str` and the `{}` printing of integers.
- `Wrappers` defines `Option` and `Result`.

Pure code is modelled as functions. Code that updates state in place is
modelled as methods with loops, each proved equal to the function that
specifies it. These methods work over arrays:

- the interpreter's loop over memory (`Intcode.Execute`, `Intcode.Computer`);
- the amplifiers' vectors (`Amplifiers.Compute`);
- the pixel buffer that `flatten` overlays (`LayeredImage.Flatten`).

Other loops update local variables only, and are methods over sequences:

- day 4's `has_exactly_two_adjacent`, a loop over the digits with running
  counters and an early return (`SecureContainer.HasExactlyTwoAdjacent`);
- day 3's `scan` over the shifts with a running point (`CrossedWires.Lines`);
- the running maximum of day 7's `run` (`Amplifiers.MaxOver`);
- the nested row and column loops of `Display for Layer`
  (`LayeredImage.Display`, `LayeredImage.ShowRow`).

Input is passed in as values. Standard input and printing are not modelled.
The interpreter's unbounded recursion, and the amplifiers' loops, take a
`fuel` bound. `Running` is what a run returns when the bound runs out.

## Model

| member | source | states |
|---|---|---|
| Arith.TDiv | src/q1.rs:4 | Rust's signed `/`: the quotient has the sign of the dividend (truncation toward zero) |
| Arith.TDivBounds | src/q1.rs:4 | the truncated quotient's magnitude is the largest multiple of the divisor not above the dividend's magnitude |
| Arith.TRem | src/intcode.rs:25 | Rust's signed `%`: the remainder lies in 0..b for a non-negative dividend and in -b+1..0 for a negative one |
| Arith.TRemIdentity | src/intcode.rs:25 | quotient times divisor plus remainder is the dividend |
| Decimal.ParseI64 | src/intcode.rs:8 | `i64::from_str` only succeeds with a value in the i64 range |
| Decimal.ShowNatValue | src/q1.rs:20 | the printed digits of a natural number read back as that number |
| Decimal.ParseShowInt | src/intcode.rs:8 | printing an i64 and parsing it back gives the same value |
| Intcode.TrimEnd | src/intcode.rs:6 | `trim_end` returns a prefix that drops only trailing whitespace and ends in non-whitespace |
| Intcode.Split | src/intcode.rs:7 | `split(",")` gives at least one piece, and no piece holds the separator |
| Intcode.JoinSplit | src/intcode.rs:7 | joining the pieces of a split with the separator gives the string back |
| Intcode.SplitJoin | src/intcode.rs:7 | splitting pieces free of the separator after joining them gives the pieces back |
| Intcode.SplitPrefix | src/intcode.rs:7 | a separator-free prefix joins the first piece of the rest |
| Intcode.ParseTokens | src/intcode.rs:8-9 | the collect succeeds iff every token parses; success is the parsed values in order; failure names the first bad token |
| Intcode.ParseFormat | src/intcode.rs:4-10 | a program written as comma-separated i64 cells, with or without a trailing newline, parses back to its cells |
| Intcode.ParseShownTokens | src/intcode.rs:8-9 | tokens that print i64 cells parse to exactly those cells |
| Intcode.NoCommaInShowInt | src/intcode.rs:7 | a printed integer never contains the comma separator |
| Intcode.JoinEndsWithLast | src/intcode.rs:6-7 | the joined text ends with the last piece's last character |
| Intcode.ModeIsDecimalDigit | src/intcode.rs:89 | `instruction / 10^(k+1) % 10` on a non-negative instruction is its decimal digit at position k+1 |
| Intcode.ArgDecode | src/intcode.rs:87-94 | `arg` is immediate exactly when the decimal digit for that parameter is 1, and otherwise reads the cell the parameter addresses (or faults out of range) |
| Intcode.StepDispatch | src/intcode.rs:22-37 | the step halts with cell 0 iff the opcode is 99; any other code outside 1–8 (negative instructions included) is an invalid-opcode crash |
| Intcode.StepWritesAtMostOneCell | src/intcode.rs:22-85 | an instruction keeps the memory length and changes at most one cell |
| Intcode.StepAdvance | src/intcode.rs:22-85 | the pointer moves by 4 for opcodes 1, 2, 7, 8 and by 2 for 3, 4; opcodes 5 and 6 jump to the second parameter when their test of the first against 0 holds, else move by 3 |
| Intcode.StepStoresFlag | src/intcode.rs:73-85 | opcodes 7 and 8 store exactly 1 when the comparison holds and 0 otherwise, at the raw third-parameter address |
| Intcode.StepInputOutput | src/intcode.rs:39-50 | opcode 3 consumes exactly one input value and stores it; opcode 4 appends exactly its first parameter to the output; other opcodes touch neither stream |
| Intcode.StepStreams | src/intcode.rs:22-85 | one instruction keeps the memory length, only appends to the output and only consumes input from the front |
| Intcode.RunStreams | src/intcode.rs:22-85 | a whole run keeps the memory length, only appends to the output and only consumes input from the front |
| Intcode.RunMoreFuel | src/intcode.rs:22-37 | once a run has halted or crashed, a larger step bound gives the same outcome |
| Intcode.LoadOverrides | src/intcode.rs:12-17 | loading succeeds iff every override address is in range; each cell then holds its last override, or the program's value when there is none |
| Intcode.LoadFailureSticks | src/intcode.rs:15-17 | once an override is out of range, the load fails whatever overrides follow |
| Intcode.PlainInstruction | src/intcode.rs:87-94 | an instruction below 100 is its own opcode, with both parameters positional |
| Intcode.OperatorStepDecoded | src/intcode.rs:52-59 | opcodes 1 and 2 store the sum or product of the decoded parameters at the third parameter's address and advance by 4 |
| Intcode.PositionalOperator | src/intcode.rs:52-59 | plain opcodes 1 and 2 add or multiply the cells their parameters address |
| Intcode.HaltStep | src/intcode.rs:34 | opcode 99 halts with cell 0 |
| Intcode.ImmediateModes | src/intcode.rs:87-94 | `1101` is opcode 1 with both parameters immediate |
| Intcode.ImmediateAddStep | src/intcode.rs:52-59 | `1101,a,b,0,99` stores a+b in cell 0 in one step |
| Intcode.ReferenceProgram | src/intcode.rs:12-59 | `1,9,10,3,2,3,11,0,99,30,40,50` halts with 3500 in cell 0 |
| Intcode.EchoProgram | src/intcode.rs:39-50 | `3,0,4,0,99` outputs its one input value and halts with it in cell 0 |
| Intcode.ImmediateAdd | src/intcode.rs:87-94 | `1101,a,b,0,99` halts with a+b |
| Intcode.MixedModes | src/intcode.rs:87-94 | `1002,4,3,4,33` multiplies a positional 33 by an immediate 3, writing opcode 99 that halts the run |
| Intcode.ExecuteStep | src/intcode.rs:22-94 | one instruction executed on memory updated in place does exactly what the specification's step does to a memory value |
| Intcode.Execute | src/intcode.rs:19-37 | the in-place loop ends with the status, output and memory of the specification's bounded run |
| Intcode.Computer | src/intcode.rs:12-20 | clone the program, patch it in order, run it: the report equals the specification's load-then-run |
| Intcode.Parse | src/intcode.rs:4-10 | no contract of its own: `parse` trims the end, splits on commas and parses each token; Intcode.ParseTokens and Intcode.ParseFormat state what it returns |
| Intcode.Opcode | src/intcode.rs:25 | no contract of its own: `instruction % 100` with Rust's truncating remainder; Intcode.PlainInstruction and Intcode.StepDispatch state how it is used |
| Intcode.Mode | src/intcode.rs:89 | no contract of its own: the mode digit `instruction / 10^(k+1) % 10`; Intcode.ModeIsDecimalDigit states what it means |
| Intcode.Arg | src/intcode.rs:87-94 | no contract of its own: `arg`, with an index past the end as IndexOutOfBounds; Intcode.ArgDecode states what it reads |
| Intcode.OperatorStep | src/intcode.rs:52-59 | no contract of its own: `operator_step`; Intcode.OperatorStepDecoded and Intcode.StepAdvance state its effect |
| Intcode.InputStep | src/intcode.rs:39-45 | no contract of its own: `input_step`, reading from an input list, with an empty list as NoInput; Intcode.StepInputOutput states its effect |
| Intcode.OutputStep | src/intcode.rs:47-50 | no contract of its own: `output_step`, appending to an output list; Intcode.StepInputOutput states its effect |
| Intcode.JumpStep | src/intcode.rs:61-71 | no contract of its own: `jump_step`; Intcode.StepAdvance states where the pointer goes |
| Intcode.StoreStep | src/intcode.rs:73-85 | no contract of its own: `store_step`; Intcode.StepStoresFlag states the flag it stores |
| Intcode.Step | src/intcode.rs:22-37 | no contract of its own: one `step`, fetching at the pointer and dispatching on the opcode; Intcode.StepDispatch, Intcode.StepAdvance, Intcode.StepWritesAtMostOneCell and Intcode.StepStreams state its properties |
| Intcode.Run | src/intcode.rs:19-37 | no contract of its own: `step`'s recursion from a machine, bounded by fuel; Intcode.RunStreams and Intcode.RunMoreFuel state its properties |
| Intcode.Load | src/intcode.rs:12-17 | no contract of its own: the copy of the program patched in order; Intcode.LoadOverrides and Intcode.LoadFailureSticks state its result |
| Intcode.RunProgram | src/intcode.rs:12-20 | no contract of its own: `computer`, a load and then a run from address 0; Intcode.Computer, Intcode.ReferenceProgram and Intcode.EchoProgram state its result |
| RocketEquation.Fuel | src/q1.rs:3-10 | the total fuel is never negative and at most half the mass |
| RocketEquation.FuelOfSmallMass | src/q1.rs:4-8 | a mass whose `weight / 3 - 2` is not positive (any mass up to 8) needs no fuel |
| RocketEquation.FuelRecurrence | src/q1.rs:4-6 | a positive requirement r is below the mass, and the total is r plus the fuel for r |
| RocketEquation.FuelMonotone | src/q1.rs:3-10 | more mass never needs less fuel |
| RocketEquation.FuelExample | src/q1.rs:3-10 | a mass of 1969 needs 966 in total |
| RocketEquation.SumFuelAppend | src/q1.rs:16-17 | the sum over the masses adds one mass's fuel per line |
| RocketEquation.Weights | src/q1.rs:17 | the masses of lines that all parse, one per line |
| RocketEquation.TotalSucceeds | src/q1.rs:13-18 | the fold succeeds iff every line parses |
| RocketEquation.TotalIsSum | src/q1.rs:13-18 | a successful fold is the sum of the fuel of every line's mass |
| RocketEquation.TotalFirstError | src/q1.rs:13-18 | a failed fold reports the first line that does not parse, after lines that all parse |
| RocketEquation.Total | src/q1.rs:13-18 | no contract of its own: the fold over the lines; RocketEquation.TotalSucceeds, RocketEquation.TotalIsSum and RocketEquation.TotalFirstError state its result |
| GravityAssist.Pair | src/q2.rs:23 | position k of the product enumerates a noun and a verb both below 99 |
| GravityAssist.PairEnumeratesGrid | src/q2.rs:23 | every noun/verb pair below 99 appears in the enumeration, nouns outer |
| GravityAssist.SearchFromFound | src/q2.rs:23-32 | a success is a*100+b for the first pair whose run gives 19690720, after pairs that ran and missed |
| GravityAssist.SearchFromNoMatch | src/q2.rs:23-32 | "no match!" exactly when every remaining pair runs and misses |
| GravityAssist.SearchFromRunError | src/q2.rs:23-32 | a run error is that of the first run that failed, after pairs that ran and missed |
| GravityAssist.SearchFromCorrect | src/q2.rs:23-32 | the three outcomes of the search together: first hit, first error, or no match |
| GravityAssist.PartBCorrect | src/q2.rs:23-32 | part B answers a*100+b for the first pair in noun-major order hitting the target, the first run error before any hit, or no match |
| GravityAssist.AnswerDecodes | src/q2.rs:26 | the answer a*100+b names its pair, as b is below 100 |
| GravityAssist.PartA | src/q2.rs:20-22 | no contract of its own: one run with cell 1 set to the noun, cell 2 to the verb, and no input |
| GravityAssist.SearchFrom | src/q2.rs:23-32 | no contract of its own: `filter_map(..).next()` from pair k; GravityAssist.SearchFromFound, GravityAssist.SearchFromNoMatch, GravityAssist.SearchFromRunError and GravityAssist.SearchFromCorrect state its result |
| GravityAssist.PartB | src/q2.rs:23-32 | no contract of its own: the search from the first pair; GravityAssist.PartBCorrect states its result |
| CrossedWires.AxisSign | src/q3.rs:42-49 | only L, R, U, D are accepted; L and R move along X; L and U have sign -1, R and D +1 |
| CrossedWires.ParseShowShift | src/q3.rs:51-59 | a shift whose length fits in an i64 reads back from its letter-and-digits token |
| CrossedWires.ParseShiftSign | src/q3.rs:51-59 | a parsed token's letter fixes the axis and the sign, and its digits give the length |
| CrossedWires.PositionIsSum | src/q3.rs:77-107 | the scan's running point is the start plus the summed shifts along each axis |
| CrossedWires.PositionNext | src/q3.rs:80-98 | the scan's next point is the current point moved by the next shift |
| CrossedWires.LinesOf | src/q3.rs:77-107 | one segment per shift |
| CrossedWires.Lines | src/q3.rs:77-107 | the scan, carrying the running point, produces each shift's segment from where the wire is |
| CrossedWires.SegmentCovers | src/q3.rs:80-104 | a segment holds exactly the points between the running point before and after its shift |
| CrossedWires.Intersect | src/q3.rs:109-129 | parallel segments never meet; a reported point lies on both segments |
| CrossedWires.IntersectIff | src/q3.rs:109-129 | perpendicular segments meet at p iff p is on both |
| CrossedWires.IntersectSymmetric | src/q3.rs:109-129 | intersection does not depend on the order of the segments |
| CrossedWires.Row | src/q3.rs:131-135 | the crossings of one segment with the second wire, exactly those that meet, in order |
| CrossedWires.IntersectionsFrom | src/q3.rs:131-135 | the crossings from segment i on, exactly the pairs that meet, first wire major |
| CrossedWires.IntersectionsIff | src/q3.rs:131-135 | a crossing is listed iff its two segments meet at its point; first-wire-major order |
| CrossedWires.MinPositive | src/q3.rs:141-142 | none iff no value is positive; otherwise a positive value of the list no larger than any positive value |
| CrossedWires.Distances | src/q3.rs:140 | each crossing's Manhattan distance from the port, in order |
| CrossedWires.MinimumManhattanIs | src/q3.rs:137-143 | none iff every crossing is at the port; otherwise the distance of some crossing away from the port and no more than any other |
| CrossedWires.MinimumManhattanNone | src/q3.rs:137-143 | no answer exactly when every crossing is at the port |
| CrossedWires.MinimumManhattanReached | src/q3.rs:137-143 | the answer is the distance of a crossing away from the port |
| CrossedWires.MinimumManhattanLeast | src/q3.rs:137-143 | no crossing away from the port is nearer than the answer |
| CrossedWires.DelayAgreesForwards | src/q3.rs:145-157 | on a segment walked R or D, `delay` as written is the number of steps along the wire |
| CrossedWires.DelayCountsFromFarEnd | src/q3.rs:145-157 | on an L segment, `delay` as written counts from the far end (3 instead of 2 in the example) |
| CrossedWires.WalkNowhere | src/q3.rs:145-157 | zero steps leave the wire where it starts |
| CrossedWires.WalkReaches | src/q3.rs:145-157 | walking the corrected delay along the wire arrives at the crossing point |
| CrossedWires.StepsBeforeIsLengthBefore | src/q3.rs:146 | the summed lengths of the earlier shifts are the summed lengths of the earlier segments |
| CrossedWires.StepsBeforeLast | src/q3.rs:146 | the summed lengths grow by one shift's length at a time |
| CrossedWires.MinimumWireDelayIs | src/q3.rs:159-169 | part B's minimum is the combined step count of some crossing, and no crossing with a positive count is reached sooner |
| CrossedWires.ParseShift | src/q3.rs:42-59 | no contract of its own: `shift` on one whole token; CrossedWires.ParseShiftSign and CrossedWires.ParseShowShift state its result |
| CrossedWires.Segment | src/q3.rs:80-104 | no contract of its own: the line one shift sweeps, from its lesser end with its absolute length; CrossedWires.SegmentCovers states which points it holds |
| CrossedWires.Intersections | src/q3.rs:131-135 | no contract of its own: `intersections`; CrossedWires.IntersectionsIff states which crossings it lists |
| CrossedWires.MinimumManhattan | src/q3.rs:137-143 | no contract of its own: `minimum_manhattan`; CrossedWires.MinimumManhattanIs, CrossedWires.MinimumManhattanLeast, CrossedWires.MinimumManhattanNone and CrossedWires.MinimumManhattanReached state its result |
| CrossedWires.Delay | src/q3.rs:145-157 | no contract of its own: `delay` as written; CrossedWires.DelayAgreesForwards and CrossedWires.DelayCountsFromFarEnd state where it is right and where it is not |
| CrossedWires.MinimumDelay | src/q3.rs:159-169 | no contract of its own: `minimum_delay` as written, over CrossedWires.Delay; CrossedWires.Solve does not use it (see Findings) |
| CrossedWires.WireDelay | src/q3.rs:145-157 | no contract of its own: the corrected delay, counted along the wire; CrossedWires.WalkReaches states that walking it arrives at the point |
| CrossedWires.MinimumWireDelay | src/q3.rs:159-169 | no contract of its own: `minimum_delay` over the corrected delay; CrossedWires.MinimumWireDelayIs states its result |
| CrossedWires.Solve | src/q3.rs:183-191 | no contract of its own: `run` after parsing, the Manhattan minimum for part A and the corrected delay minimum for part B; None is the "no intersections!" error |
| SecureContainer.Zip | src/q4.rs:10 | `zip` pairs equal positions up to the shorter list |
| SecureContainer.PairsAre | src/q4.rs:9-11 | `pairs` gives each digit with its successor |
| SecureContainer.AscendingIffSorted | src/q4.rs:13-15 | every adjacent pair in order iff the whole list is sorted |
| SecureContainer.AdjacentOrderSorts | src/q4.rs:13-15 | adjacent order implies order of every two positions |
| SecureContainer.HasTwoAdjacentIff | src/q4.rs:17-19 | some adjacent pair is equal iff two consecutive digits are equal |
| SecureContainer.HasExactlyTwoAdjacent | src/q4.rs:21-37 | the scan reports true iff some run of equal digits has length exactly two |
| SecureContainer.RunOfTwoHasTwoAdjacent | src/q4.rs:17-37 | a run of exactly two is in particular an equal pair |
| SecureContainer.Digits | src/q4.rs:42-46 | a number's decimal digits, at least one, each below 10 |
| SecureContainer.PartBCountsNoMore | src/q4.rs:39-54 | part B accepts no more passwords than part A, and A no more than the range holds |
| SecureContainer.PasswordExamples | src/q4.rs:13-37 | the puzzle's examples: 111122 has a run of exactly two; 111111 has an equal pair but no such run; 223450 is not ascending; 123789 has no equal pair; 123444 has no run of exactly two |
| SecureContainer.Pairs | src/q4.rs:9-11 | no contract of its own: `pairs`, on a non-empty list; SecureContainer.PairsAre states its result |
| SecureContainer.Ascending | src/q4.rs:13-15 | no contract of its own: `ascending`; SecureContainer.AscendingIffSorted states what it means |
| SecureContainer.HasTwoAdjacent | src/q4.rs:17-19 | no contract of its own: `has_two_adjacent`; SecureContainer.HasTwoAdjacentIff states what it means |
| SecureContainer.Accepts | src/q4.rs:41-53 | no contract of its own: the filter on one password's decimal digits, ascending and then the part's adjacency test |
| SecureContainer.CountAccepted | src/q4.rs:40-54 | no contract of its own: `filter(..).count()` over a range; SecureContainer.PartBCountsNoMore states its bounds |
| SecureContainer.Run | src/q4.rs:39-54 | no contract of its own: the count over 231832..767346 (the upper end excluded) |
| OrbitMap.AddOrbit | src/q6.rs:74 | the entry for the outer body gains the inner body; other entries are unchanged |
| OrbitMap.BuildDown | src/q6.rs:72-75 | the downward map holds exactly the orbits of the input |
| OrbitMap.BuildUp | src/q6.rs:79 | the upward map has a key for each orbiting body, mapped to a body it orbits in the input; that pair is the last one in the input for the body, as `collect` into a `HashMap` keeps the last value per key |
| OrbitMap.Count | src/q6.rs:8-16 | `count` is at least the depth, and exactly the depth for a body nothing orbits |
| OrbitMap.CountLinear | src/q6.rs:8-16 | starting deeper adds the extra depth once per body of the subtree |
| OrbitMap.CountAllLinear | src/q6.rs:8-16 | the same over a list of children |
| OrbitMap.CountIsOrbitCount | src/q6.rs:8-16 | `count(map, key, 0)` is the number of direct and indirect orbits below key |
| OrbitMap.CountAllIsOrbitCountAll | src/q6.rs:8-16 | the same over a list of children |
| OrbitMap.ExampleRanked | src/q6.rs:8-16 | the example map is acyclic |
| OrbitMap.ExampleBelowB | src/q6.rs:8-16 | in the example map B at depth 1 counts 5 |
| OrbitMap.CountExample | src/q6.rs:76 | the example map COM)B, B)C, B)D has 5 orbits |
| OrbitMap.Parents | src/q6.rs:46-51 | `parents` starts at the body start orbits, follows the upward map one body at a time, and ends at a body that orbits nothing |
| OrbitMap.SomeVal | src/q6.rs:35-37 | 1 for a value, 0 for none |
| OrbitMap.ThenNone | src/q6.rs:39-44 | the items of the list in order, then none forever |
| OrbitMap.Reverse | src/q6.rs:22-25 | `reverse` puts item i at position length-1-i |
| OrbitMap.ReverseInjective | src/q6.rs:22-25 | different chains stay different once reversed |
| OrbitMap.FirstDifference | src/q6.rs:29 | `skip_while` stops at the first position where the two streams differ |
| OrbitMap.AgreeEverywhere | src/q6.rs:27-29 | streams that agree past the end of both lists come from equal lists |
| OrbitMap.CommonPrefix | src/q6.rs:27-29 | the length of the longest common prefix of two lists |
| OrbitMap.DiffersAfterCommonPrefix | src/q6.rs:27-29 | two different lists differ as streams right after their common prefix |
| OrbitMap.FirstDifferenceIsCommonPrefix | src/q6.rs:27-29 | the skip ends exactly at the common prefix |
| OrbitMap.TakeSumIs | src/q6.rs:30-32 | the summed `some_val` pairs, taken while positive, count the items both lists have left |
| OrbitMap.StepsIs | src/q6.rs:27-32 | the pipeline counts the items of both lists after their common prefix |
| OrbitMap.TransferIs | src/q6.rs:20-33 | `transfer` counts the bodies on both ancestor chains below their last common ancestor |
| OrbitMap.CommonPrefixSymmetric | src/q6.rs:27-29 | the common prefix does not depend on the order of the lists |
| OrbitMap.TransferSymmetric | src/q6.rs:20-33 | the transfer count is the same from either end |
| OrbitMap.CountAll | src/q6.rs:10-15 | no contract of its own: the sum of `count` over a list of children; OrbitMap.CountAllIsOrbitCountAll and OrbitMap.CountAllLinear state its value |
| OrbitMap.TakeSum | src/q6.rs:30-32 | no contract of its own: the `some_val` sums taken while positive; OrbitMap.TakeSumIs states its value |
| OrbitMap.Steps | src/q6.rs:27-32 | no contract of its own: the pipeline after `skip_while`; OrbitMap.StepsIs states its value |
| OrbitMap.Transfer | src/q6.rs:20-33 | no contract of its own: `transfer`; OrbitMap.TransferIs and OrbitMap.TransferSymmetric state its value |
| Amplifiers.Start | src/q7.rs:19-25 | n fresh machines, storage all 0, none terminated, every phase still pending |
| Amplifiers.Drive | src/q7.rs:31-43 | the inner loop ends with an output or termination within its bound, having read only what it was given |
| Amplifiers.Finish | src/q7.rs:29-43 | a turn changes only its machine, its flags and the next storage slot. Machine i becomes the stepped machine. An output goes into slot `(i+1) % 5` and sets no flag. Termination sets `terminated[i]` and leaves the storage as it was. The phase setting stays pending exactly when the turn pulled no input. A failed step is passed on, and an output to a slot beyond the vector is the index panic |
| Amplifiers.Round | src/q7.rs:28-44 | a round keeps the pipeline's shape, only sets terminated flags and drops pending phases; with five settings or more it never panics on an index |
| Amplifiers.Proceed | src/q7.rs:28-44 | after one turn the rest of the round keeps the same guarantees |
| Amplifiers.Settle | src/q7.rs:27-49 | the outer loop ends only with every machine terminated |
| Amplifiers.Conclude | src/q7.rs:46-48 | after a round, stopping means every machine has terminated |
| Amplifiers.FiveNeverPanics | src/q7.rs:35 | with five settings or more every storage index is in range |
| Amplifiers.NoSettingsPanics | src/q7.rs:46-51 | with no settings the loop stops at once and `storage[0]` panics |
| Amplifiers.FewerThanFivePanics | src/q7.rs:35 | with fewer than five settings, the last machine's first output panics |
| Amplifiers.AmplifySuccess | src/q7.rs:18-52 | a successful `compute` ends with every machine terminated, and its answer is storage slot 0 |
| Amplifiers.TurnStores | src/q7.rs:29-43 | after a successful turn, machine i is the stepped machine; its output is in slot `(i+1) % 5` with the flags unchanged, or it terminated, its flag is set and the storage is unchanged |
| Amplifiers.RoundEndsWithLastTurn | src/q7.rs:28-44 | a successful round ends with the turn of the last machine |
| Amplifiers.LastMachineFeedsFirst | src/q7.rs:28-44 | with five machines, slot 0 at the end of a round holds machine 4's output from that round; if machine 4 terminated instead, slot 0 holds what it held before that turn and the flag is set |
| Amplifiers.SettleEndsWithRound | src/q7.rs:27-49 | the outer loop stops right after a round: the settled pipeline is the outcome of its last round |
| Amplifiers.AnswerAfterFinalRound | src/q7.rs:27-51 | `compute`'s answer is storage slot 0 as the final round leaves it |
| Amplifiers.PhaseAtMostOnce | src/q7.rs:21-43 | machine i is offered its phase setting ahead of its storage slot only while it is pending; after a turn that pulled any input it is no longer pending and the machine is offered its storage slot alone; a turn that pulled nothing leaves it pending |
| Amplifiers.DriveMachine | src/q7.rs:31-43 | the inner loop as a method gives the specification's turn |
| Amplifiers.TakeTurn | src/q7.rs:29-43 | one machine's turn over the vectors updated in place matches the specification's turn |
| Amplifiers.PlayRound | src/q7.rs:28-44 | one pass over all machines in place matches the specification's round |
| Amplifiers.Compute | src/q7.rs:18-52 | `compute` over vectors updated in place returns the specification's answer |
| Amplifiers.SetOfSeqSize | src/q7.rs:15 | a list's set is no larger than the list, and as large iff no value repeats |
| Amplifiers.UniqueIff | src/q7.rs:14-16 | `unique` holds exactly when no setting repeats |
| Amplifiers.Prefix | src/q7.rs:61-62 | each tuple led by the given value, in order |
| Amplifiers.LedByMembers | src/q7.rs:61-62 | the tuples led by v..hi-1 are exactly those whose head is in range and whose tail is in the rest |
| Amplifiers.TuplesMembers | src/q7.rs:61-62 | `iproduct!` of k ranges holds exactly the k-tuples over the range |
| Amplifiers.Filter | src/q7.rs:69 | the filter keeps exactly the tuples with no repeated setting (its order is Amplifiers.FilterAppend) |
| Amplifiers.FilterAppend | src/q7.rs:67-69 | the filter keeps the product order: filtering a concatenation is filtering each part, in order, so the candidates and their results come in `iproduct!` order |
| Amplifiers.CandidatesAre | src/q7.rs:60-69 | the candidates are exactly the orderings of 0..5 (part A) or 5..10 (part B) |
| Amplifiers.CandidatesNonEmpty | src/q7.rs:60-69 | there is at least one candidate |
| Amplifiers.Results | src/q7.rs:70 | one `compute` result per candidate, in order |
| Amplifiers.BestIsMax | src/q7.rs:67-77 | a successful fold saw only successes; its maximum is one of them and at least every other |
| Amplifiers.BestFirstError | src/q7.rs:72 | a failed fold reports the first failing result, after successes only |
| Amplifiers.BestOfSome | src/q7.rs:65-79 | a successful fold over at least one result holds a maximum |
| Amplifiers.SomeCandidateSomeAnswer | src/q7.rs:65-79 | over at least one candidate the answer is never "no output!" |
| Amplifiers.NeverNoOutput | src/q7.rs:79 | `run` never fails with "no output!" |
| Amplifiers.MaxOver | src/q7.rs:65-77 | the loop keeping the running maximum gives the fold's answer |
| Amplifiers.Run | src/q7.rs:54-82 | `run` after parsing returns the specification's answer |
| Amplifiers.Input | src/q7.rs:21-29 | no contract of its own: machine i's input for a turn, its phase while still pending and then its storage slot; Amplifiers.PhaseAtMostOnce states how it changes |
| Amplifiers.Turn | src/q7.rs:28-43 | no contract of its own: machine i's inner loop and its effect on the pipeline; Amplifiers.Finish, Amplifiers.TurnStores and Amplifiers.PhaseAtMostOnce state its result |
| Amplifiers.PhaseStaysDropped | src/q7.rs:21-49 | once a phase setting has been dropped it stays dropped over the rest of `compute`, and the machine is offered its storage slot alone |
| Amplifiers.PhaseStaysDroppedInRound | src/q7.rs:28-44 | the same over what is left of one round |
| Amplifiers.Amplify | src/q7.rs:18-52 | no contract of its own: `compute`; Amplifiers.AmplifySuccess, Amplifiers.FiveNeverPanics, Amplifiers.NoSettingsPanics and Amplifiers.FewerThanFivePanics state its result |
| Amplifiers.Unique | src/q7.rs:14-16 | no contract of its own: `unique`; Amplifiers.UniqueIff states what it means |
| Amplifiers.Tuples | src/q7.rs:61-62 | no contract of its own: `iproduct!` of k ranges; Amplifiers.TuplesMembers states which tuples it holds |
| Amplifiers.Candidates | src/q7.rs:60-69 | no contract of its own: the settings `run` tries; Amplifiers.CandidatesAre and Amplifiers.CandidatesNonEmpty state which they are |
| Amplifiers.Best | src/q7.rs:65-77 | no contract of its own: the `for` loop keeping the maximum; Amplifiers.BestIsMax, Amplifiers.BestFirstError and Amplifiers.BestOfSome state its result |
| Amplifiers.Answer | src/q7.rs:54-82 | no contract of its own: `run` after parsing; Amplifiers.NeverNoOutput and Amplifiers.Run state its result |
| LayeredImage.NewWithString | src/image.rs:14-33 | success iff width*height divides the length; a zero area is its own error; the image holds the bytes, offset '0' and length / area layers |
| LayeredImage.Layers | src/image.rs:35-41 | one layer per index, in order; each is `layer(i)`, the datatype value `Layer(image, i)` |
| LayeredImage.LayerInBounds | src/image.rs:59-61 | every layer lies within the bytes |
| LayeredImage.Row | src/image.rs:74-76 | row y of a layer is its pixels for x from 0 to width-1 |
| LayeredImage.RowsFrom | src/image.rs:74-76 | the remaining rows hold width pixels each |
| LayeredImage.Pixels | src/image.rs:74-76 | `pixels` yields width*height values |
| LayeredImage.Less | src/image.rs:60 | subtracting the offset from each byte keeps the positions |
| LayeredImage.RowIsSlice | src/image.rs:59-61 | a row is its stretch of the bytes less the offset |
| LayeredImage.RowsFromSlice | src/image.rs:59-76 | the remaining rows are their stretch of the bytes less the offset |
| LayeredImage.PixelsAreSlice | src/image.rs:59-76 | a layer's pixels are its stretch of the bytes, less the offset |
| LayeredImage.PixelsIndex | src/image.rs:59-76 | `pixels` yields pixel x, y at position y*width+x |
| LayeredImage.Overlay | src/image.rs:78-86 | every non-2 pixel of the layer replaces the buffer entry at its position, up to the shorter of the two; everything else stays |
| LayeredImage.VisibleIs | src/image.rs:43-57 | the pixel seen through the layers is the first layer's that is not 2, or the last layer's when all are 2 |
| LayeredImage.Flattened | src/image.rs:50-56 | a flattened image has one layer, offset 0 and the same dimensions |
| LayeredImage.Flatten | src/image.rs:43-57 | overlaying from the last layer up to the first gives the visible pixel at every position |
| LayeredImage.FlattenedPixels | src/image.rs:43-57 | the flattened image's only layer yields the visible pixels |
| LayeredImage.FlattenedPixel | src/image.rs:43-61 | pixel x, y of the flattened image is the one visible at y*width+x |
| LayeredImage.FlattenSingle | src/image.rs:43-57 | flattening a one-layer image changes no pixel |
| LayeredImage.Display | src/image.rs:89-104 | the outer loop of `fmt` writes exactly the rendered layer |
| LayeredImage.ShowRow | src/image.rs:92-98 | the inner loop writes exactly one row's cells |
| LayeredImage.RowTextIndex | src/image.rs:92-98 | with single-digit pixels, a row's text is one character per pixel, a space for 0 |
| LayeredImage.JoinedIndex | src/image.rs:91-100 | lines of equal length, each ended by a newline, form a grid |
| LayeredImage.RenderFromJoined | src/image.rs:91-100 | the rendered rows are the rows' texts, each followed by a newline |
| LayeredImage.RenderIndex | src/image.rs:89-104 | with single-digit pixels the picture is height lines of width characters, each followed by a newline, with pixel x, y at line y column x |
| LayeredImage.Pixel | src/image.rs:59-72 | no contract of its own: `pixel` on an in-range position, the byte less the offset; LayeredImage.PixelsIndex states where `pixels` yields it |
| LayeredImage.Visible | src/image.rs:43-57 | no contract of its own: the pixel seen through the layers; LayeredImage.VisibleIs and LayeredImage.FlattenedPixel state its value |
| LayeredImage.Render | src/image.rs:89-104 | no contract of its own: `Display for Layer`; LayeredImage.RenderIndex and LayeredImage.RenderFromJoined state the text |
| SpaceImage.Dimensions | src/q8.rs:12-17 | either part gives its own width and height |
| SpaceImage.Occurrences | src/q8.rs:31 | a count of matching pixels is at most the number of pixels |
| SpaceImage.OccurrencesIsMultiplicity | src/q8.rs:31 | the count is the value's multiplicity among the pixels |
| SpaceImage.TallyCounts | src/q8.rs:34-37 | the fold counts ones in its first slot and twos in its second (the slot named `zeroes`) |
| SpaceImage.MinFromIsFirstMinimum | src/q8.rs:29-32 | the fold behind `min_by_key` ends at the first smallest key |
| SpaceImage.MinByKey | src/q8.rs:29-32 | `min_by_key` is none iff there are no layers, else the first layer with the fewest zeros |
| SpaceImage.FirstMinimumUnique | src/q8.rs:29-32 | the first smallest key is unique |
| SpaceImage.ZeroCounts | src/q8.rs:31 | the number of zeros of each layer, in layer order |
| SpaceImage.NoLayersIffEmpty | src/q8.rs:25-32 | a parsed image has no layers exactly when the input is empty |
| SpaceImage.LayerChecksum | src/q8.rs:34-39 | the product of the fold is the layer's ones times its twos |
| SpaceImage.Checksum | src/q8.rs:24-39 | succeeds iff the image parses and the input is not empty; a bad image is reported; the `unwrap` fails iff the area is positive and the input empty; a success is ones times twos of the first layer with fewest zeros |
| SpaceImage.Decoded | src/q8.rs:24-42 | succeeds iff the image parses and the input is not empty; the same errors (now from `flatten`'s underflow); a success is the flattened image's only layer as displayed |
| SpaceImage.Run | src/q8.rs:20-47 | `run` after reading the input prints the decimal checksum (part A) or the decoded picture (part B) |
| SpaceImage.DigitPixels | src/image.rs:59-61 | a layer of digit characters has pixels 0 to 9 |
| SpaceImage.FlattenedDigits | src/image.rs:43-57 | flattening digit characters leaves single digits |
| SpaceImage.DecodedShows | src/q8.rs:41-43 | on digit input the picture is height lines of width characters and a newline; x, y shows the visible pixel there, a space for 0 |
| SpaceImage.Answer | src/q8.rs:24-44 | no contract of its own: what `run` prints for each part; SpaceImage.Checksum, SpaceImage.Decoded and SpaceImage.Run state it |

## Left out

- Standard input, `println!`, the `main` dispatcher and the command-line
  options parser are not modelled. Input arrives as values, and the answer
  is returned instead of printed.
- Day 5 and day 9 (`src/q5.rs`, `src/q9.rs`) are not part of this model.
- The `Computer` type of `src/intcode.rs` that days 2 and 7 call is not part
  of this model. Its internals, and its `Step`, are not shown. Day 2 takes
  the run as a function from overrides to a result. Day 7 takes a step
  function that reports how much input it used and what it did.
- Integer overflow is not modelled, because integers are unbounded. This
  covers the i64 `+` and `*` of Intcode and the sums of days 1, 3 and 6. It
  also covers the `u8` subtraction in `pixel`, which underflows on a byte
  below `'0'`; the model subtracts in `int`.
- The bytes of the image are modelled as integers 0..255. The UTF-8 text the
  source reads them from is not modelled, so a non-ASCII input is outside
  the model.
- Day 3's text parsing is reduced to whole tokens (`ParseShift`). The
  `nom` combinators, the newline between the two wires and the error
  messages are not modelled.
- `HashMap` and `HashSet` iteration order is not modelled. A body's
  children are kept as a list without duplicates, in input order. `count`
  sums over them, so their order does not change its value.
- The line splitting of day 6 (`split(")")` and its `unwrap`s) is not
  modelled. The orbits arrive as pairs of bodies.
- Intcode.Execute: the run is bounded by `fuel` instructions. The source
  recurses until it halts or crashes, and a run that never stops ends as
  `Running` in the model.
- Amplifiers.Compute: the outer and inner loops are bounded by `fuel` step
  calls. A run that loops forever in the source ends in an `OutOfFuel`
  fault.
- OrbitMap.Count: requires a rank that strictly decreases down the orbit
  map, so the map is acyclic. On a cyclic map the source recurses without
  end.
- OrbitMap.Parents: requires a rank that strictly decreases up the map. On a
  cyclic map `successors` never ends.
- OrbitMap.Transfer: requires the two ancestor chains to differ. When they
  are equal, `skip_while` never finds a difference and the source loops
  forever.
- LayeredImage.Pixel: requires x < width and y < height. The source's
  public `Layer::pixel` would read another position or panic; every caller
  in the source stays in range.
- LayeredImage.Flatten: requires at least one layer. On an empty image the
  source's `self.layers - 1` underflows and panics. `SpaceImage.Decoded`
  reports this as `NoLayers`.
- Intersections of collinear segments are not found. This is what the source
  does too (it notes such overlaps do not occur in its input).
- CrossedWires.Solve: part B deliberately differs from the source as
  written. It takes the minimum over the corrected delay
  (`MinimumWireDelay`), not over `delay` as written (`MinimumDelay`); see
  Findings.

## Findings

| source | as written | input that shows it | evidently intended | confidence | as-written member | corrected member |
|---|---|---|---|---|---|---|
| src/q3.rs:145-157 | `lines` (src/q3.rs:86, :95, :103) stores each segment's lesser end and the absolute distance. So `delay`'s `distance < 0` arms never apply, and for an L or U segment the steps are counted from the far end | one wire `L5` crossing at (-2, 0): `delay` gives 3, but the wire reaches the point after 2 steps | the number of steps the wire walks to reach the point | high; not executed | CrossedWires.DelayCountsFromFarEnd | CrossedWires.WalkReaches |

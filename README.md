# bf-rust core in Dafny

This project models the compile-then-execute core of `bf-rust` (`src/main.rs`).
That file is an interpreter for an eight-command esoteric language, and the
model covers each of its stages:

- **Tokens** (`tokens.dfy`): `BfToken` with its count-ignoring `PartialEq`, the
  `From<char>` lexer and the `filter_map` that drops non-commands.
- **Fusion** (`fusion.dfy`): the `fold` seeded with `vec![NAN]`. It sums the counts of
  adjacent `INC`, `DEC`, `LEF` and `RIG` tokens. `Fused` is the fold as a
  function on prefixes and `Fuse` is the loop that computes it. The lemmas
  prove:
  - no runs are left;
  - control tokens are kept in order;
  - per-kind totals are kept;
  - fusion is idempotent.
- **Brackets** (`brackets.dfy`): the resolver, a stack of pending `JUM`
  indices that fills a symmetric jump table. `Resolve` is proved against a
  depth function:
  - it succeeds exactly on balanced streams;
  - on success it returns the unique table that pairs each `JUM` with the
    `BAC` where the depth first returns;
  - a stray `BAC` is reported at the first point where the depth would go
    below zero;
  - the unclosed `JUM`s are reported in push order, and they are exactly the
    ones never closed.
- **Machine** (`machine.dfy`): the interpreter loop over a growable `u8` tape.
  - `Step` is one iteration as a function;
  - `Run` iterates `Step` under a step budget;
  - `Tick` is the loop body and `Execute` the loop, each proved equal to
    `Step` and `Run`.

  Per-instruction lemmas give each token's effect, and `RunResolved` shows
  that under the resolver's table the only possible run-time panic is the
  `LEF` underflow.
- **Pipeline** (`pipeline.dfy`): `from_source` as `FromSource`, and `parse`
  from the console line onwards as `Interpret`, plus concrete programs, each
  compiled and run: among them the multiplication loop
  `++++++++[>++++++++<-]>.`, which prints 64.

Where the program's behaviour departs from the usual reading of the language,
the model follows the program:

- The fold's seed `NAN` stays at index 0 of the token stream. Every index the
  resolver reports is therefore one more than the bracket's position in the
  fused stream without its seed: `]` fails at index 1 and `[` reports `[1]`
  (see `Pipeline.StrayCloseAtOne` and `Pipeline.UnclosedAtOne`). Since runs
  are merged first, this is not the position among the commands: `++]` fuses
  to `[NAN, INC(2), BAC]` and fails at index 2. The empty program also takes
  one step, over the sentinel.
- `LEF(N)` with `N` greater than the head position does not grow the tape to
  the left: the executor panics. This is the finding below.
- `RIG(N)` appends `N` zero cells whenever the head reaches or passes the end.
  A fused `RIG(a + b)` can therefore leave a different number of trailing
  zero cells than `RIG(a)` followed by `RIG(b)`. `Machine.RightCompose` states
  what does hold: the head position is the same, and the tapes agree up to
  trailing zeros.
- The input vector is the console line reversed and is popped from its end.
  The `,` commands therefore read the line front to back
  (`Pipeline.ReadsInOrder`).

## Model

| member | source | states |
|---|---|---|
| Tokens.Same | src/main.rs:14-29 | two tokens are equal exactly when they have the same kind, whatever their counts |
| Tokens.SameUncounted | src/main.rs:14-29 | for a kind without a count, the custom equality is plain equality |
| Tokens.FromChar | src/main.rs:31-45 | a character maps to a token other than `Nan` exactly when it is one of the eight commands; counted tokens carry count 1 |
| Tokens.FromCharRoundTrip | src/main.rs:31-45 | on commands, `FromChar` is inverted by the character each kind is written with |
| Tokens.Commands | src/main.rs:50 | the kept characters are commands and no more than the source |
| Tokens.Lex | src/main.rs:50 | the token stream has one entry per command character, in source order, each the `From<char>` image of that character |
| Tokens.LexIsCommands | src/main.rs:50 | lexing never yields `Nan`, yields count 1 for counted kinds, and spells the command characters back |
| Tokens.LexAppend | src/main.rs:50 | lexing a concatenation is concatenating the lexings |
| Tokens.Contains | src/main.rs:88 | `contains` finds a token of the probe's kind, through the count-ignoring equality |
| Fusion.Absorb | src/main.rs:52-60 | when the last entry and the next token are counted tokens of the same kind, the last entry is overwritten with the summed count; otherwise the next token is pushed |
| Fusion.Fused | src/main.rs:51-61 | the fold's result starts with the `Nan` seed and is at most one longer than its input |
| Fusion.Fuse | src/main.rs:51-61 | the fold loop computes `Fused` |
| Fusion.FusedHasNoRuns | src/main.rs:51-61 | no two adjacent entries of the fused stream are mergeable |
| Fusion.FusedKeepsControls | src/main.rs:58 | brackets, `ACC` and `OUT` survive fusion unchanged, in order and number |
| Fusion.FusedKeepsTotals | src/main.rs:54-57 | for every kind, the summed counts of the fused stream equal those of the input |
| Fusion.FusedOfRunFree | src/main.rs:51-61 | a stream with nothing mergeable comes out of the fold unchanged behind the seed |
| Fusion.FuseIdempotent | src/main.rs:51-61 | fusing the fused stream again, behind its seed, changes nothing |
| Brackets.Resolve | src/main.rs:62-75 | success exactly on balanced streams. On success the map is a jump table: symmetric, keys exactly the brackets, each `JUM` mapped to the `BAC` where the depth first returns. A stray `BAC` is reported at the first point the depth would go negative. Otherwise the leftover indices are non-empty, increasing, and exactly the unclosed `JUM`s |
| Brackets.ScanInvariant | src/main.rs:64-74 | after any prefix, the pass is either still scanning, with the stack holding exactly the open `JUM`s in push order and the table pairing every closed bracket, or it has stopped at the first underflow, which makes the stream unbalanced |
| Brackets.JumpTableUnique | src/main.rs:69-70 | two jump tables for the same stream are equal, so the resolver's table is determined by the stream |
| Machine.WrappingIsModular | src/main.rs:104-105 | `wrapping_add(N as u8)` and `wrapping_sub(N as u8)` are addition and subtraction of `N` modulo 256 |
| Machine.FusedCellIsRepeated | src/main.rs:104-105 | a fused `INC(N)`/`DEC(N)` does to a cell what `N` single `+`/`-` steps do |
| Machine.AddCompose | src/main.rs:54 | `INC(a)` then `INC(b)` on a cell equals `INC(a + b)`, so merging counts is sound |
| Machine.SubCompose | src/main.rs:57 | `DEC(a)` then `DEC(b)` on a cell equals `DEC(a + b)` |
| Machine.MoveRight | src/main.rs:101-102 | the head moves right by `N` and stays on a cell; the tape grows by `N` cells exactly when the head would reach or pass its end; old cells are kept and new ones are zero |
| Machine.RightCompose | src/main.rs:56 | `RIG(a)` then `RIG(b)` puts the head where `RIG(a + b)` does, with tapes equal up to trailing zero cells |
| Machine.Init | src/main.rs:82-85 | the run starts on a single zero cell, head and index at 0, no output, and the given input pending |
| Machine.Step | src/main.rs:100-112 | a step that succeeds keeps the head on a cell and never shrinks the tape; a step that fails reports the index it failed at |
| Machine.StepRight | src/main.rs:101-102 | `RIG(N)` always succeeds, moves the head by `N`, keeps old cells, adds only zero cells and advances the index by one |
| Machine.StepLeft | src/main.rs:103 | `LEF(N)` succeeds exactly when `N` is at most the head position, moving the head left by `N`; otherwise it panics with `PointerUnderflow` |
| Machine.StepCell | src/main.rs:104-105 | `INC(N)`/`DEC(N)` change only the cell under the head, to its value plus/minus `N` modulo 256 |
| Machine.StepJump | src/main.rs:106-107 | a taken bracket continues just past its table entry and panics exactly when the entry is missing; one not taken falls through |
| Machine.StepRead | src/main.rs:108 | `ACC` moves the last pending input byte into the cell and drops it from the input, or stores 0 once the input is empty |
| Machine.StepWrite | src/main.rs:109 | `OUT` appends the cell under the head to the output and changes nothing else |
| Machine.StepNan | src/main.rs:110-112 | the sentinel `NAN` only advances the index: tape, head, input and output are unchanged |
| Machine.StepFaults | src/main.rs:103-107 | a step panics exactly on a `LEF` past the first cell or on a taken bracket that has no table entry |
| Machine.Run | src/main.rs:99-114 | a halted run is past the last token; a stuck run stopped at a state whose step fails with the reported fault |
| Machine.Tick | src/main.rs:100-112 | the loop body computes `Step` |
| Machine.Execute | src/main.rs:97-114 | the loop, bounded by `maxIter` iterations, ends as `Run` from the initial state does |
| Machine.StepResolved | src/main.rs:106-107 | under the resolver's table a step only panics on `LEF`; a taken `JUM` resumes just past the `BAC` that closes it, and a taken `BAC` just past the `JUM` it closes |
| Machine.RunResolved | src/main.rs:99-114 | a run under the resolver's table never lacks a jump target, and halts exactly at the end of the tokens |
| Machine.RunFuelMonotone | src/main.rs:99-114 | a run that ends within its budget ends the same way under any larger budget |
| Machine.RunExtends | src/main.rs:109 | whatever the outcome, the output only grows by appending, the tape never shrinks and the head stays on a cell |
| Machine.LeftPastStartFaults | src/main.rs:103 | as written, `LEF(1)` with the head on the first cell panics instead of growing the tape |
| Machine.MoveLeft | src/main.rs:103 | the intended left move keeps the head on a cell, growing the tape by `N` exactly when the head would pass the first cell |
| Machine.MoveLeftLands | src/main.rs:103 | after the intended left move, the head is `N` cells left of where it was (measured from the old first cell), old cells keep their contents and new cells are zero |
| Machine.MoveLeftAgrees | src/main.rs:103 | wherever the executor does not panic on `LEF(N)`, it moves exactly as the intended left move does |
| Pipeline.FromSource | src/main.rs:48-78 | compilation yields `Fused(Lex(code))` and a jump table exactly when that stream is balanced. Otherwise it yields the resolver's error with the same guarantees as `Resolve`: the first underflow, or a stream that never underflows with a non-empty, increasing list of exactly the unclosed `JUM`s |
| Pipeline.Reversed | src/main.rs:93 | the stored input is the console line back to front |
| Pipeline.ReadsInOrder | src/main.rs:108 | on the reversed line, the first `ACC` reads the line's first byte and leaves the rest of the line, still reversed |
| Pipeline.Interpret | src/main.rs:81-114 | the program runs exactly when it compiles, and then a jump table for the fused stream exists. Input is the reversed line only if the program contains `,`. The outcome is the run under that table, whichever table it is; it only panics on `LEF` and halts at the end of the tokens. A compile error carries the same guarantees as in `FromSource` |
| Pipeline.LexCons | src/main.rs:50 | a leading command character lexes to its token in front of the lexing of the rest |
| Pipeline.FusedSnoc | src/main.rs:51-61 | folding one more token is one more `Absorb` on the fold of the tokens before it |
| Pipeline.FusedPush | src/main.rs:58 | a token that does not merge with the fold's last entry is appended to the fold |
| Pipeline.FusedOnes | src/main.rs:52-53 | a run of `k` `+` after a fold not ending in `INC` becomes the single token `INC(k)` |
| Pipeline.TwoCommands | src/main.rs:50-61 | two command characters whose tokens do not merge compile to the seed followed by their two tokens |
| Pipeline.EmptyProgram | src/main.rs:82-85 | the empty source compiles to the lone sentinel and halts after one step with tape `[0]` and no output |
| Pipeline.IncrementsFuse | src/main.rs:51-61 | `+++.` fuses to `[Nan, Inc(3), Out]` |
| Pipeline.IncrementThenPrint | src/main.rs:104-109 | the fused `+++.` halts with tape `[3]` and output `[3]` |
| Pipeline.DecrementWraps | src/main.rs:105 | `-.` compiles to `[NAN, DEC(1), OUT]`, wraps the zero cell to 255 and prints it |
| Pipeline.LeftOfStartPanics | src/main.rs:103 | `<.` compiles to `[NAN, LEF(1), OUT]` and panics at index 1 with the tape `[0]` |
| Pipeline.ReadEchoesFirstByte | src/main.rs:108 | `,.` compiles to `[NAN, ACC, OUT]`; on the line `AB` it reads and prints `A`, leaving `B` pending |
| Pipeline.MultiplyCompiles | src/main.rs:48-75 | `++++++++[>++++++++<-]>.` compiles to `[NAN, INC(8), JUM, RIG(1), INC(8), LEF(1), DEC(1), BAC, RIG(1), OUT]` with the `JUM` at 2 paired with the `BAC` at 7, and contains no `,` |
| Pipeline.LoopPass | src/main.rs:104-107 | one pass of the loop body with the counter above 1 adds 8 to cell 1, lowers the counter by one and jumps back, in five steps |
| Pipeline.LoopRuns | src/main.rs:97-114 | from the body's first `+` with counter `c`, the run ends within `5 * c + 1` steps with tape `[0, 64]` and output `[64]` |
| Pipeline.MultiplyPrints64 | src/main.rs:97-114 | the multiplication program halts within 45 steps, having taken the backward jump seven times, with tape `[0, 64]`, the head on cell 1 and output `[64]` |
| Pipeline.StrayCloseAtOne | src/main.rs:68 | `]` is unbalanced and its first underflow is at index 1 and nowhere else |
| Pipeline.UnclosedAtOne | src/main.rs:75 | `[` is unbalanced and index 1 is its only unclosed bracket |

## Left out

- Reading `code.txt` (line 122), the console prompt and `read_line` (lines 89-91), and printing the tape, the output and the timings (lines 76, 116-118) are I/O. `Interpret` takes the console line as a parameter and returns the outcome.
- `SystemTime` timing (lines 49, 76, 96, 118) is not modelled.
- The numeric branch of the input parsing (line 92), `string.parse::<u8>()`, is not modelled. `Interpret` always takes the non-numeric branch of line 93. The line arrives as bytes, so the `x as u8` truncation of each character is assumed done by the caller.
- The `iter` counter (lines 98, 113) is only printed, so it is not modelled. `MAX_ITER` (line 7) is never used by the program.
- Machine.Execute: takes a step budget `maxIter` and returns `OutOfFuel` when it runs out, whereas the source loop has no bound at all; a run that does not end is only described up to any finite budget.
- Machine.Step: models a debug build, where `pointer - N` on `usize` panics at once. A release build wraps the pointer instead and fails at the next cell access, unless a later `RIG` wraps the pointer back into range (as in `<>.`).
- `usize` overflow of the summed counts (lines 54-57) and of `pointer + N` (line 101) is not modelled: counts and positions are unbounded naturals.
- The output is kept as bytes, where the source keeps `u8 as char`; that conversion is one-to-one.
- The panic messages' text (lines 68, 75) is not modelled; the panics are error values carrying the same index and queue.
- The `HashMap` internals (line 62) are not modelled; the table is a Dafny `map`.
- Fusion's soundness for whole programs, that running the fused stream equals running the unfused one, is not stated. The model states it per instruction (`AddCompose`, `SubCompose`, `FusedCellIsRepeated`, `RightCompose`). Two fused `LEF` moves are plain subtraction of the head position.

## Findings

| source | as written | input that shows it | evidently intended | confidence | as-written member | corrected member |
|---|---|---|---|---|---|---|
| src/main.rs:103 | the guard `pointer - N >= 0` is on an unsigned `usize`, so it is always true. The subtraction underflows and panics whenever `N` exceeds the head position, and the branch that splices `N` zero cells in front of the tape can never run | `<.`: after the sentinel, `LEF(1)` with the head on the first cell panics at index 1 | when the head would pass the first cell, prepend `N` zero cells and keep the head index, so that the head lands on the requested cell `N` to the left | not executed | Machine.LeftPastStartFaults | Machine.MoveLeft |

The executor `Step` keeps the as-written behaviour, so every run the model describes is the program's own. The corrected `MoveLeft` is proved to land on the requested cell (`Machine.MoveLeftLands`). `Machine.MoveLeftAgrees` proves that it coincides with `Step` wherever `Step` does not panic.

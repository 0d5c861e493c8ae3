# bf-interpreter, modelled in Dafny

A model of the core of `bf-interpreter`, a Brainfuck interpreter. The core has two parts.

- **The lexer** turns program text into the eight Brainfuck tokens and skips every other character. Its `cursor` field only moves forward.
- **The engine** runs the tokens on a 30000-cell byte tape.
  - `<` and `>` are bounds-checked. `+` and `-` wrap modulo 256. `,` reads one byte. `.` writes the current cell.
  - `[` scans for its matching `]` with a nesting counter. It then hands a copy of the body to `handle_loop`, which runs it while the current cell is nonzero.
  - A trace stack (`stack_info`) holds one frame for the top-level run and one more per active loop. Before each token, the top frame is overwritten with (cell, token, index), the index counted in the token sequence being run, which inside a loop is the loop body.
  - On an error, the trace is reversed and reported, innermost frame first.

How the engine treats loops differs from the textbook: `handle_loop` takes the data cursor by value and returns nothing. Execution after the `]` therefore continues with the cursor the `[` was reached with, and every move made in the body is discarded. The model keeps this behaviour. `Scenarios.LoopDiscardsMoves` shows it on `+[->]<`, which underflows.

Modules:

- `Tokens`: the token type.
- `Lexing`: the character table, `TokensOf` as a pure filter-map, and the class `Lexer` whose `Tokenize` loop is proved to compute `TokensOf`.
- `Tape`: cells as the newtype `byte`, the zero tape, and wrapping increment and decrement.
- `Brackets`: nesting levels, `MatchingExit` (the `]` that matches a `[`), and the scanning loop `ScanForExit`.
- `Semantics`: the engine as functions over a `Machine` (tape, unread input, written output, trace). It also holds the lemmas about them:
  - the streams only advance;
  - the trace is restored on success. On a fault, the frames from the top-level run inward form a chain: each `[` frame is followed by the frames of its matched body, and the chain ends at the failing token;
  - fuel only cuts runs off;
  - loop entry and exit behave as described above.
- `Engine`: the class `Interpreter`. It holds the lexer, the trace, the input and the output. `Execute` and `HandleLoop` are mutually recursive methods over an `array<byte>` tape, proved equal to `Semantics.Run` and `Semantics.Loop`. `Interpret` lexes, runs, and reverses the trace on a reported error.
- `Scenarios`: small programs run from the initial machine.

Brainfuck programs need not terminate. The model therefore gives each loop activation (one call of `handle_loop`) a budget of `fuel` iterations. Running out of it is the model-only outcome `OutOfFuel`, reported as `Unfinished`. `Semantics.RunFuelMonotone` proves that a run which is not cut off ends the same way under any larger budget.

## Model

| member | source | states |
|---|---|---|
| `Lexing.TokenOf` | src/interpreter/lexer.rs:18-30 | exactly the eight characters `<>+-.,[]` give a token, every other character is dropped, and only `[` and `]` give the bracket tokens |
| `Lexing.Symbol` | src/interpreter/lexer.rs:18-26 | every token has a character that the table maps to it |
| `Lexing.TableIsInjective` | src/interpreter/lexer.rs:18-26 | a character maps to a token exactly when it is that token's symbol, so the eight symbols are distinct |
| `Lexing.TokensOf` | src/interpreter/lexer.rs:27-30 | other characters give no token, so there are never more tokens than characters (and none for empty text) |
| `Lexing.TokensOfAppend` | src/interpreter/lexer.rs:17-34 | lexing `a + b` gives the tokens of `a` followed by the tokens of `b` |
| `Lexing.CommentsYieldNothing` | src/interpreter/lexer.rs:27-30 | text without any of the eight symbols gives no tokens |
| `Lexing.InsertedCommentIsInvisible` | src/interpreter/lexer.rs:17-34 | inserting comment text anywhere leaves the tokens unchanged |
| `Lexing.TokensOfRender` | src/interpreter/lexer.rs:18-32 | lexing the symbols of a token sequence returns that sequence, in order |
| `Lexing.TokensAreTheOpcodes` | src/interpreter/lexer.rs:17-34 | the tokens are the opcode characters of the text, one each, in source order |
| `Lexing.Lexer.constructor` | src/interpreter/lexer.rs:9-12 | a new lexer holds the text and starts at cursor 0 |
| `Lexing.Lexer.Tokenize` | src/interpreter/lexer.rs:14-37 | the loop moves `cursor` to the end of the text and returns `TokensOf` of the text from the old cursor |
| `Lexing.TokenizeTwice` | src/interpreter/lexer.rs:9-37 | a fresh lexer returns all tokens of the text, and a second call on the same lexer returns none |
| `Tape.Zeros` | src/interpreter/interpreter.rs:25 | the tape has 30000 cells, all zero |
| `Tape.Inc` | src/interpreter/interpreter.rs:76-82 | `+` gives the cell plus one modulo 256 (255 becomes 0) |
| `Tape.Dec` | src/interpreter/interpreter.rs:83-89 | `-` gives the cell minus one modulo 256 (0 becomes 255) |
| `Tape.IncDecCancel` | src/interpreter/interpreter.rs:76-89 | `-` undoes `+` and `+` undoes `-` on every byte |
| `Tape.IncTimesWraps` | src/interpreter/interpreter.rs:76-82 | n increments add n modulo 256 |
| `Tape.FullTurn` | src/interpreter/interpreter.rs:76-82 | 256 increments return a cell to its value |
| `Brackets.ScanFrom` | src/interpreter/interpreter.rs:105-112 | scanning on from a level finds the first later index where the level reaches 0, which holds a `]`, or reports that there is none |
| `Brackets.MatchingExit` | src/interpreter/interpreter.rs:100-112 | the match of a `[` is the first later index where the nesting level returns to 0, and it holds a `]`; none means the level never returns to 0 |
| `Brackets.ScanForExit` | src/interpreter/interpreter.rs:101-112 | the counting loop finds exactly `MatchingExit`, and returns none where the source would index past the tokens |
| `Brackets.MatchedBodyIsBalanced` | src/interpreter/interpreter.rs:103-126 | the body between a `[` and its match is balanced: every prefix is at level 0 or more, and the whole body is at level 0 |
| `Brackets.InnermostPairMatches` | src/interpreter/interpreter.rs:105-112 | a `[` whose next bracket is a `]` is matched by that `]` |
| `Semantics.Step` | src/interpreter/interpreter.rs:64-99 | the faults are exactly `<` at cell 0, `>` at cell 29999, and `,` on empty input. A fault changes nothing and names its token. Otherwise `<`/`>` move by exactly one and stay on the tape. Only the current cell can change: `+`/`-` modulo 256, `,` stores the first input byte and consumes it, `.` appends exactly the cell to the output |
| `Semantics.StepStreams` | src/interpreter/interpreter.rs:90-99 | a single token only consumes input from the front and only appends to the output |
| `Semantics.SetTop` | src/interpreter/interpreter.rs:53-61 | overwriting the top frame keeps the trace's length, puts the new frame on top and leaves every frame below it as it was |
| `Semantics.FramesInShape` | src/interpreter/interpreter.rs:116-124 | a chain of fault frames is non-empty, every frame is filled in and on the tape, all but the last record a `[`, and the last records the failing token |
| `Semantics.Run` | src/interpreter/interpreter.rs:43-138 | running tokens keeps a 30000-cell tape; on success the data cursor is on the tape and the trace has its entry length |
| `Semantics.StepAt` | src/interpreter/interpreter.rs:63-99 | a non-bracket token keeps the tape size; on success the cursor is on the tape and the trace length is unchanged |
| `Semantics.EnterLoopAt` | src/interpreter/interpreter.rs:100-132 | a `[` keeps the tape size; on success the trace length is unchanged |
| `Semantics.Loop` | src/interpreter/interpreter.rs:140-152 | on success a loop returns the cursor it was entered with and a trace of its entry length (the push is matched by the pop) |
| `Semantics.Iterate` | src/interpreter/interpreter.rs:147-149 | the iterations end only on a zero current cell, with the trace length unchanged |
| `Semantics.RunKeeps` | src/interpreter/interpreter.rs:53-61 | input is only consumed from the front and output only appended. The frames below the top are untouched. On a fault, the frames from the top down form a chain (`FramesIn`). Each frame holds a token at its own index in the sequence being run. Each frame but the last is a `[` with a matching `]`, and the next frame lies in that loop's body. The last frame is the failing token: at cell 0 for an underflow, at the last cell for an overflow, and a `[` with no match for the unmatched-bracket error |
| `Semantics.StepAtKeeps` | src/interpreter/interpreter.rs:63-99 | the same stream and trace facts for a non-bracket token whose frame is already on top; a faulting token leaves its own frame as the whole chain |
| `Semantics.EnterLoopAtKeeps` | src/interpreter/interpreter.rs:116-131 | the same facts for a `[`. When its body faults, the whole entry trace stays below the body's frames, with the `[` frame (cell, `[`, index) on top of it, so the chain runs from that frame into the body |
| `Semantics.LoopKeeps` | src/interpreter/interpreter.rs:140-152 | a loop that succeeds leaves the trace exactly as it found it. A loop that fails keeps the entry trace and puts above it a chain of frames in its body, as `FramesIn` describes |
| `Semantics.IterateKeeps` | src/interpreter/interpreter.rs:147-149 | the same stream and trace facts across repeated passes of the body, with fault chains taken in the body |
| `Semantics.RunFuelMonotone` | src/interpreter/interpreter.rs:147-149 | a run that is not cut off by the iteration bound has the same outcome under any larger bound |
| `Semantics.StepAtFuelMonotone` | src/interpreter/interpreter.rs:63-99 | the same for a run that continues after a non-bracket token |
| `Semantics.EnterLoopAtFuelMonotone` | src/interpreter/interpreter.rs:100-132 | the same for a run that continues after a `[` |
| `Semantics.LoopFuelMonotone` | src/interpreter/interpreter.rs:140-152 | the same for one loop activation |
| `Semantics.IterateFuelMonotone` | src/interpreter/interpreter.rs:147-149 | the same for the remaining iterations, with both the bound and the iterations left raised |
| `Semantics.ZeroCellSkipsLoop` | src/interpreter/interpreter.rs:146-151 | a loop entered on a zero cell runs its body zero times and changes nothing |
| `Semantics.LoopResumesAfterExit` | src/interpreter/interpreter.rs:126-131 | after a loop that succeeds, execution continues after the matching `]` with the data cursor of the `[`; moves made in the body are discarded |
| `Semantics.ZeroCellJumpsPastExit` | src/interpreter/interpreter.rs:100-131 | a `[` on a zero cell continues after its `]` with the same tape, streams and cursor |
| `Semantics.ExitLoopsAreNoOps` | src/interpreter/interpreter.rs:133-135 | a `]` outside a loop only advances the token index; a run of them finishes with the machine unchanged except for the top frame |
| `Semantics.PlusThenMinusRestores` | src/interpreter/interpreter.rs:76-89 | `+` followed by `-` continues with the tape it started with |
| `Engine.Reverse` | src/interpreter/interpreter.rs:26 | the reversed trace has the same length, with frame i taken from position length-1-i |
| `Engine.ReverseTwice` | src/interpreter/interpreter.rs:26 | reversing the reversed trace gives back the trace, so the report loses and reorders no frame |
| `Engine.ExitOf` | src/interpreter/interpreter.rs:25-39 | a finished run completes. The three program errors are reported with their fault and the reversed trace, as the error branch that exits with code 1 does. An unmatched `[` is the panic, and a run cut off by the fuel bound is unfinished |
| `Engine.Initial` | src/interpreter/interpreter.rs:24-25 | the run starts on cell 0 of a zero tape, with the whole input unread, no output and one blank frame; `InterpretProgram` ties this start to `Interpret` |
| `Engine.ReportIsInnermostFirst` | src/interpreter/interpreter.rs:24-26 | read back to front, the frames of a reported error form the chain of `FramesIn` over the program: one frame for the top-level run and one per enclosing loop, each at its own index and on the tape; the failing frame is at cell 0 for an underflow and cell 29999 for an overflow. Printed, they start with the failing token, followed by the `[` of each enclosing loop, innermost first |
| `Engine.ReversedFrames` | src/interpreter/interpreter.rs:26 | reversing a chain of fault frames puts the failing token first and the `[` frames after it, and reversing again restores the chain |
| `Engine.Interpreter.constructor` | src/interpreter/interpreter.rs:14-20 | a new interpreter holds a lexer at cursor 0 over the text and an empty trace |
| `Engine.Interpreter.Interpret` | src/interpreter/interpreter.rs:22-41 | lexes the rest of the text and pushes a blank frame. It runs on a zero tape from cell 0. It ends with the outcome of `Run`, and leaves the trace reversed exactly when an error is reported |
| `Engine.Interpreter.Execute` | src/interpreter/interpreter.rs:43-138 | the token loop over the array tape and the trace field produces exactly the outcome and state of `Semantics.Run` |
| `Engine.Interpreter.Perform` | src/interpreter/interpreter.rs:64-99 | the six non-bracket arms of the token `match` update the array tape, the cursor and the streams exactly as `Semantics.Step` says, and fail where it faults |
| `Engine.InterpretProgram` | src/interpreter/interpreter.rs:14-41 | a new interpreter over a text, asked to interpret, ends as `Run` of all the text's tokens from `Initial` says, and writes that run's output |
| `Engine.Interpreter.HandleLoop` | src/interpreter/interpreter.rs:140-152 | the push, iterate and pop produce exactly the outcome and state of `Semantics.Loop`, and the cursor is not handed back |
| `Scenarios.LoopDiscardsMoves` | src/interpreter/interpreter.rs:126-152 | `+[->]<` underflows at cell 0, because the `>` in the body is forgotten when the loop ends |
| `Scenarios.EchoCopiesOneByte` | src/interpreter/interpreter.rs:90-99 | `,.` writes exactly the first input byte and consumes exactly that byte |
| `Scenarios.ReadPastEndFaults` | src/interpreter/interpreter.rs:95-99 | `,` with no input left is the input error, with its frame on the trace |
| `Scenarios.MoveLoopTransfersValue` | src/interpreter/interpreter.rs:100-152 | `++[>+<-]` finishes on cell 0 with 0 in cell 0 and 2 in cell 1 |
| `Scenarios.EmptyBodySpins` | src/interpreter/interpreter.rs:147-149 | `[]` on a nonzero cell uses up any iteration bound without changing the machine |
| `Scenarios.BusyLoopNeverEnds` | src/interpreter/interpreter.rs:147-149 | `+[]` is cut off under every bound |

## Left out

- `src/main.rs` and `src/cli.rs`: reading the program file, parsing arguments, and the process exit codes are I/O plumbing and are not part of this model.
- Standard input and output are the byte sequences `input` (still to be read) and `output` (written so far). Flushing, and `read_exact` errors other than end of input, are not modelled.
- `.` prints `char::from(cell)`, which is UTF-8 encoded, so a cell value of 128 or more becomes two bytes on the real stream. The model records the cell value itself.
- The error report's text is not modelled: the `println!` formatting, ANSI colours, the "in loop body" join, and the `Debug` rendering of tokens. The model keeps the error kind and the reversed frames as (cell, token, index) values, and `process::exit(1)` becomes the exit value `Reported`.
- A `[` without a matching `]` makes the source index past the end of the tokens and panic. The model makes this the fault `UnmatchedEnterLoop`, which `Interpret` turns into the exit value `Panicked`. Like the panic, it does not reverse or report the trace.
- Non-termination is cut off by the per-activation iteration bound `fuel`, which the source does not have. Runs that the bound cuts off end in `Unfinished`. What such a program would do after the bound is not modelled.
- `Engine.Interpreter.Execute` and `Engine.Interpreter.HandleLoop` require a non-empty trace. The source's fallback to index 0 on an empty trace would panic, but it cannot happen, because `interpret` pushes a frame before the first call.
- At a `[` the source writes the top frame twice (lines 58 and 121) with the same value. The model writes it once.
- `Engine.ReportIsInnermostFirst` bounds the cell of a `[` frame and of a failing `,` frame by the tape size only: it does not tie that cell to the data cursor at the moment the token ran. Only the pointer faults fix the cell of their frame.
- Indices and the data cursor are unbounded naturals. No `usize` overflow can occur, because the cursor stays below 30000 and token indices below the token count.

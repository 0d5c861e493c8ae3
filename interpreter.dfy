/**
  The interpreter object (src/interpreter/interpreter.rs): it owns the lexer
  and the trace stack `stack_info`; `execute` and `handle_loop` walk the
  tokens over a tape array passed by reference, as in the source, and are
  proved to compute what `Semantics.Run` and `Semantics.Loop` say.

  Standard input and output are the fields `input` (bytes not yet read) and
  `output` (bytes written so far). `fuel` bounds the iterations of each loop
  activation; see module Semantics.
 */
module Engine {
  import opened Tokens
  import opened Tape
  import opened Brackets
  import opened Semantics
  import opened Lexing

  /** `Result<usize, Box<dyn Error>>` and `Result<(), Box<dyn Error>>`. */
  datatype Result<T> = Success(value: T) | Failure(fault: Fault)

  /** What `interpret` ends with. */
  datatype Exit =
    | Completed                                   // `execute` returned `Ok`
    | Reported(fault: Fault, frames: seq<Frame>)  // the error and the reversed trace are printed, exit code 1
    | Panicked                                    // the bracket scan indexed past the tokens
    | Unfinished                                  // some loop ran out of fuel

  /** `Vec::reverse`, as applied to the trace before it is reported. */
  function Reverse<T>(s: seq<T>): (r: seq<T>)
    ensures |r| == |s|
    ensures forall i :: 0 <= i < |s| ==> r[i] == s[|s| - 1 - i]
  {
    if s == [] then [] else Reverse(s[1..]) + [s[0]]
  }

  /** Reversing twice gives back the trace: the report loses no frame and reorders none. */
  lemma ReverseTwice<T>(s: seq<T>)
    ensures Reverse(Reverse(s)) == s
  {
    var r := Reverse(s);
    assert forall i :: 0 <= i < |s| ==> Reverse(r)[i] == r[|s| - 1 - i] == s[i];
  }

  /**
    How `interpret` ends after a run with outcome `r`: a finished run
    completes; the three program errors are reported with the reversed
    trace; an unmatched `[` is the panic, and a run cut off by the fuel
    bound is unfinished.
   */
  function ExitOf(r: Outcome): (e: Exit)
    ensures e == Completed <==> r.Finished?
    ensures e == Panicked <==> r.Faulted? && r.fault == UnmatchedEnterLoop
    ensures e == Unfinished <==> r.Faulted? && r.fault == OutOfFuel
    ensures e.Reported? ==> r.Faulted? && e.fault == r.fault && e.frames == Reverse(r.m.trace)
  {
    match r
    case Finished(_, _) => Completed
    case Faulted(UnmatchedEnterLoop, _) => Panicked
    case Faulted(OutOfFuel, _) => Unfinished
    case Faulted(f, m) => Reported(f, Reverse(m.trace))
  }

  /** The state a fresh interpreter runs its program in: zero tape, one blank frame, nothing written. */
  function Initial(input: seq<byte>): (m: Machine)
    ensures Ready(0, m)
    ensures m.tape == Zeros() && m.input == input && m.output == [] && m.trace == [Blank]
  {
    Machine(Zeros(), input, [], [Blank])
  }

  /**
    The diagnostic a fresh interpreter prints lists the frames innermost
    first: first the token that failed, then the `[` of each enclosing loop,
    out to the top level. Read outermost first, the frames are exactly a
    chain of matched `[` through nested loop bodies, ending at the failing
    token (`FramesIn`).
   */
  lemma ReportIsInnermostFirst(tokens: seq<Token>, input: seq<byte>, fuel: nat)
    ensures var exit := ExitOf(Run(tokens, 0, 0, Initial(input), fuel));
            exit.Reported? ==>
              && FramesIn(tokens, Reverse(exit.frames), exit.fault)
              && |exit.frames| > 0
              && (forall i :: 0 <= i < |exit.frames| ==> exit.frames[i].At?)
              && exit.frames[0].token == Culprit(exit.fault)
              && (forall i :: 0 < i < |exit.frames| ==> exit.frames[i].token == EnterLoop)
  {
    var r := Run(tokens, 0, 0, Initial(input), fuel);
    RunKeeps(tokens, 0, 0, Initial(input), fuel);
    if ExitOf(r).Reported? {
      assert r.m.trace[0..] == r.m.trace;
      ReversedFrames(tokens, r.m.trace, r.fault);
    }
  }

  /** The reversed form of a chain of frames, as the report prints it. */
  lemma ReversedFrames(tokens: seq<Token>, t: seq<Frame>, f: Fault)
    requires f != OutOfFuel && FramesIn(tokens, t, f)
    ensures var frames := Reverse(t);
            && FramesIn(tokens, Reverse(frames), f)
            && |frames| > 0
            && (forall i :: 0 <= i < |frames| ==> frames[i].At?)
            && frames[0].token == Culprit(f)
            && (forall i :: 0 < i < |frames| ==> frames[i].token == EnterLoop)
  {
    FramesInShape(tokens, t, f);
    ReverseTwice(t);
  }

  class Interpreter {
    const lexer: Lexer
    var stackInfo: seq<Frame>
    var input: seq<byte>
    var output: seq<byte>
    const fuel: nat

    /** `Interpreter::new`: a lexer over the program text and an empty trace. */
    constructor (content: seq<char>, input: seq<byte>, fuel: nat)
      ensures fresh(lexer) && lexer.Valid() && lexer.content == content && lexer.cursor == 0
      ensures stackInfo == [] && this.input == input && output == [] && this.fuel == fuel
    {
      lexer := new Lexer(content);
      stackInfo := [];
      this.input := input;
      output := [];
      this.fuel := fuel;
    }

    /** The part of the machine state held in this object and in the tape `stack`. */
    ghost function State(stack: array<byte>): Machine
      reads this, stack
    {
      Machine(stack[..], input, output, stackInfo)
    }

    /**
      `interpret`: lex the rest of the program text, push a blank frame, run
      the tokens on a fresh zero tape from cell 0, and on an error reverse the
      trace for the report.
     */
    method Interpret() returns (exit: Exit)
      requires lexer.Valid()
      modifies this, lexer
      ensures lexer.Valid() && lexer.cursor == |lexer.content|
      ensures var tokens := TokensOf(lexer.content[old(lexer.cursor)..]);
              var r := Run(tokens, 0, 0, Machine(Zeros(), old(input), old(output), old(stackInfo) + [Blank]), fuel);
              && exit == ExitOf(r)
              && input == r.m.input && output == r.m.output
              && stackInfo == if exit.Reported? then exit.frames else r.m.trace
    {
      var tokens := lexer.Tokenize();
      stackInfo := stackInfo + [Blank];
      var stack := new byte[TapeSize](_ => 0);
      assert stack[..] == Zeros();
      var r := Execute(tokens, 0, stack);
      match r
      case Success(_) =>
        exit := Completed;
      case Failure(UnmatchedEnterLoop) =>
        exit := Panicked;
      case Failure(OutOfFuel) =>
        exit := Unfinished;
      case Failure(f) =>
        stackInfo := Reverse(stackInfo);
        exit := Reported(f, stackInfo);
    }

    /**
      `execute(tokens, cursor, stack)`: run every token in turn, overwriting
      the top trace frame before each; on success return the data cursor.
     */
    method Execute(tokens: seq<Token>, cursor: nat, stack: array<byte>) returns (r: Result<nat>)
      requires stack.Length == TapeSize && cursor < TapeSize && |stackInfo| > 0
      modifies this, stack
      ensures Run(tokens, 0, cursor, old(State(stack)), fuel)
              == if r.Success? then Finished(r.value, State(stack)) else Faulted(r.fault, State(stack))
      decreases |tokens|, 0
    {
      var tc := 0;
      var cur := cursor;
      while tc < |tokens|
        invariant tc <= |tokens| && Ready(cur, State(stack)) && stack.Length == TapeSize
        invariant Run(tokens, tc, cur, State(stack), fuel) == Run(tokens, 0, cursor, old(State(stack)), fuel)
        decreases |tokens| - tc
      {
        ghost var before := State(stack);
        var token := tokens[tc];
        stackInfo := stackInfo[|stackInfo| - 1 := At(cur, token, tc)];
        ghost var m1 := State(stack);
        assert m1 == before.(trace := SetTop(before.trace, At(cur, token, tc)));
        if token == EnterLoop {
          var end := ScanForExit(tokens, tc);
          assert Run(tokens, tc, cur, before, fuel) == EnterLoopAt(tokens, tc, cur, m1, fuel);
          if end.None? {
            return Failure(UnmatchedEnterLoop);
          }
          var looped := HandleLoop(tokens[tc + 1..end.value], cur, stack);
          if looped.Failure? {
            return Failure(looped.fault);
          }
          // resume at the `]`, which is then run as a no-op
          tc := end.value;
        } else if token == ExitLoop {
          tc := tc + 1;
        } else {
          RunStep(tokens, tc, cur, before, fuel);
          var stepped := Perform(token, cur, stack);
          if stepped.Failure? {
            return Failure(stepped.fault);
          }
          cur := stepped.value;
          tc := tc + 1;
        }
      }
      return Success(cur);
    }

    /**
      The arms of the `match` in `execute` for the six tokens other than
      brackets: move the cursor, change the current cell, or move one byte
      between a stream and the current cell.
     */
    method Perform(token: Token, cursor: nat, stack: array<byte>) returns (r: Result<nat>)
      requires token != EnterLoop && token != ExitLoop
      requires stack.Length == TapeSize && cursor < TapeSize
      modifies this`input, this`output, stack
      ensures Step(token, cursor, old(State(stack)))
              == if r.Success? then Finished(r.value, State(stack)) else Faulted(r.fault, State(stack))
    {
      r := Success(cursor);
      match token
      case Left =>
        if cursor == 0 {
          return Failure(PointerUnderflow);
        }
        r := Success(cursor - 1);
      case Right =>
        if cursor >= TapeSize - 1 {
          return Failure(PointerOverflow);
        }
        r := Success(cursor + 1);
      case Plus =>
        if stack[cursor] == 255 {
          stack[cursor] := 0;
        } else {
          stack[cursor] := stack[cursor] + 1;
        }
      case Minus =>
        if stack[cursor] == 0 {
          stack[cursor] := 255;
        } else {
          stack[cursor] := stack[cursor] - 1;
        }
      case Output =>
        output := output + [stack[cursor]];
      case Input =>
        if input == [] {
          return Failure(InputExhausted);
        }
        stack[cursor] := input[0];
        input := input[1..];
    }

    /**
      `handle_loop(body, cursor, stack)`: push a blank frame, execute the
      body while the current cell is nonzero, pop the frame. The cursor moves
      between iterations but is not handed back.
     */
    method HandleLoop(body: seq<Token>, cursor: nat, stack: array<byte>) returns (r: Result<()>)
      requires stack.Length == TapeSize && cursor < TapeSize && |stackInfo| > 0
      modifies this, stack
      ensures Loop(body, cursor, old(State(stack)), fuel)
              == if r.Success? then Finished(cursor, State(stack)) else Faulted(r.fault, State(stack))
      decreases |body|, 1
    {
      ghost var entry := State(stack);
      stackInfo := stackInfo + [Blank];
      ghost var pushed := State(stack);
      assert pushed == entry.(trace := entry.trace + [Blank]);
      LoopUnfold(body, cursor, entry, fuel);
      var cur := cursor;
      var left := fuel;
      while stack[cur] != 0
        invariant Ready(cur, State(stack)) && stack.Length == TapeSize
        invariant Iterate(body, cur, State(stack), fuel, left) == Iterate(body, cursor, pushed, fuel, fuel)
        decreases left
      {
        ghost var before := State(stack);
        if left == 0 {
          IterateStarves(body, cur, before, fuel);
          return Failure(OutOfFuel);
        }
        IterateOnce(body, cur, before, fuel, left);
        var pass := Execute(body, cur, stack);
        if pass.Failure? {
          return Failure(pass.fault);
        }
        cur := pass.value;
        left := left - 1;
      }
      ghost var done := State(stack);
      IterateStops(body, cur, done, fuel, left);
      stackInfo := stackInfo[..|stackInfo| - 1];
      assert State(stack) == done.(trace := done.trace[..|done.trace| - 1]);
      return Success(());
    }
  }

  /**
    `Interpreter::new(content)` followed by `interpret()`: the program text
    is lexed in full and run from the initial machine.
   */
  method InterpretProgram(content: seq<char>, input: seq<byte>, fuel: nat) returns (exit: Exit, written: seq<byte>)
    ensures var r := Run(TokensOf(content), 0, 0, Initial(input), fuel);
            exit == ExitOf(r) && written == r.m.output
  {
    var interpreter := new Interpreter(content, input, fuel);
    assert content[0..] == content;
    assert [] + [Blank] == [Blank];
    exit := interpreter.Interpret();
    written := interpreter.output;
  }
}

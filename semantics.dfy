/**
  The meaning of `Interpreter::execute` and `Interpreter::handle_loop`
  (src/interpreter/interpreter.rs:43-152) as functions on values.

  `Run` is one activation of `execute`: it walks a token sequence from
  position `pc`. `Loop` is one activation of `handle_loop`: it pushes a trace
  frame, runs the body while the current cell is nonzero (`Iterate`), pops
  the frame, and hands back the data cursor it was given, so pointer moves
  made inside a loop are lost once the loop ends.

  A Brainfuck program need not terminate, so every loop activation may run
  at most `fuel` iterations of its body; one that would run more ends in
  the fault `OutOfFuel`. The source has no such bound.
 */
module Semantics {
  import opened Options
  import opened Tokens
  import opened Tape
  import opened Brackets

  /**
    One entry of the trace stack (`stack_info`): `Blank` is the empty string
    pushed on loop entry, `At` the data cursor, token and token index of the
    token last started at that depth. Indices count from the start of the
    token sequence being executed, which inside a loop is the loop body.
   */
  datatype Frame = Blank | At(cell: nat, token: Token, index: nat)

  datatype Fault =
    | PointerUnderflow    // "Pointer underflow!"
    | PointerOverflow     // "Pointer overflow!"
    | InputExhausted      // `read_exact` at end of input
    | UnmatchedEnterLoop  // the bracket scan runs past the end of the tokens
    | OutOfFuel           // a loop ran more iterations than the fuel allows

  /** Everything `execute` changes: the tape, the streams and the trace stack. */
  datatype Machine = Machine(tape: seq<byte>, input: seq<byte>, output: seq<byte>, trace: seq<Frame>)

  datatype Outcome = Finished(cursor: nat, m: Machine) | Faulted(fault: Fault, m: Machine)

  /** What every activation relies on: a full tape, the cursor on it, a frame to overwrite. */
  predicate Ready(cursor: nat, m: Machine) {
    |m.tape| == TapeSize && cursor < TapeSize && |m.trace| > 0
  }

  /** The token whose execution raises `f`. */
  function Culprit(f: Fault): Token
    requires f != OutOfFuel
  {
    match f
    case PointerUnderflow => Left
    case PointerOverflow => Right
    case InputExhausted => Input
    case UnmatchedEnterLoop => EnterLoop
  }

  /**
    The frames a fault leaves, read from the activation of `execute` over
    `tokens` inward. The first frame is the token last started in `tokens`,
    at its own index. If it is the only frame, it is the failing token, at
    cell 0 for an underflow and at the last cell for an overflow, and an
    unmatched `[` has no `]`. Otherwise it is a `[` with a matching `]`, and
    the remaining frames are those of the loop body between them, with
    indices counted in that body.
   */
  ghost predicate FramesIn(tokens: seq<Token>, fs: seq<Frame>, f: Fault)
    requires f != OutOfFuel
    decreases |fs|
  {
    && |fs| > 0
    && fs[0].At? && fs[0].cell < TapeSize
    && fs[0].index < |tokens| && tokens[fs[0].index] == fs[0].token
    && if |fs| == 1 then
         && fs[0].token == Culprit(f)
         && (f == PointerUnderflow ==> fs[0].cell == 0)
         && (f == PointerOverflow ==> fs[0].cell == TapeSize - 1)
         && (f == UnmatchedEnterLoop ==> MatchingExit(tokens, fs[0].index).None?)
       else
         && fs[0].token == EnterLoop
         && MatchingExit(tokens, fs[0].index).Some?
         && FramesIn(tokens[fs[0].index + 1..MatchingExit(tokens, fs[0].index).value], fs[1..], f)
  }

  /** The shape `FramesIn` implies: every frame filled in, all `[` but the last, the last the failing token. */
  lemma {:induction false} FramesInShape(tokens: seq<Token>, fs: seq<Frame>, f: Fault)
    requires f != OutOfFuel && FramesIn(tokens, fs, f)
    ensures |fs| > 0
    ensures forall i :: 0 <= i < |fs| ==> fs[i].At? && fs[i].cell < TapeSize
    ensures forall i :: 0 <= i < |fs| - 1 ==> fs[i].token == EnterLoop
    ensures fs[|fs| - 1].token == Culprit(f)
    decreases |fs|
  {
    if |fs| > 1 {
      var e := MatchingExit(tokens, fs[0].index).value;
      FramesInShape(tokens[fs[0].index + 1..e], fs[1..], f);
      assert forall i :: 0 < i < |fs| ==> fs[i] == fs[1..][i - 1];
    }
  }

  /** Input is only ever consumed from the front, output only appended to. */
  ghost predicate Streams(before: Machine, after: Machine) {
    && |after.input| <= |before.input|
    && after.input == before.input[|before.input| - |after.input|..]
    && before.output <= after.output
  }

  lemma StreamsTrans(a: Machine, b: Machine, c: Machine)
    requires Streams(a, b) && Streams(b, c)
    ensures Streams(a, c)
  {
    var ka, kb := |a.input| - |b.input|, |b.input| - |c.input|;
    assert c.input == a.input[ka..][kb..];
  }

  /** `stack_info[last] = format!(..)`: overwrite the top frame. */
  function SetTop(trace: seq<Frame>, f: Frame): (r: seq<Frame>)
    requires |trace| > 0
    ensures |r| == |trace| && r[|r| - 1] == f
    ensures forall i :: 0 <= i < |r| - 1 ==> r[i] == trace[i]
  {
    trace[|trace| - 1 := f]
  }

  /**
    One of the six tokens that are not brackets (src/interpreter/interpreter.rs:64-99).
   */
  function Step(t: Token, cursor: nat, m: Machine): (r: Outcome)
    requires |m.tape| == TapeSize && cursor < TapeSize
    requires t != EnterLoop && t != ExitLoop
    ensures r.m.trace == m.trace && |r.m.tape| == TapeSize
    // the only faults, and a faulting step changes nothing
    ensures r.Faulted? <==> (t == Left && cursor == 0) || (t == Right && cursor == TapeSize - 1)
                            || (t == Input && m.input == [])
    ensures r.Faulted? ==> r.m == m && r.fault != OutOfFuel && Culprit(r.fault) == t
    // the data cursor moves by exactly one on `<` and `>`, and stays on the tape
    ensures r.Finished? ==> r.cursor < TapeSize
    ensures r.Finished? ==> r.cursor == if t == Left then cursor - 1 else if t == Right then cursor + 1 else cursor
    // only the current cell may change, and not on `<`, `>` or `.`
    ensures forall i :: 0 <= i < TapeSize && i != cursor ==> r.m.tape[i] == m.tape[i]
    ensures t == Left || t == Right || t == Output ==> r.m.tape == m.tape
    ensures t == Plus ==> r.m.tape[cursor] as int == (m.tape[cursor] as int + 1) % 256
    ensures t == Minus ==> r.m.tape[cursor] as int == (m.tape[cursor] as int - 1) % 256
    // `,` reads exactly one byte into the current cell, `.` writes exactly the current cell
    ensures t == Input && r.Finished? ==> r.m.tape[cursor] == m.input[0] && r.m.input == m.input[1..]
    ensures t != Input ==> r.m.input == m.input
    ensures r.m.output == if t == Output then m.output + [m.tape[cursor]] else m.output
  {
    match t
    case Left =>
      if cursor == 0 then Faulted(PointerUnderflow, m) else Finished(cursor - 1, m)
    case Right =>
      if cursor >= TapeSize - 1 then Faulted(PointerOverflow, m) else Finished(cursor + 1, m)
    case Plus =>
      Finished(cursor, m.(tape := m.tape[cursor := Inc(m.tape[cursor])]))
    case Minus =>
      Finished(cursor, m.(tape := m.tape[cursor := Dec(m.tape[cursor])]))
    case Output =>
      Finished(cursor, m.(output := m.output + [m.tape[cursor]]))
    case Input =>
      if m.input == [] then Faulted(InputExhausted, m)
      else Finished(cursor, m.(tape := m.tape[cursor := m.input[0]], input := m.input[1..]))
  }

  /**
    `execute(tokens, cursor, stack)` from token index `pc`. On success the
    result holds the data cursor `execute` returns. What a run does to the
    streams and to the trace stack is stated by `RunKeeps` below.
   */
  function Run(tokens: seq<Token>, pc: nat, cursor: nat, m: Machine, fuel: nat): (r: Outcome)
    requires pc <= |tokens| && Ready(cursor, m)
    ensures |r.m.tape| == TapeSize
    ensures r.Finished? ==> r.cursor < TapeSize && |r.m.trace| == |m.trace|
    decreases |tokens|, 0, |tokens| - pc, 1
  {
    if pc == |tokens| then Finished(cursor, m)
    else
      // the top frame is overwritten before every token
      var m1 := m.(trace := SetTop(m.trace, At(cursor, tokens[pc], pc)));
      if tokens[pc] == EnterLoop then
        EnterLoopAt(tokens, pc, cursor, m1, fuel)
      else if tokens[pc] == ExitLoop then
        // a `]` reached on its own does nothing
        Run(tokens, pc + 1, cursor, m1, fuel)
      else
        StepAt(tokens, pc, cursor, m1, fuel)
  }

  /**
    A token other than a bracket at `pc`, its frame already recorded in `m1`:
    perform it and continue with the next token.
   */
  function StepAt(tokens: seq<Token>, pc: nat, cursor: nat, m1: Machine, fuel: nat): (r: Outcome)
    requires pc < |tokens| && tokens[pc] != EnterLoop && tokens[pc] != ExitLoop && Ready(cursor, m1)
    ensures |r.m.tape| == TapeSize
    ensures r.Finished? ==> r.cursor < TapeSize && |r.m.trace| == |m1.trace|
    decreases |tokens|, 0, |tokens| - pc, 0
  {
    var step := Step(tokens[pc], cursor, m1);
    if step.Faulted? then step else Run(tokens, pc + 1, step.cursor, step.m, fuel)
  }

  /**
    The `[` at `pc`, its frame already recorded in `m1`
    (src/interpreter/interpreter.rs:100-131): find the matching `]`, run the
    body as a loop, and continue at the `]` with the data cursor the `[` was
    reached with.
   */
  function EnterLoopAt(tokens: seq<Token>, pc: nat, cursor: nat, m1: Machine, fuel: nat): (r: Outcome)
    requires pc < |tokens| && tokens[pc] == EnterLoop && Ready(cursor, m1)
    ensures |r.m.tape| == TapeSize
    ensures r.Finished? ==> r.cursor < TapeSize && |r.m.trace| == |m1.trace|
    decreases |tokens|, 0, |tokens| - pc, 0
  {
    match MatchingExit(tokens, pc)
    case None => Faulted(UnmatchedEnterLoop, m1)
    case Some(end) =>
      var inner := Loop(tokens[pc + 1..end], cursor, m1, fuel);
      if inner.Faulted? then inner else Run(tokens, end, cursor, inner.m, fuel)
  }

  /**
    `handle_loop(body, cursor, stack)`: push a blank frame, run the body while
    the current cell is nonzero, pop the frame. On success the result holds
    the cursor the loop was entered with, whatever the body did to it.
   */
  function Loop(body: seq<Token>, cursor: nat, m: Machine, fuel: nat): (r: Outcome)
    requires Ready(cursor, m)
    ensures |r.m.tape| == TapeSize
    ensures r.Finished? ==> r.cursor == cursor && |r.m.trace| == |m.trace|
    decreases |body|, 2, 0, 0
  {
    var iterated := Iterate(body, cursor, m.(trace := m.trace + [Blank]), fuel, fuel);
    if iterated.Faulted? then iterated
    else Finished(cursor, iterated.m.(trace := iterated.m.trace[..|iterated.m.trace| - 1]))
  }

  /**
    The `while stack[cursor] != 0` of `handle_loop`, with `left` iterations
    still allowed. The cursor each pass returns is the one the next pass starts from.
   */
  function Iterate(body: seq<Token>, cursor: nat, m: Machine, fuel: nat, left: nat): (r: Outcome)
    requires Ready(cursor, m)
    ensures |r.m.tape| == TapeSize
    ensures r.Finished? ==> r.cursor < TapeSize && |r.m.trace| == |m.trace| && r.m.tape[r.cursor] == 0
    decreases |body|, 1, left, 0
  {
    if m.tape[cursor] == 0 then Finished(cursor, m)
    else if left == 0 then Faulted(OutOfFuel, m)
    else
      var pass := Run(body, 0, cursor, m, fuel);
      if pass.Faulted? then pass else Iterate(body, pass.cursor, pass.m, fuel, left - 1)
  }

  /**
    What an activation of `execute` over `tokens` (or one of its parts)
    leaves behind: input only consumed, output only appended, the frames
    below the top untouched, and on a fault the frames from the top down
    as `FramesIn` describes them.
   */
  ghost predicate Keeps(tokens: seq<Token>, m: Machine, r: Outcome)
    requires |m.trace| > 0
  {
    && Streams(m, r.m)
    && |r.m.trace| >= |m.trace|
    && r.m.trace[..|m.trace| - 1] == m.trace[..|m.trace| - 1]
    && (r.Faulted? && r.fault != OutOfFuel ==> FramesIn(tokens, r.m.trace[|m.trace| - 1..], r.fault))
  }

  /**
    What an activation of `handle_loop` on `body` leaves behind: on success
    the trace exactly as it was (the push matched by the pop), on a fault
    the whole trace kept and the frames of the body above it.
   */
  ghost predicate KeepsAll(body: seq<Token>, m: Machine, r: Outcome) {
    && Streams(m, r.m)
    && (r.Finished? ==> r.m.trace == m.trace)
    && (r.Faulted? ==> |r.m.trace| > |m.trace| && r.m.trace[..|m.trace|] == m.trace)
    && (r.Faulted? && r.fault != OutOfFuel ==> FramesIn(body, r.m.trace[|m.trace|..], r.fault))
  }

  lemma {:induction false} RunKeeps(tokens: seq<Token>, pc: nat, cursor: nat, m: Machine, fuel: nat)
    requires pc <= |tokens| && Ready(cursor, m)
    ensures Keeps(tokens, m, Run(tokens, pc, cursor, m, fuel))
    decreases |tokens|, 0, |tokens| - pc, 1
  {
    if pc < |tokens| {
      var n := |m.trace|;
      var m1 := m.(trace := SetTop(m.trace, At(cursor, tokens[pc], pc)));
      assert m1.trace[..n - 1] == m.trace[..n - 1];
      assert m1.trace[n - 1..] == [At(cursor, tokens[pc], pc)];
      var r := Run(tokens, pc, cursor, m, fuel);
      if tokens[pc] == EnterLoop {
        EnterLoopAtKeeps(tokens, pc, cursor, m1, fuel);
        TopOverwritten(tokens, m, m1, r, At(cursor, EnterLoop, pc));
      } else if tokens[pc] == ExitLoop {
        RunKeeps(tokens, pc + 1, cursor, m1, fuel);
        TopOverwritten(tokens, m, m1, r, At(cursor, ExitLoop, pc));
      } else {
        StepAtKeeps(tokens, pc, cursor, m1, fuel);
        TopOverwritten(tokens, m, m1, r, At(cursor, tokens[pc], pc));
      }
    } else {
      assert Streams(m, m) by {
        assert m.input[|m.input| - |m.input|..] == m.input;
      }
    }
  }

  /** `Keeps` survives overwriting the top frame first. */
  lemma TopOverwritten(tokens: seq<Token>, m: Machine, m1: Machine, r: Outcome, f: Frame)
    requires |m.trace| > 0 && m1 == m.(trace := SetTop(m.trace, f))
    requires Keeps(tokens, m1, r)
    ensures Keeps(tokens, m, r)
  {
    var n := |m.trace|;
    assert m1.trace[..n - 1] == m.trace[..n - 1];
  }

  lemma {:induction false} StepAtKeeps(tokens: seq<Token>, pc: nat, cursor: nat, m1: Machine, fuel: nat)
    requires pc < |tokens| && tokens[pc] != EnterLoop && tokens[pc] != ExitLoop && Ready(cursor, m1)
    requires m1.trace[|m1.trace| - 1] == At(cursor, tokens[pc], pc)
    ensures Keeps(tokens, m1, StepAt(tokens, pc, cursor, m1, fuel))
    decreases |tokens|, 0, |tokens| - pc, 0
  {
    var n := |m1.trace|;
    var step := Step(tokens[pc], cursor, m1);
    if step.Faulted? {
      assert m1.input[|m1.input| - |m1.input|..] == m1.input;
      assert step.m.trace[n - 1..] == [At(cursor, tokens[pc], pc)];
    } else {
      var next := Run(tokens, pc + 1, step.cursor, step.m, fuel);
      RunKeeps(tokens, pc + 1, step.cursor, step.m, fuel);
      StepStreams(tokens[pc], cursor, m1);
      StreamsTrans(m1, step.m, next.m);
      assert step.m.trace == m1.trace;
    }
  }

  /** A single step only consumes input from the front and only appends output. */
  lemma StepStreams(t: Token, cursor: nat, m: Machine)
    requires |m.tape| == TapeSize && cursor < TapeSize && t != EnterLoop && t != ExitLoop
    ensures Streams(m, Step(t, cursor, m).m)
  {
    var r := Step(t, cursor, m);
    if t == Input && r.Finished? {
      assert r.m.input == m.input[|m.input| - |r.m.input|..];
    } else {
      assert r.m.input == m.input[|m.input| - |r.m.input|..];
    }
  }

  lemma {:induction false} EnterLoopAtKeeps(tokens: seq<Token>, pc: nat, cursor: nat, m1: Machine, fuel: nat)
    requires pc < |tokens| && tokens[pc] == EnterLoop && Ready(cursor, m1)
    requires m1.trace[|m1.trace| - 1] == At(cursor, EnterLoop, pc)
    ensures Keeps(tokens, m1, EnterLoopAt(tokens, pc, cursor, m1, fuel))
    /** A fault inside the body leaves the whole entry trace, `[` frame on top, below the body's frames. */
    ensures var r := EnterLoopAt(tokens, pc, cursor, m1, fuel);
            MatchingExit(tokens, pc).Some? &&
            Loop(tokens[pc + 1..MatchingExit(tokens, pc).value], cursor, m1, fuel).Faulted? ==>
              |r.m.trace| > |m1.trace| && r.m.trace[..|m1.trace|] == m1.trace &&
              r.m.trace[|m1.trace| - 1] == At(cursor, EnterLoop, pc)
    decreases |tokens|, 0, |tokens| - pc, 0
  {
    var n := |m1.trace|;
    match MatchingExit(tokens, pc)
    case None =>
      assert m1.input[|m1.input| - |m1.input|..] == m1.input;
      assert m1.trace[n - 1..] == [At(cursor, EnterLoop, pc)];
    case Some(end) =>
      var inner := Loop(tokens[pc + 1..end], cursor, m1, fuel);
      LoopKeeps(tokens[pc + 1..end], cursor, m1, fuel);
      if inner.Faulted? {
        assert inner.m.trace[..n - 1] == m1.trace[..n - 1];
        if inner.fault != OutOfFuel {
          var fs := inner.m.trace[n - 1..];
          assert inner.m.trace[n - 1] == inner.m.trace[..n][n - 1];
          assert fs[0] == At(cursor, EnterLoop, pc);
          assert fs[1..] == inner.m.trace[n..];
          assert FramesIn(tokens, fs, inner.fault);
        }
      } else {
        var next := Run(tokens, end, cursor, inner.m, fuel);
        RunKeeps(tokens, end, cursor, inner.m, fuel);
        StreamsTrans(m1, inner.m, next.m);
      }
  }

  lemma {:induction false} LoopKeeps(body: seq<Token>, cursor: nat, m: Machine, fuel: nat)
    requires Ready(cursor, m)
    ensures KeepsAll(body, m, Loop(body, cursor, m, fuel))
    decreases |body|, 2, 0, 0
  {
    var pushed := m.(trace := m.trace + [Blank]);
    assert pushed.trace[..|m.trace|] == m.trace;
    IterateKeeps(body, cursor, pushed, fuel, fuel);
  }

  lemma {:induction false} IterateKeeps(body: seq<Token>, cursor: nat, m: Machine, fuel: nat, left: nat)
    requires Ready(cursor, m)
    ensures Keeps(body, m, Iterate(body, cursor, m, fuel, left))
    decreases |body|, 1, left, 0
  {
    if m.tape[cursor] == 0 || left == 0 {
      assert m.input[|m.input| - |m.input|..] == m.input;
    } else {
      var pass := Run(body, 0, cursor, m, fuel);
      RunKeeps(body, 0, cursor, m, fuel);
      if pass.Finished? {
        var next := Iterate(body, pass.cursor, pass.m, fuel, left - 1);
        IterateKeeps(body, pass.cursor, pass.m, fuel, left - 1);
        StreamsTrans(m, pass.m, next.m);
      }
    }
  }

  /** One iteration of a loop whose current cell is nonzero, with iterations left. */
  lemma IterateOnce(body: seq<Token>, cursor: nat, m: Machine, fuel: nat, left: nat)
    requires Ready(cursor, m) && m.tape[cursor] != 0 && left > 0
    ensures var pass := Run(body, 0, cursor, m, fuel);
            Iterate(body, cursor, m, fuel, left)
            == if pass.Faulted? then pass else Iterate(body, pass.cursor, pass.m, fuel, left - 1)
  {
  }

  /** A loop whose current cell is zero stops. */
  lemma IterateStops(body: seq<Token>, cursor: nat, m: Machine, fuel: nat, left: nat)
    requires Ready(cursor, m) && m.tape[cursor] == 0
    ensures Iterate(body, cursor, m, fuel, left) == Finished(cursor, m)
  {
  }

  /** An out-of-fuel loop whose current cell is nonzero faults. */
  lemma IterateStarves(body: seq<Token>, cursor: nat, m: Machine, fuel: nat)
    requires Ready(cursor, m) && m.tape[cursor] != 0
    ensures Iterate(body, cursor, m, fuel, 0) == Faulted(OutOfFuel, m)
  {
  }

  /** `Loop` in terms of `Iterate` on the state with a blank frame pushed. */
  lemma LoopUnfold(body: seq<Token>, cursor: nat, m: Machine, fuel: nat)
    requires Ready(cursor, m)
    ensures var it := Iterate(body, cursor, m.(trace := m.trace + [Blank]), fuel, fuel);
            Loop(body, cursor, m, fuel)
            == if it.Faulted? then it else Finished(cursor, it.m.(trace := it.m.trace[..|it.m.trace| - 1]))
  {
  }

  /** A run cut off by the fuel bound, rather than ended by the program. */
  predicate Starved(r: Outcome) {
    r.Faulted? && r.fault == OutOfFuel
  }

  /**
    Fuel only cuts runs off: a run that was not cut off ends the same way
    with any larger bound.
   */
  lemma {:induction false} RunFuelMonotone(tokens: seq<Token>, pc: nat, cursor: nat, m: Machine, fuel: nat, more: nat)
    requires pc <= |tokens| && Ready(cursor, m) && fuel <= more
    requires !Starved(Run(tokens, pc, cursor, m, fuel))
    ensures Run(tokens, pc, cursor, m, more) == Run(tokens, pc, cursor, m, fuel)
    decreases |tokens|, 0, |tokens| - pc, 1
  {
    if pc < |tokens| {
      var m1 := m.(trace := SetTop(m.trace, At(cursor, tokens[pc], pc)));
      if tokens[pc] == EnterLoop {
        EnterLoopAtFuelMonotone(tokens, pc, cursor, m1, fuel, more);
      } else if tokens[pc] == ExitLoop {
        RunFuelMonotone(tokens, pc + 1, cursor, m1, fuel, more);
      } else {
        StepAtFuelMonotone(tokens, pc, cursor, m1, fuel, more);
      }
    }
  }

  lemma {:induction false} StepAtFuelMonotone(tokens: seq<Token>, pc: nat, cursor: nat, m1: Machine, fuel: nat, more: nat)
    requires pc < |tokens| && tokens[pc] != EnterLoop && tokens[pc] != ExitLoop && Ready(cursor, m1)
    requires fuel <= more && !Starved(StepAt(tokens, pc, cursor, m1, fuel))
    ensures StepAt(tokens, pc, cursor, m1, more) == StepAt(tokens, pc, cursor, m1, fuel)
    decreases |tokens|, 0, |tokens| - pc, 0
  {
    var step := Step(tokens[pc], cursor, m1);
    if step.Finished? {
      RunFuelMonotone(tokens, pc + 1, step.cursor, step.m, fuel, more);
    }
  }

  lemma {:induction false} EnterLoopAtFuelMonotone(tokens: seq<Token>, pc: nat, cursor: nat, m1: Machine, fuel: nat, more: nat)
    requires pc < |tokens| && tokens[pc] == EnterLoop && Ready(cursor, m1)
    requires fuel <= more && !Starved(EnterLoopAt(tokens, pc, cursor, m1, fuel))
    ensures EnterLoopAt(tokens, pc, cursor, m1, more) == EnterLoopAt(tokens, pc, cursor, m1, fuel)
    decreases |tokens|, 0, |tokens| - pc, 0
  {
    match MatchingExit(tokens, pc)
    case None =>
    case Some(end) =>
      var inner := Loop(tokens[pc + 1..end], cursor, m1, fuel);
      LoopFuelMonotone(tokens[pc + 1..end], cursor, m1, fuel, more);
      if inner.Finished? {
        RunFuelMonotone(tokens, end, cursor, inner.m, fuel, more);
      }
  }

  lemma {:induction false} LoopFuelMonotone(body: seq<Token>, cursor: nat, m: Machine, fuel: nat, more: nat)
    requires Ready(cursor, m) && fuel <= more && !Starved(Loop(body, cursor, m, fuel))
    ensures Loop(body, cursor, m, more) == Loop(body, cursor, m, fuel)
    decreases |body|, 2, 0, 0
  {
    IterateFuelMonotone(body, cursor, m.(trace := m.trace + [Blank]), fuel, fuel, more, more);
  }

  lemma {:induction false} IterateFuelMonotone(body: seq<Token>, cursor: nat, m: Machine, fuel: nat, left: nat, more: nat, moreLeft: nat)
    requires Ready(cursor, m) && fuel <= more && left <= moreLeft
    requires !Starved(Iterate(body, cursor, m, fuel, left))
    ensures Iterate(body, cursor, m, more, moreLeft) == Iterate(body, cursor, m, fuel, left)
    decreases |body|, 1, left, 0
  {
    if m.tape[cursor] != 0 {
      var pass := Run(body, 0, cursor, m, fuel);
      RunFuelMonotone(body, 0, cursor, m, fuel, more);
      if pass.Finished? {
        IterateFuelMonotone(body, pass.cursor, pass.m, fuel, left - 1, more, moreLeft - 1);
      }
    }
  }

  /** A loop entered on a zero cell runs its body zero times and changes nothing. */
  lemma ZeroCellSkipsLoop(body: seq<Token>, cursor: nat, m: Machine, fuel: nat)
    requires Ready(cursor, m) && m.tape[cursor] == 0
    ensures Loop(body, cursor, m, fuel) == Finished(cursor, m)
  {
    assert (m.trace + [Blank])[..|m.trace|] == m.trace;
  }

  /**
    After a loop, execution goes on at the token after the matching `]`, with
    the data cursor the `[` was reached with: cursor moves made in the body
    are discarded.
   */
  lemma LoopResumesAfterExit(tokens: seq<Token>, pc: nat, cursor: nat, m: Machine, fuel: nat)
    requires pc < |tokens| && tokens[pc] == EnterLoop && Ready(cursor, m)
    requires MatchingExit(tokens, pc).Some?
    ensures var end := MatchingExit(tokens, pc).value;
            var inner := Loop(tokens[pc + 1..end], cursor, m.(trace := SetTop(m.trace, At(cursor, EnterLoop, pc))), fuel);
            inner.Finished? ==>
              && inner.cursor == cursor
              && Run(tokens, pc, cursor, m, fuel)
                 == Run(tokens, end + 1, cursor, inner.m.(trace := SetTop(inner.m.trace, At(cursor, ExitLoop, end))), fuel)
  {
    var end := MatchingExit(tokens, pc).value;
    var m1 := m.(trace := SetTop(m.trace, At(cursor, EnterLoop, pc)));
    var inner := Loop(tokens[pc + 1..end], cursor, m1, fuel);
    if inner.Finished? {
      assert Run(tokens, pc, cursor, m, fuel) == EnterLoopAt(tokens, pc, cursor, m1, fuel);
      assert EnterLoopAt(tokens, pc, cursor, m1, fuel) == Run(tokens, end, cursor, inner.m, fuel);
    }
  }

  /**
    A `[` reached on a zero cell skips to the token after its `]` and leaves
    the tape, the streams and the frames below the top as they were.
   */
  lemma ZeroCellJumpsPastExit(tokens: seq<Token>, pc: nat, cursor: nat, m: Machine, fuel: nat)
    requires pc < |tokens| && tokens[pc] == EnterLoop && Ready(cursor, m) && m.tape[cursor] == 0
    requires MatchingExit(tokens, pc).Some?
    ensures var end := MatchingExit(tokens, pc).value;
            Run(tokens, pc, cursor, m, fuel)
            == Run(tokens, end + 1, cursor, m.(trace := SetTop(m.trace, At(cursor, ExitLoop, end))), fuel)
  {
    var m1 := m.(trace := SetTop(m.trace, At(cursor, EnterLoop, pc)));
    var end := MatchingExit(tokens, pc).value;
    ZeroCellSkipsLoop(tokens[pc + 1..end], cursor, m1, fuel);
    LoopResumesAfterExit(tokens, pc, cursor, m, fuel);
    assert SetTop(m1.trace, At(cursor, ExitLoop, end)) == SetTop(m.trace, At(cursor, ExitLoop, end));
  }

  /** `]` tokens met outside any loop only advance the token cursor (and the top frame). */
  lemma {:induction false} ExitLoopsAreNoOps(tokens: seq<Token>, pc: nat, cursor: nat, m: Machine, fuel: nat)
    requires pc <= |tokens| && Ready(cursor, m)
    requires forall i :: pc <= i < |tokens| ==> tokens[i] == ExitLoop
    ensures Run(tokens, pc, cursor, m, fuel)
            == Finished(cursor, if pc == |tokens| then m else m.(trace := SetTop(m.trace, At(cursor, ExitLoop, |tokens| - 1))))
    decreases |tokens| - pc
  {
    if pc < |tokens| {
      var m1 := m.(trace := SetTop(m.trace, At(cursor, ExitLoop, pc)));
      ExitLoopsAreNoOps(tokens, pc + 1, cursor, m1, fuel);
    }
  }

  /** `+` followed by `-` leaves the tape as it was. */
  lemma PlusThenMinusRestores(tokens: seq<Token>, pc: nat, cursor: nat, m: Machine, fuel: nat)
    requires pc + 1 < |tokens| && tokens[pc] == Plus && tokens[pc + 1] == Minus && Ready(cursor, m)
    ensures Run(tokens, pc, cursor, m, fuel)
            == Run(tokens, pc + 2, cursor, m.(trace := SetTop(m.trace, At(cursor, Minus, pc + 1))), fuel)
  {
    var m1 := m.(trace := SetTop(m.trace, At(cursor, Plus, pc)));
    var m2 := m1.(tape := m.tape[cursor := Inc(m.tape[cursor])]);
    var m3 := m2.(trace := SetTop(m2.trace, At(cursor, Minus, pc + 1)));
    assert Run(tokens, pc, cursor, m, fuel) == StepAt(tokens, pc, cursor, m1, fuel);
    assert Step(Plus, cursor, m1) == Finished(cursor, m2);
    assert StepAt(tokens, pc, cursor, m1, fuel) == Run(tokens, pc + 1, cursor, m2, fuel);
    assert Run(tokens, pc + 1, cursor, m2, fuel) == StepAt(tokens, pc + 1, cursor, m3, fuel);
    IncDecCancel(m.tape[cursor]);
    assert m2.tape[cursor := Dec(m2.tape[cursor])] == m.tape;
    assert Step(Minus, cursor, m3) == Finished(cursor, m.(trace := SetTop(m.trace, At(cursor, Minus, pc + 1))));
  }

  /** A token other than a bracket that does not fault hands its successor the state it leaves. */
  lemma RunStep(tokens: seq<Token>, pc: nat, cursor: nat, m: Machine, fuel: nat)
    requires pc < |tokens| && tokens[pc] != EnterLoop && tokens[pc] != ExitLoop && Ready(cursor, m)
    ensures var step := Step(tokens[pc], cursor, m.(trace := SetTop(m.trace, At(cursor, tokens[pc], pc))));
            Run(tokens, pc, cursor, m, fuel)
            == if step.Faulted? then step else Run(tokens, pc + 1, step.cursor, step.m, fuel)
  {
  }
}

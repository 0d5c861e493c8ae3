/**
  Small programs run from the initial machine, showing the behaviours of the
  interpreter that differ from a textbook Brainfuck machine or that its
  users rely on.
 */
module Scenarios {
  import opened Tokens
  import opened Tape
  import opened Brackets
  import opened Semantics
  import opened Engine

  /** The loop `[->]` entered on cell 0 holding 1 runs once, ending its pass on cell 1. */
  lemma CountdownLoop(m: Machine, fuel: nat)
    requires Ready(0, m) && m.tape == Zeros()[0 := 1] && fuel >= 1
    ensures Loop([Minus, Right], 0, m, fuel) == Finished(0, m.(tape := Zeros()))
  {
    var body := [Minus, Right];
    var pushed := m.(trace := m.trace + [Blank]);
    var mM := m.(tape := Zeros(), trace := m.trace + [At(0, Minus, 0)]);
    assert Run(body, 0, 0, pushed, fuel) == Run(body, 1, 0, mM, fuel) by {
      RunStep(body, 0, 0, pushed, fuel);
      assert SetTop(pushed.trace, At(0, Minus, 0)) == mM.trace;
      assert Zeros()[0 := 1][0 := Dec(1)] == Zeros();
    }
    var passed := m.(tape := Zeros(), trace := m.trace + [At(0, Right, 1)]);
    assert Run(body, 1, 0, mM, fuel) == Finished(1, passed) by {
      RunStep(body, 1, 0, mM, fuel);
      assert SetTop(mM.trace, At(0, Right, 1)) == passed.trace;
    }
    assert Iterate(body, 0, pushed, fuel, fuel) == Finished(1, passed) by {
      IterateOnce(body, 0, pushed, fuel, fuel);
      IterateStops(body, 1, passed, fuel, fuel - 1);
    }
    assert passed.trace[..|m.trace|] == m.trace;
    LoopUnfold(body, 0, m, fuel);
  }

  /**
    `+[->]<`: the `>` in the loop body moves the data cursor to cell 1, but
    the loop hands back the cursor it was entered with, so the final `<`
    runs at cell 0 and underflows.
   */
  lemma LoopDiscardsMoves(tokens: seq<Token>, input: seq<byte>, fuel: nat)
    requires tokens == [Plus, EnterLoop, Minus, Right, ExitLoop, Left] && fuel >= 1
    ensures var r := Run(tokens, 0, 0, Initial(input), fuel);
            && r == Faulted(PointerUnderflow, r.m)
            && r.m.tape == Zeros()
            && r.m.trace == [At(0, Left, 5)]
  {
    var m0 := Initial(input);
    var mA := m0.(trace := [At(0, Plus, 0)], tape := Zeros()[0 := 1]);
    assert Run(tokens, 0, 0, m0, fuel) == Run(tokens, 1, 0, mA, fuel) by {
      RunStep(tokens, 0, 0, m0, fuel);
      assert SetTop(m0.trace, At(0, Plus, 0)) == mA.trace;
    }
    InnermostPairMatches(tokens, 1, 4);
    var m1 := mA.(trace := [At(0, EnterLoop, 1)]);
    var popped := m1.(tape := Zeros());
    assert Loop(tokens[2..4], 0, m1, fuel) == Finished(0, popped) by {
      assert tokens[2..4] == [Minus, Right];
      CountdownLoop(m1, fuel);
    }
    var mE := popped.(trace := [At(0, ExitLoop, 4)]);
    assert Run(tokens, 1, 0, mA, fuel) == Run(tokens, 5, 0, mE, fuel) by {
      assert SetTop(mA.trace, At(0, EnterLoop, 1)) == m1.trace;
      assert SetTop(popped.trace, At(0, ExitLoop, 4)) == mE.trace;
      LoopResumesAfterExit(tokens, 1, 0, mA, fuel);
    }
    assert Run(tokens, 5, 0, mE, fuel) == Faulted(PointerUnderflow, mE.(trace := [At(0, Left, 5)])) by {
      RunStep(tokens, 5, 0, mE, fuel);
      assert SetTop(mE.trace, At(0, Left, 5)) == [At(0, Left, 5)];
    }
  }

  /** `,.` copies the first input byte to the output. */
  lemma EchoCopiesOneByte(tokens: seq<Token>, b: byte, rest: seq<byte>, fuel: nat)
    requires tokens == [Input, Output]
    ensures var r := Run(tokens, 0, 0, Initial([b] + rest), fuel);
            && r.Finished? && r.cursor == 0
            && r.m.output == [b] && r.m.input == rest && r.m.tape == Zeros()[0 := b]
  {
    var m0 := Initial([b] + rest);
    var mA := m0.(trace := [At(0, Input, 0)], tape := Zeros()[0 := b], input := rest);
    assert Run(tokens, 0, 0, m0, fuel) == Run(tokens, 1, 0, mA, fuel) by {
      RunStep(tokens, 0, 0, m0, fuel);
      assert SetTop(m0.trace, At(0, Input, 0)) == mA.trace;
      assert ([b] + rest)[1..] == rest;
    }
    RunStep(tokens, 1, 0, mA, fuel);
  }

  /** `,` with nothing left to read fails with the input error, its frame on the trace. */
  lemma ReadPastEndFaults(tokens: seq<Token>, fuel: nat)
    requires tokens == [Input]
    ensures Run(tokens, 0, 0, Initial([]), fuel)
            == Faulted(InputExhausted, Initial([]).(trace := [At(0, Input, 0)]))
  {
    RunStep(tokens, 0, 0, Initial([]), fuel);
    assert SetTop(Initial([]).trace, At(0, Input, 0)) == [At(0, Input, 0)];
  }

  /** One pass of `>+<-` from cell 0: cell 1 goes up, cell 0 goes down, the cursor ends on cell 0. */
  lemma TransferPass(m: Machine, fuel: nat)
    requires Ready(0, m)
    ensures Run([Right, Plus, Left, Minus], 0, 0, m, fuel)
            == Finished(0, m.(tape := m.tape[1 := Inc(m.tape[1])][0 := Dec(m.tape[0])],
                              trace := SetTop(m.trace, At(0, Minus, 3))))
  {
    var body := [Right, Plus, Left, Minus];
    var mR := m.(trace := SetTop(m.trace, At(0, Right, 0)));
    assert Run(body, 0, 0, m, fuel) == Run(body, 1, 1, mR, fuel);
    var mP := mR.(trace := SetTop(m.trace, At(1, Plus, 1)), tape := m.tape[1 := Inc(m.tape[1])]);
    assert Run(body, 1, 1, mR, fuel) == Run(body, 2, 1, mP, fuel);
    var mL := mP.(trace := SetTop(m.trace, At(1, Left, 2)));
    assert Run(body, 2, 1, mP, fuel) == Run(body, 3, 0, mL, fuel);
  }

  /** The loop `[>+<-]` entered on cell 0 holding 2 and cell 1 holding 0 runs twice. */
  lemma TransferLoop(m: Machine, fuel: nat)
    requires Ready(0, m) && m.tape == Zeros()[0 := 2] && fuel >= 2
    ensures Loop([Right, Plus, Left, Minus], 0, m, fuel) == Finished(0, m.(tape := Zeros()[1 := 2]))
  {
    var body := [Right, Plus, Left, Minus];
    var pushed := m.(trace := m.trace + [Blank]);
    var top := m.trace + [At(0, Minus, 3)];
    assert SetTop(pushed.trace, At(0, Minus, 3)) == top;
    TransferPass(pushed, fuel);
    var once := m.(tape := Zeros()[0 := 1][1 := 1], trace := top);
    assert Zeros()[0 := 2][1 := Inc(0)][0 := Dec(2)] == once.tape;
    assert Run(body, 0, 0, pushed, fuel) == Finished(0, once);
    TransferPass(once, fuel);
    assert SetTop(top, At(0, Minus, 3)) == top;
    var twice := m.(tape := Zeros()[1 := 2], trace := top);
    assert Zeros()[0 := 1][1 := 1][1 := Inc(1)][0 := Dec(1)] == twice.tape;
    assert Run(body, 0, 0, once, fuel) == Finished(0, twice);
    assert Iterate(body, 0, twice, fuel, fuel - 2) == Finished(0, twice);
    assert Iterate(body, 0, once, fuel, fuel - 1) == Finished(0, twice);
    assert Iterate(body, 0, pushed, fuel, fuel) == Finished(0, twice);
    assert top[..|top| - 1] == m.trace;
  }

  /** The loop of `++[>+<-]`, reached on cell 0 holding 2, continues past its `]` with the 2 moved to cell 1. */
  lemma TransferLoopResumes(tokens: seq<Token>, m: Machine, fuel: nat)
    requires tokens == [Plus, Plus, EnterLoop, Right, Plus, Left, Minus, ExitLoop] && fuel >= 2
    requires Ready(0, m) && m.tape == Zeros()[0 := 2] && m.trace == [At(0, Plus, 1)]
    ensures Run(tokens, 2, 0, m, fuel) == Finished(0, m.(tape := Zeros()[1 := 2], trace := [At(0, ExitLoop, 7)]))
  {
    var m1 := m.(trace := [At(0, EnterLoop, 2)]);
    var done := m1.(tape := Zeros()[1 := 2]);
    assert Loop(tokens[3..7], 0, m1, fuel) == Finished(0, done) by {
      assert tokens[3..7] == [Right, Plus, Left, Minus];
      TransferLoop(m1, fuel);
    }
    var mE := done.(trace := [At(0, ExitLoop, 7)]);
    assert Run(tokens, 2, 0, m, fuel) == Run(tokens, 8, 0, mE, fuel) by {
      InnermostPairMatches(tokens, 2, 7);
      assert SetTop(m.trace, At(0, EnterLoop, 2)) == m1.trace;
      assert SetTop(done.trace, At(0, ExitLoop, 7)) == mE.trace;
      LoopResumesAfterExit(tokens, 2, 0, m, fuel);
    }
  }

  /**
    `++[>+<-]`: the loop runs twice and moves the value 2 from cell 0 to
    cell 1, the cursor back on cell 0 after each pass.
   */
  lemma MoveLoopTransfersValue(tokens: seq<Token>, input: seq<byte>, fuel: nat)
    requires tokens == [Plus, Plus, EnterLoop, Right, Plus, Left, Minus, ExitLoop] && fuel >= 2
    ensures var r := Run(tokens, 0, 0, Initial(input), fuel);
            && r.Finished? && r.cursor == 0
            && r.m.tape == Zeros()[1 := 2] && r.m.output == [] && r.m.input == input
  {
    var m0 := Initial(input);
    var mA := m0.(trace := [At(0, Plus, 0)], tape := Zeros()[0 := 1]);
    assert Run(tokens, 0, 0, m0, fuel) == Run(tokens, 1, 0, mA, fuel) by {
      RunStep(tokens, 0, 0, m0, fuel);
      assert SetTop(m0.trace, At(0, Plus, 0)) == mA.trace;
    }
    var mB := mA.(trace := [At(0, Plus, 1)], tape := Zeros()[0 := 2]);
    assert Run(tokens, 1, 0, mA, fuel) == Run(tokens, 2, 0, mB, fuel) by {
      RunStep(tokens, 1, 0, mA, fuel);
      assert SetTop(mA.trace, At(0, Plus, 1)) == mB.trace;
      assert Zeros()[0 := 1][0 := Inc(1)] == mB.tape;
    }
    TransferLoopResumes(tokens, mB, fuel);
  }

  /** `[]` entered on a nonzero cell never ends: every fuel bound is used up. */
  lemma {:induction false} EmptyBodySpins(cursor: nat, m: Machine, fuel: nat, left: nat)
    requires Ready(cursor, m) && m.tape[cursor] != 0
    ensures Iterate([], cursor, m, fuel, left) == Faulted(OutOfFuel, m)
    decreases left
  {
    if left > 0 {
      EmptyBodySpins(cursor, m, fuel, left - 1);
    }
  }

  /** `+[]` does not terminate: the run is cut off whatever the fuel. */
  lemma BusyLoopNeverEnds(tokens: seq<Token>, input: seq<byte>, fuel: nat)
    requires tokens == [Plus, EnterLoop, ExitLoop]
    ensures ExitOf(Run(tokens, 0, 0, Initial(input), fuel)) == Unfinished
  {
    var m0 := Initial(input);
    var mA := m0.(trace := [At(0, Plus, 0)], tape := Zeros()[0 := 1]);
    assert Run(tokens, 0, 0, m0, fuel) == Run(tokens, 1, 0, mA, fuel) by {
      RunStep(tokens, 0, 0, m0, fuel);
      assert SetTop(m0.trace, At(0, Plus, 0)) == mA.trace;
    }
    var m1 := mA.(trace := [At(0, EnterLoop, 1)]);
    InnermostPairMatches(tokens, 1, 2);
    assert tokens[2..2] == [];
    var pushed := m1.(trace := m1.trace + [Blank]);
    EmptyBodySpins(0, pushed, fuel, fuel);
    assert Loop([], 0, m1, fuel) == Faulted(OutOfFuel, pushed);
    assert SetTop(mA.trace, At(0, EnterLoop, 1)) == m1.trace;
    assert Run(tokens, 1, 0, mA, fuel) == EnterLoopAt(tokens, 1, 0, m1, fuel);
  }
}

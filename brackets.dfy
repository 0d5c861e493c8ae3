/**
  Bracket matching as `execute` does it (src/interpreter/interpreter.rs:100-112):
  from a `[` it scans forward, counting the nesting level, to the first
  position where the level comes back to 0.
 */
module Brackets {
  import opened Options
  import opened Tokens

  /** How a token changes the nesting level. */
  function Delta(t: Token): int {
    match t
    case EnterLoop => 1
    case ExitLoop => -1
    case _ => 0
  }

  /** The nesting level after a token sequence: opened minus closed brackets. */
  function Level(s: seq<Token>): int {
    if s == [] then 0 else Level(s[..|s| - 1]) + Delta(s[|s| - 1])
  }

  lemma {:induction false} LevelCons(t: Token, s: seq<Token>)
    ensures Level([t] + s) == Delta(t) + Level(s)
  {
    var u := [t] + s;
    if s == [] {
      assert u[..|u| - 1] == [];
    } else {
      assert u[..|u| - 1] == [t] + s[..|s| - 1];
      LevelCons(t, s[..|s| - 1]);
    }
  }

  /** The nesting level reached over `tokens[start..k + 1]`, the token at `k` included. */
  function LevelAt(tokens: seq<Token>, start: nat, k: nat): int
    requires start <= k < |tokens|
  {
    Level(tokens[start..k + 1])
  }

  lemma LevelAtNext(tokens: seq<Token>, start: nat, k: nat)
    requires start <= k && k + 1 < |tokens|
    ensures LevelAt(tokens, start, k + 1) == LevelAt(tokens, start, k) + Delta(tokens[k + 1])
  {
    assert tokens[start..k + 2][..k + 1 - start] == tokens[start..k + 1];
  }

  /** Every `[` is closed, and no prefix closes more brackets than it opened. */
  ghost predicate Balanced(s: seq<Token>) {
    Level(s) == 0 && forall k :: 0 <= k <= |s| ==> Level(s[..k]) >= 0
  }

  /**
    The scan continued from `end`, where the level reached over
    `tokens[start..end + 1]` is `level`, still positive.
   */
  function ScanFrom(tokens: seq<Token>, start: nat, end: nat, level: int): (r: Option<nat>)
    requires start <= end < |tokens|
    requires level == LevelAt(tokens, start, end)
    requires forall k :: start <= k <= end ==> LevelAt(tokens, start, k) > 0
    ensures r.Some? ==> end < r.value < |tokens| && tokens[r.value] == ExitLoop
    ensures r.Some? ==> LevelAt(tokens, start, r.value) == 0
    ensures r.Some? ==> forall k :: start <= k < r.value ==> LevelAt(tokens, start, k) > 0
    ensures r.None? ==> forall k :: start <= k < |tokens| ==> LevelAt(tokens, start, k) > 0
    decreases |tokens| - end
  {
    if end + 1 == |tokens| then None
    else
      LevelAtNext(tokens, start, end);
      var next := level + Delta(tokens[end + 1]);
      if next == 0 then Some(end + 1) else ScanFrom(tokens, start, end + 1, next)
  }

  /**
    The matching `]` of the `[` at `start`: the first later position where the
    nesting level returns to 0, or `None` when the level never does.
   */
  function MatchingExit(tokens: seq<Token>, start: nat): (r: Option<nat>)
    requires start < |tokens| && tokens[start] == EnterLoop
    ensures r.Some? ==> start < r.value < |tokens| && tokens[r.value] == ExitLoop
    ensures r.Some? ==> LevelAt(tokens, start, r.value) == 0
    ensures r.Some? ==> forall k :: start <= k < r.value ==> LevelAt(tokens, start, k) > 0
    ensures r.None? ==> forall k :: start <= k < |tokens| ==> LevelAt(tokens, start, k) > 0
  {
    assert LevelAt(tokens, start, start) == 1 by {
      assert tokens[start..start + 1] == [EnterLoop];
      assert [EnterLoop][..0] == [];
    }
    ScanFrom(tokens, start, start, 1)
  }

  /** The body between a `[` and its matching `]` is itself balanced. */
  lemma MatchedBodyIsBalanced(tokens: seq<Token>, start: nat)
    requires start < |tokens| && tokens[start] == EnterLoop
    requires MatchingExit(tokens, start).Some?
    ensures Balanced(tokens[start + 1..MatchingExit(tokens, start).value])
  {
    var end := MatchingExit(tokens, start).value;
    var body := tokens[start + 1..end];
    forall k | 0 <= k <= |body|
      ensures LevelAt(tokens, start, start + k) == 1 + Level(body[..k])
    {
      assert tokens[start..start + k + 1] == [EnterLoop] + body[..k];
      LevelCons(EnterLoop, body[..k]);
    }
    LevelAtNext(tokens, start, end - 1);
    assert body[..|body|] == body;
  }

  /**
    The scan as `execute` runs it: a counter starts at 1 and follows the
    tokens after `start` until it reaches 0. Where the source would index past
    the end of `tokens` (no matching `]`), the scan returns `None`.
   */
  method ScanForExit(tokens: seq<Token>, start: nat) returns (r: Option<nat>)
    requires start < |tokens| && tokens[start] == EnterLoop
    ensures r == MatchingExit(tokens, start)
  {
    var level := 1;
    var end := start;
    assert LevelAt(tokens, start, start) == 1 by {
      assert tokens[start..start + 1] == [EnterLoop];
      assert [EnterLoop][..0] == [];
    }
    while level != 0
      invariant start <= end < |tokens|
      invariant level == LevelAt(tokens, start, end)
      invariant level != 0 ==> forall k :: start <= k <= end ==> LevelAt(tokens, start, k) > 0
      invariant level != 0 ==> ScanFrom(tokens, start, end, level) == MatchingExit(tokens, start)
      invariant level == 0 ==> MatchingExit(tokens, start) == Some(end)
      decreases |tokens| - end, if level == 0 then 0 else 1
    {
      if end + 1 == |tokens| {
        return None;
      }
      LevelAtNext(tokens, start, end);
      end := end + 1;
      match tokens[end]
      case EnterLoop => level := level + 1;
      case ExitLoop => level := level - 1;
      case _ =>
    }
    return Some(end);
  }

  /** Inside a `[` with no bracket after it yet, the nesting level stays 1. */
  lemma {:induction false} FlatPrefixLevel(tokens: seq<Token>, start: nat, k: nat)
    requires start <= k < |tokens| && tokens[start] == EnterLoop
    requires forall i :: start < i <= k ==> tokens[i] != EnterLoop && tokens[i] != ExitLoop
    ensures LevelAt(tokens, start, k) == 1
    decreases k - start
  {
    if k == start {
      assert tokens[start..start + 1] == [EnterLoop];
      assert [EnterLoop][..0] == [];
    } else {
      FlatPrefixLevel(tokens, start, k - 1);
      LevelAtNext(tokens, start, k - 1);
    }
  }

  /** A `[` whose next bracket is a `]` is matched by that `]`. */
  lemma InnermostPairMatches(tokens: seq<Token>, start: nat, end: nat)
    requires start < end < |tokens| && tokens[start] == EnterLoop && tokens[end] == ExitLoop
    requires forall i :: start < i < end ==> tokens[i] != EnterLoop && tokens[i] != ExitLoop
    ensures MatchingExit(tokens, start) == Some(end)
  {
    forall k | start <= k < end
      ensures LevelAt(tokens, start, k) == 1
    {
      FlatPrefixLevel(tokens, start, k);
    }
    LevelAtNext(tokens, start, end - 1);
  }
}

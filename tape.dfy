/**
  The 30000-cell byte tape and the arithmetic on its cells
  (src/interpreter/interpreter.rs, `execute`): `+` and `-` wrap modulo 256
  by an explicit test for 255 and 0, as the source writes them.
 */
module Tape {

  /** Rust's `u8`. */
  newtype byte = x: int | 0 <= x < 256

  /** Length of the tape `interpret` allocates (`vec![0u8; 30000]`). */
  const TapeSize: nat := 30000

  /** A fresh, all-zero tape. */
  function Zeros(): (t: seq<byte>)
    ensures |t| == TapeSize && forall i :: 0 <= i < TapeSize ==> t[i] == 0
  {
    seq(TapeSize, _ => 0)
  }

  /** `+`: 255 becomes 0, anything else goes up by one. */
  function Inc(b: byte): (r: byte)
    ensures r as int == (b as int + 1) % 256
  {
    if b == 255 then 0 else b + 1
  }

  /** `-`: 0 becomes 255, anything else goes down by one. */
  function Dec(b: byte): (r: byte)
    ensures r as int == (b as int - 1) % 256
  {
    if b == 0 then 255 else b - 1
  }

  /** `+` followed by `-`, or `-` followed by `+`, restores the cell. */
  lemma IncDecCancel(b: byte)
    ensures Dec(Inc(b)) == b && Inc(Dec(b)) == b
  {
  }

  /** The cell after `n` consecutive `+`. */
  function IncTimes(b: byte, n: nat): byte {
    if n == 0 then b else Inc(IncTimes(b, n - 1))
  }

  lemma {:induction false} IncTimesWraps(b: byte, n: nat)
    ensures IncTimes(b, n) as int == (b as int + n) % 256
  {
    if n > 0 {
      var x := b as int + n - 1;
      IncTimesWraps(b, n - 1);
      assert IncTimes(b, n - 1) as int == x % 256;
      assert IncTimes(b, n) as int == (x % 256 + 1) % 256;
      ModSucc(x);
    }
  }

  lemma ModSucc(x: int)
    ensures (x % 256 + 1) % 256 == (x + 1) % 256
  {
    var q := x / 256;
    assert x == 256 * q + x % 256;
    if x % 256 == 255 {
      assert x + 1 == 256 * (q + 1);
    } else {
      assert x + 1 == 256 * q + (x % 256 + 1);
    }
  }

  /** 256 consecutive `+` leave every cell as it was. */
  lemma FullTurn(b: byte)
    ensures IncTimes(b, 256) == b
  {
    IncTimesWraps(b, 256);
  }
}

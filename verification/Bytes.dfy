/** Bytes, byte strings and the small result types shared by the models. */
module Bytes {

  type byte = b: int | 0 <= b < 256
  type bytes = seq<byte>

  datatype Option<+T> = None | Some(value: T)

  /** `s` written `n` times in a row. */
  function Repeat(s: bytes, n: nat): (r: bytes)
    ensures |r| == |s| * n
  {
    if n == 0 then [] else Repeat(s, n - 1) + s
  }

  lemma {:induction false} RepeatSum(s: bytes, m: nat, n: nat)
    ensures Repeat(s, m) + Repeat(s, n) == Repeat(s, m + n)
  {
    if n == 0 {
      assert Repeat(s, m) + [] == Repeat(s, m);
    } else {
      RepeatSum(s, m, n - 1);
      assert Repeat(s, m) + (Repeat(s, n - 1) + s) == (Repeat(s, m) + Repeat(s, n - 1)) + s;
    }
  }
}

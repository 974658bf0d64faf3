/** Text in memory that ends at the first NUL. */
module CStrings {

  const NUL: char := '\0'

  /** The characters before the first NUL, or all of them if there is none. */
  function Text(memory: string): (t: string)
    ensures t <= memory && NUL !in t
    ensures |t| < |memory| ==> memory[|t|] == NUL
  {
    if memory == [] || memory[0] == NUL then [] else [memory[0]] + Text(memory[1..])
  }

  function StrLen(memory: string): (n: nat)
    requires NUL in memory
    ensures n < |memory| && memory[n] == NUL && memory[..n] == Text(memory)
  {
    assert |Text(memory)| == |memory| ==> Text(memory) == memory;
    |Text(memory)|
  }

  lemma {:induction false} TextIs(memory: string, n: nat)
    requires n < |memory| && memory[n] == NUL && NUL !in memory[..n]
    ensures Text(memory) == memory[..n]
  {
    if n > 0 {
      assert memory[0] == memory[..n][0] && memory[1..][..n - 1] == memory[..n][1..];
      TextIs(memory[1..], n - 1);
    }
  }

  /** Moving the pointer forward inside a text shortens it by as much. */
  lemma StrLenAdvance(memory: string, k: nat)
    requires NUL in memory && k <= StrLen(memory)
    ensures NUL in memory[k..] && StrLen(memory[k..]) == StrLen(memory) - k
  {
    var n := StrLen(memory);
    assert memory[k..][n - k] == NUL;
    assert memory[k..][..n - k] == memory[..n][k..];
    TextIs(memory[k..], n - k);
  }
}

/**
 * The codeword scheme of the coder: the codeword for rank n (1-based) is
 * n - 1 ones followed by a single zero, so a codeword's length is its rank.
 */
module CodeAssigner {

  /** Every character of `s` is a '1'. */
  predicate AllOnes(s: string)
  {
    forall i :: 0 <= i < |s| ==> s[i] == '1'
  }

  /** Every character of `s` is a bit, '0' or '1'. */
  predicate IsBits(s: string)
  {
    forall i :: 0 <= i < |s| ==> s[i] == '0' || s[i] == '1'
  }

  /** `a` is a prefix of `b` (possibly equal to it). */
  predicate IsPrefix(a: string, b: string)
  {
    |a| <= |b| && b[..|a|] == a
  }

  /** The codeword for rank `n`: n - 1 ones, then a zero. */
  function Code(n: nat): (r: string)
    requires n >= 1
    ensures |r| == n
    ensures forall i :: 0 <= i < n - 1 ==> r[i] == '1'
    ensures r[n - 1] == '0'
  {
    if n == 1 then "0" else "1" + Code(n - 1)
  }

  /**
   * The string-building loop of the source. A length below 1 skips the loop
   * and yields "0", the codeword of rank 1.
   */
  method GenerateCode(length: int) returns (code: string)
    ensures length >= 1 ==> code == Code(length)
    ensures length < 1 ==> code == "0"
  {
    code := "";
    if length == 1 {
      code := "0";
      return;
    }
    var i := 0;
    while i < length - 1
      invariant 0 <= i
      invariant length >= 1 ==> i <= length - 1
      invariant length < 1 ==> i == 0
      invariant |code| == i
      invariant forall j :: 0 <= j < i ==> code[j] == '1'
    {
      code := code + "1";
      i := i + 1;
    }
    code := code + "0";
  }

  /** The pool of the first n codewords, shortest first: position j holds the codeword of length j + 1. */
  function PoolCodes(n: nat): (r: seq<string>)
    ensures |r| == n
    ensures forall j :: 0 <= j < n ==> r[j] == Code(j + 1)
  {
    if n == 0 then [] else PoolCodes(n - 1) + [Code(n)]
  }

  /** Two codewords are equal exactly when their ranks are. */
  lemma CodeInjective(m: nat, n: nat)
    requires m >= 1 && n >= 1
    ensures Code(m) == Code(n) <==> m == n
  {
  }

  /** No codeword is a proper prefix of another: the pool is prefix-free. */
  lemma CodePrefixFree(m: nat, n: nat)
    requires 1 <= m < n
    ensures !IsPrefix(Code(m), Code(n))
  {
    assert Code(n)[..m][m - 1] == '1';
  }

  /** A codeword is made of bits and is never all ones. */
  lemma CodeIsBits(n: nat)
    requires n >= 1
    ensures IsBits(Code(n)) && !AllOnes(Code(n))
  {
  }

  /** The strings of the form 1^(n-1)0 are exactly the codewords. */
  lemma {:induction false} CodeShape(w: string)
    requires |w| >= 1
    requires forall i :: 0 <= i < |w| - 1 ==> w[i] == '1'
    requires w[|w| - 1] == '0'
    ensures w == Code(|w|)
  {
    var c := Code(|w|);
    assert forall i :: 0 <= i < |w| ==> w[i] == c[i];
  }
}

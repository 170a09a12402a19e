/** lib.c: the hash code that prefilters string comparisons. */
module Lib {
  import opened Octets

  const WORD := 0x1_0000_0000

  /** Sum of the lower-cased octets. */
  function CodeSum(s: seq<byte>): nat {
    if s == [] then 0 else CodeSum(s[..|s| - 1]) + LowerByte(s[|s| - 1])
  }

  /** The value of get_stringcode, in 32 bit unsigned arithmetic. */
  function StringCode(s: seq<byte>): nat {
    Wrap(CodeSum(s) % 256 + |s| * 256)
  }

  function Wrap(n: nat): nat {
    n % WORD
  }

  lemma {:induction false} WrapLater(n: nat, c: nat)
    ensures Wrap(Wrap(n) + c) == Wrap(n + c)
    ensures Wrap(n) % 256 == n % 256
  {
    assert n == n / WORD * WORD + n % WORD;
  }

  lemma {:induction false} WrapZero()
    ensures Wrap(0) == 0
  {
  }

  /** get_stringcode (lib.c) on a C string; the accumulator wraps at 32 bits. */
  method GetStringCode(s: seq<byte>) returns (code: nat)
    ensures code == StringCode(s)
  {
    hide Wrap;
    WrapZero();
    code := 0;
    for i := 0 to |s|
      invariant code == Wrap(CodeSum(s[..i]))
    {
      assert s[..i + 1][..i] == s[..i];
      WrapLater(CodeSum(s[..i]), LowerByte(s[i]));
      code := Wrap(code + LowerByte(s[i]));
    }
    assert s[..|s|] == s;
    WrapLater(CodeSum(s), 0);
    code := Wrap(code % 256 + |s| * 256);
  }

  lemma {:induction false} CodeSumOfLower(s: seq<byte>)
    ensures CodeSum(Lower(s)) == CodeSum(s)
  {
    if s != [] {
      CodeSumOfLower(s[..|s| - 1]);
      assert Lower(s)[..|s| - 1] == Lower(s[..|s| - 1]);
    }
  }

  /** The prefilter never hides a match: strings equal up to case have equal codes. */
  lemma {:induction false} EqualUpToCaseEqualCodes(a: seq<byte>, b: seq<byte>)
    requires Lower(a) == Lower(b)
    ensures StringCode(a) == StringCode(b)
  {
    CodeSumOfLower(a);
    CodeSumOfLower(b);
  }
}

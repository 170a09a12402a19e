/** Octets, C strings and the few operations on strings and sequences the other modules share. */
module Octets {

  type byte = x: int | 0 <= x < 256

  const DOT: byte := 46

  datatype Option<+T> = None | Some(value: T)

  function Elements<T>(s: seq<T>): set<T> {
    set x | x in s
  }

  ghost predicate NoRepeats<T>(s: seq<T>) {
    forall i, j :: 0 <= i < j < |s| ==> s[i] != s[j]
  }

  lemma {:induction false} SetOfDistinct<T>(s: seq<T>)
    requires NoRepeats(s)
    ensures |Elements(s)| == |s|
  {
    if s != [] {
      var front := s[..|s| - 1];
      var last := s[|s| - 1];
      SetOfDistinct(front);
      assert last !in front;
      assert Elements(s) == Elements(front) + {last};
    }
  }

  /** Two octets in network order. */
  function U16(n: nat): (s: seq<byte>)
    requires n < 0x1_0000
    ensures |s| == 2
  {
    [n / 256, n % 256]
  }

  /** Four octets in network order. */
  function U32(n: nat): (s: seq<byte>)
    requires n < 0x1_0000_0000
    ensures |s| == 4
  {
    U16(n / 0x1_0000) + U16(n % 0x1_0000)
  }

  function ReadU16(s: seq<byte>, i: nat): (n: nat)
    requires i + 2 <= |s|
    ensures n < 0x1_0000
  {
    s[i] as int * 256 + s[i + 1]
  }

  function ReadU32(s: seq<byte>, i: nat): (n: nat)
    requires i + 4 <= |s|
    ensures n < 0x1_0000_0000
  {
    ReadU16(s, i) * 0x1_0000 + ReadU16(s, i + 2)
  }

  /** The high octet comes first. */
  lemma {:induction false} NetworkOrder(s: seq<byte>)
    requires s == [0x12, 0x34, 0x56, 0x78]
    ensures U16(0x1234) == [0x12, 0x34] && U32(0x12345678) == s
    ensures ReadU16(s, 0) == 0x1234 && ReadU16(s, 2) == 0x5678 && ReadU32(s, 0) == 0x12345678
  {
  }

  lemma {:induction false} U32Octets(a: byte, b: byte, c: byte, d: byte)
    ensures U32(a * 0x100_0000 + b * 0x1_0000 + c * 0x100 + d) == [a, b, c, d]
  {
    var high, low := a * 0x100 + b, c * 0x100 + d;
    assert (high * 0x1_0000 + low) / 0x1_0000 == high;
  }

  /** The octets w stand at pos in s. */
  predicate Holds(s: seq<byte>, pos: nat, w: seq<byte>) {
    pos + |w| <= |s| && s[pos..pos + |w|] == w
  }

  lemma {:induction false} HoldsSplit(s: seq<byte>, pos: nat, x: seq<byte>, y: seq<byte>)
    ensures Holds(s, pos, x + y) <==> Holds(s, pos, x) && Holds(s, pos + |x|, y)
  {
    if pos + |x| + |y| <= |s| {
      var w := s[pos..pos + |x| + |y|];
      assert w[..|x|] == s[pos..pos + |x|] && w[|x|..] == s[pos + |x|..pos + |x| + |y|];
      assert w == w[..|x|] + w[|x|..];
      assert (x + y)[..|x|] == x && (x + y)[|x|..] == y;
    }
  }

  lemma {:induction false} HoldsPart(s: seq<byte>, pos: nat, w: seq<byte>, a: nat, x: seq<byte>)
    requires Holds(s, pos, w) && a + |x| <= |w| && w[a..a + |x|] == x
    ensures Holds(s, pos + a, x)
  {
    assert w == w[..a] + (x + w[a + |x|..]);
    HoldsSplit(s, pos, w[..a], x + w[a + |x|..]);
    HoldsSplit(s, pos + a, x, w[a + |x|..]);
  }

  lemma {:induction false} HoldsOctet(s: seq<byte>, pos: nat, w: seq<byte>, k: nat)
    requires Holds(s, pos, w) && k < |w|
    ensures pos + k < |s| && s[pos + k] == w[k]
  {
    assert s[pos..pos + |w|][k] == s[pos + k];
  }

  lemma {:induction false} U16RoundTrip(n: nat, s: seq<byte>, i: nat)
    requires n < 0x1_0000 && Holds(s, i, U16(n))
    ensures i + 2 <= |s| && ReadU16(s, i) == n
  {
    HoldsOctet(s, i, U16(n), 0);
    HoldsOctet(s, i, U16(n), 1);
  }

  lemma {:induction false} U32RoundTrip(n: nat, s: seq<byte>, i: nat)
    requires n < 0x1_0000_0000 && Holds(s, i, U32(n))
    ensures i + 4 <= |s| && ReadU32(s, i) == n
  {
    HoldsSplit(s, i, U16(n / 0x1_0000), U16(n % 0x1_0000));
    U16RoundTrip(n / 0x1_0000, s, i);
    U16RoundTrip(n % 0x1_0000, s, i + 2);
  }

  /** The octets of a text. */
  function Ascii(s: string): (r: seq<byte>)
    ensures |r| == |s| && forall k :: 0 <= k < |s| ==> r[k] == s[k] as int % 128
  {
    seq(|s|, k requires 0 <= k < |s| => s[k] as int % 128)
  }

  /** The C string that starts a buffer: everything before the first NUL. */
  function CString(s: seq<byte>): (r: seq<byte>)
    ensures |r| <= |s| && r <= s && 0 !in r
    ensures |r| < |s| ==> s[|r|] == 0
  {
    if s == [] || s[0] == 0 then [] else [s[0]] + CString(s[1..])
  }

  lemma {:induction false} CStringStops(text: seq<byte>, tail: seq<byte>)
    requires 0 !in text && tail != [] && tail[0] == 0
    ensures CString(text + tail) == text
  {
    if text == [] {
      assert text + tail == tail;
    } else {
      assert (text + tail)[1..] == text[1..] + tail;
      CStringStops(text[1..], tail);
    }
  }

  /** tolower in the C locale. */
  function LowerByte(b: byte): byte {
    if 65 <= b <= 90 then b + 32 else b
  }

  lemma {:induction false} LowerByteIs(b: byte)
    ensures LowerByte(b) == if 'A' <= b as char <= 'Z' then b + ('a' as int - 'A' as int) else b
  {
  }

  function Lower(s: seq<byte>): (r: seq<byte>)
    ensures |r| == |s| && forall k :: 0 <= k < |s| ==> r[k] == LowerByte(s[k])
  {
    seq(|s|, k requires 0 <= k < |s| => LowerByte(s[k]))
  }

  lemma {:induction false} LowerIdempotent(s: seq<byte>)
    ensures Lower(Lower(s)) == Lower(s)
  {
  }
}

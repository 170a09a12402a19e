/** The encoder's side of names: what compile_name and compile_namepointer (master.c) write, and
    that the decoder reads it back. */
module NameCodec {
  import opened Octets
  import opened NameWalk
  import opened Records

  /** Characters before the first dot. */
  function LabelLen(name: seq<byte>): (n: nat)
    ensures n <= |name| && DOT !in name[..n] && (n < |name| ==> name[n] == DOT)
  {
    if name == [] || name[0] == DOT then 0
    else
      assert name[..1 + LabelLen(name[1..])] == [name[0]] + name[1..][..LabelLen(name[1..])];
      1 + LabelLen(name[1..])
  }

  /** What follows the first label and its dot. */
  function AfterLabel(name: seq<byte>): (r: seq<byte>)
    requires name != []
    ensures |r| < |name|
  {
    if LabelLen(name) < |name| then name[LabelLen(name) + 1..] else []
  }

  /** The octets compile_name writes for a C string: it stops at an empty label, and a length
      octet keeps only six bits. */
  function Wire(name: seq<byte>): (w: seq<byte>)
    ensures w != []
    decreases |name|
  {
    if LabelLen(name) == 0 then [0]
    else [LabelLen(name) % 64] + name[..LabelLen(name)] + Wire(AfterLabel(name))
  }

  lemma {:induction false} WireUnfolds(name: seq<byte>)
    requires name != [] && LabelLen(name) != 0
    ensures Wire(name) == [LabelLen(name) % 64] + name[..LabelLen(name)] + Wire(AfterLabel(name))
  {
  }

  lemma {:induction false} WireEnds(name: seq<byte>)
    requires name == [] || LabelLen(name) == 0
    ensures Wire(name) == [0]
  {
  }

  /** Of the length of a label only the low six bits are written, its text as a whole. */
  lemma {:induction false} WireOfLabel(l: seq<byte>)
    requires l != [] && DOT !in l
    ensures Wire(l) == [|l| % 64] + l + [0]
  {
    assert l + [] == l;
    LabelLenAt(l, []);
  }

  predicate LegalLabel(l: Label) {
    1 <= |l| < 64 && DOT !in l && 0 !in l
  }

  predicate LegalLabels(ls: seq<Label>) {
    forall k :: 0 <= k < |ls| ==> LegalLabel(ls[k])
  }

  /** A name as RFC 1035 section 2.3 allows it in text form: at least one label, each of 1 to 63
      octets, at most 255 octets in all. */
  predicate LegalName(ls: seq<Label>) {
    ls != [] && LegalLabels(ls) && WireSize(ls) <= 255
  }

  /** RFC 1035 section 3.1: length octet and text for each label. */
  function EncodeLabels(ls: seq<Label>): seq<byte>
    requires LegalLabels(ls)
  {
    if ls == [] then [] else [|ls[0]|] + ls[0] + EncodeLabels(ls[1..])
  }

  function Encode(ls: seq<Label>): (w: seq<byte>)
    requires LegalLabels(ls)
    ensures w != []
  {
    EncodeLabels(ls) + [0]
  }

  lemma {:induction false} LabelLenAt(l: seq<byte>, rest: seq<byte>)
    requires DOT !in l && (rest != [] ==> rest[0] == DOT)
    ensures LabelLen(l + rest) == |l|
  {
    if l == [] {
      assert l + rest == rest;
    } else {
      assert (l + rest)[1..] == l[1..] + rest;
      LabelLenAt(l[1..], rest);
    }
  }

  lemma {:induction false} WireStep(l: Label, text: seq<byte>)
    requires LegalLabel(l)
    ensures Wire(l) == [|l|] + l + [0]
    ensures Wire(l + ([DOT] + text)) == [|l|] + l + Wire(text)
  {
    assert l + [] == l;
    LabelLenAt(l, []);
    LabelLenAt(l, [DOT] + text);
    assert (l + ([DOT] + text))[|l| + 1..] == text;
  }

  /** compile_name writes the standard encoding of every legal name. */
  lemma {:induction false} WireIsStandard(ls: seq<Label>)
    requires ls != [] && LegalLabels(ls)
    ensures Wire(Text(ls)) == Encode(ls)
  {
    hide Wire;
    if |ls| == 1 {
      WireStep(ls[0], []);
      assert ls[1..] == [];
    } else {
      WireStep(ls[0], Text(ls[1..]));
      assert Text(ls) == ls[0] + ([DOT] + Text(ls[1..]));
      WireIsStandard(ls[1..]);
    }
  }

  lemma {:induction false} EncodedSize(ls: seq<Label>)
    requires LegalLabels(ls)
    ensures |EncodeLabels(ls)| == |Dotted(ls)|
  {
    if ls != [] {
      EncodedSize(ls[1..]);
    }
  }

  /** A prefix of k labels, and the label after it, inside the encoding. */
  lemma {:induction false} EncodePrefix(ls: seq<Label>, k: nat)
    requires LegalLabels(ls) && k < |ls|
    ensures LegalLabels(ls[..k]) && LegalLabels(ls[..k + 1])
    ensures EncodeLabels(ls[..k + 1]) == EncodeLabels(ls[..k]) + [|ls[k]|] + ls[k] <= EncodeLabels(ls)
  {
    if k == 0 {
      assert ls[..1][1..] == [];
    } else {
      EncodePrefix(ls[1..], k - 1);
      assert ls[..k][1..] == ls[1..][..k - 1] && ls[..k + 1][1..] == ls[1..][..k];
    }
  }

  lemma {:induction false} HopOverLabel(msg: seq<byte>, at: nat, l: Label, front: seq<Label>)
    requires LegalLabel(l) && at + 1 + |l| < |msg| && msg[at] == |l| && msg[at + 1..at + 1 + |l|] == l
    ensures Hop(msg, Walk(at, front, 0)) == Some(Walk(at + 1 + |l|, front + [l], 0))
  {
  }

  lemma {:induction false} HoldsText(s: seq<byte>, pos: nat, w: seq<byte>)
    requires Holds(s, pos, w)
    ensures pos + |w| <= |s| && s[pos..pos + |w|] == w
  {
  }

  /** Where label k of an encoded name stands. */
  lemma {:induction false} LabelInside(msg: seq<byte>, pos: nat, ls: seq<Label>, k: nat)
    requires LegalLabels(ls) && k < |ls|
    requires Holds(msg, pos, Encode(ls))
    ensures LegalLabels(ls[..k]) && LegalLabels(ls[..k + 1])
    ensures var at := pos + |EncodeLabels(ls[..k])|;
      && at + 1 + |ls[k]| < |msg|
      && msg[at] == |ls[k]| && msg[at + 1..at + 1 + |ls[k]|] == ls[k]
      && pos + |EncodeLabels(ls[..k + 1])| == at + 1 + |ls[k]|
  {
    hide EncodeLabels, Holds;
    EncodePrefix(ls, k);
    var front := EncodeLabels(ls[..k]);
    var rest := EncodeLabels(ls)[|front| + 1 + |ls[k]|..] + [0];
    assert Encode(ls) == front + ([|ls[k]|] + (ls[k] + rest));
    HoldsSplit(msg, pos, front, [|ls[k]|] + (ls[k] + rest));
    var at := pos + |front|;
    HoldsSplit(msg, at, [|ls[k]|], ls[k] + rest);
    HoldsSplit(msg, at + 1, ls[k], rest);
    HoldsOctet(msg, at, [|ls[k]|], 0);
    HoldsText(msg, at + 1, ls[k]);
    HoldsOctet(msg, at + 1 + |ls[k]|, rest, 0);
  }

  /** Hopping over an encoded name lands on its zero octet with all its labels. */
  lemma {:induction false} WalkEncoded(msg: seq<byte>, pos: nat, ls: seq<Label>, k: nat)
    requires LegalLabels(ls) && k <= |ls|
    requires Holds(msg, pos, Encode(ls))
    ensures LegalLabels(ls[..k])
    ensures Hops(msg, pos, k) == Some(Walk(pos + |EncodeLabels(ls[..k])|, ls[..k], 0))
  {
    hide Hop, EncodeLabels, Encode, Holds;
    if k == 0 {
      EncodeNothing();
    } else {
      WalkEncoded(msg, pos, ls, k - 1);
      LabelInside(msg, pos, ls, k - 1);
      HopOverLabel(msg, pos + |EncodeLabels(ls[..k - 1])|, ls[k - 1], ls[..k - 1]);
      assert ls[..k] == ls[..k - 1] + [ls[k - 1]];
    }
  }

  lemma {:induction false} EncodeNothing()
    ensures EncodeLabels([]) == []
  {
  }

  lemma {:induction false} EncodedEnd(msg: seq<byte>, pos: nat, ls: seq<Label>)
    requires LegalLabels(ls)
    requires Holds(msg, pos, Encode(ls))
    ensures InPlaceEnd(msg, pos) == pos + |Encode(ls)| <= |msg|
    decreases ls
  {
    HoldsOctet(msg, pos, Encode(ls), 0);
    if ls != [] {
      assert Encode(ls) == [|ls[0]|] + ls[0] + Encode(ls[1..]);
      HoldsSplit(msg, pos, [|ls[0]|] + ls[0], Encode(ls[1..]));
      EncodedEnd(msg, pos + 1 + |ls[0]|, ls[1..]);
    }
  }

  /** Round trip of names: wherever in the data part the encoding of a legal name stands, the
      decoder reads back its labels and finds its end. */
  lemma {:induction false} NameRoundTrip(msg: seq<byte>, pos: nat, ls: seq<Label>)
    requires LegalName(ls) && DATA_BEGIN <= pos
    requires Holds(msg, pos, Wire(Text(ls)))
    ensures NameAt(msg, pos) == Some(ls) && InPlaceEnd(msg, pos) == pos + |Wire(Text(ls))|
  {
    hide Hop, EncodeLabels, Wire, Text, Dotted, Holds;
    WireIsStandard(ls);
    WalkEncoded(msg, pos, ls, |ls|);
    EncodedEnd(msg, pos, ls);
    assert ls[..|ls|] == ls;
    HoldsOctet(msg, pos, Encode(ls), |Encode(ls)| - 1);
    NameAtIs(msg, pos, |ls|);
  }

  // ---------------------------------------------------------------------------
  // Pointers.
  // ---------------------------------------------------------------------------

  /** compile_namepointer keeps only six bits of the offset. */
  function PointerOctets(offset: nat): (w: seq<byte>)
    ensures |w| == 2
  {
    [0xC0, offset % 64]
  }

  /** The pointer leads back to the offset exactly when the offset fits six bits. */
  lemma {:induction false} PointerIsExactIff(msg: seq<byte>, pos: nat, offset: nat)
    requires Holds(msg, pos, PointerOctets(offset))
    ensures pos < |msg| && PointerAt(msg, pos)
    ensures Target(msg, pos) == offset <==> offset < 64
  {
    HoldsOctet(msg, pos, PointerOctets(offset), 0);
    HoldsOctet(msg, pos, PointerOctets(offset), 1);
  }

  lemma {:induction false} WalkThroughPointer(msg: seq<byte>, pos: nat, k: nat)
    requires pos < |msg| && PointerAt(msg, pos) && Target(msg, pos) < |msg|
    requires Hops(msg, Target(msg, pos), k).Some?
    ensures var w := Hops(msg, Target(msg, pos), k).value;
      Hops(msg, pos, k + 1) == Some(Walk(w.at, w.labels, w.pointers + 1))
  {
    hide Target;
    if k > 0 {
      WalkThroughPointer(msg, pos, k - 1);
    }
  }

  /** A pointer to a name without pointers spells that name. */
  lemma {:induction false} PointerRoundTrip(msg: seq<byte>, pos: nat, offset: nat, ls: seq<Label>)
    requires DATA_BEGIN <= pos && Holds(msg, pos, PointerOctets(offset))
    requires offset < 64 && LegalName(ls)
    requires Holds(msg, offset, Wire(Text(ls)))
    ensures NameAt(msg, pos) == Some(ls) && InPlaceEnd(msg, pos) == pos + 2
  {
    hide Hop, EncodeLabels, Wire, Text, Dotted, Target, Holds;
    PointerIsExactIff(msg, pos, offset);
    WireIsStandard(ls);
    WalkEncoded(msg, offset, ls, |ls|);
    assert ls[..|ls|] == ls;
    WalkThroughPointer(msg, pos, |ls|);
    HoldsOctet(msg, offset, Encode(ls), |Encode(ls)| - 1);
    NameAtIs(msg, pos, |ls| + 1);
  }

  // ---------------------------------------------------------------------------
  // What a pointer spells, wherever it leads.
  // ---------------------------------------------------------------------------

  /** A decoder that comes through one more pointer reads the name at this position. */
  ghost predicate Spells(msg: seq<byte>, at: nat, name: seq<byte>) {
    at < |msg| && exists k: nat :: Ends(msg, at, k) && SpelledBy(Hops(msg, at, k).value, name)
  }

  predicate SpelledBy(w: Walk, name: seq<byte>) {
    Text(w.labels) == name && WithinLimits(w.(pointers := w.pointers + 1), NAME_SIZE, true)
  }

  lemma {:induction false} WalkBehindPointer(msg: seq<byte>, pos: nat, n: nat)
    requires pos < |msg| && PointerAt(msg, pos) && 0 < n && Hops(msg, pos, n).Some?
    ensures Target(msg, pos) < |msg| && Hops(msg, Target(msg, pos), n - 1).Some?
  {
    hide Target;
    if n == 1 {
      assert Hops(msg, pos, 0) == Some(Walk(pos, [], 0));
    } else {
      WalkBehindPointer(msg, pos, n - 1);
      WalkThroughPointer(msg, pos, n - 2);
    }
  }

  /** An assembled pointer reads as a name exactly if the octets at its offset modulo 64 spell it. */
  lemma {:induction false} PointerSpellsIff(msg: seq<byte>, pos: nat, offset: nat, name: seq<byte>)
    requires DATA_BEGIN <= pos && Holds(msg, pos, PointerOctets(offset))
    ensures InPlaceEnd(msg, pos) == pos + 2
    ensures NameAt(msg, pos).Some? && Text(NameAt(msg, pos).value) == name <==> Spells(msg, offset % 64, name)
  {
    hide Hop, Hops, Text, Holds, WithinLimits;
    PointerLeads(msg, pos, offset);
    if Spells(msg, offset % 64, name) {
      var k: nat :| Ends(msg, offset % 64, k) && SpelledBy(Hops(msg, offset % 64, k).value, name);
      WalkThroughPointer(msg, pos, k);
      NameAtIs(msg, pos, k + 1);
    }
    if NameAt(msg, pos).Some? && Text(NameAt(msg, pos).value) == name {
      var n: nat :| Accepted(msg, pos, n, NAME_SIZE, true);
      NameAtIs(msg, pos, n);
      StartOfWalk(msg, pos);
      WalkBehindPointer(msg, pos, n);
      WalkThroughPointer(msg, pos, n - 1);
      assert Ends(msg, offset % 64, n - 1);
      assert SpelledBy(Hops(msg, offset % 64, n - 1).value, name);
    }
  }

  lemma {:induction false} StartOfWalk(msg: seq<byte>, pos: nat)
    requires pos < |msg|
    ensures Hops(msg, pos, 0) == Some(Walk(pos, [], 0))
  {
  }

  lemma {:induction false} PointerLeads(msg: seq<byte>, pos: nat, offset: nat)
    requires Holds(msg, pos, PointerOctets(offset))
    ensures pos + 2 <= |msg| && msg[pos] == 192 && PointerAt(msg, pos) && Target(msg, pos) == offset % 64
    ensures InPlaceEnd(msg, pos) == pos + 2
  {
    HoldsOctet(msg, pos, PointerOctets(offset), 0);
    HoldsOctet(msg, pos, PointerOctets(offset), 1);
  }

  /** The encoding of a legal name spells it. */
  lemma {:induction false} EncodingSpells(msg: seq<byte>, at: nat, ls: seq<Label>)
    requires LegalName(ls) && Holds(msg, at, Wire(Text(ls)))
    ensures Spells(msg, at, Text(ls))
  {
    hide Hop, EncodeLabels, Wire, Text, Dotted, Holds;
    WireIsStandard(ls);
    WalkEncoded(msg, at, ls, |ls|);
    assert ls[..|ls|] == ls;
    HoldsOctet(msg, at, Encode(ls), |Encode(ls)| - 1);
    assert Ends(msg, at, |ls|);
    assert SpelledBy(Hops(msg, at, |ls|).value, Text(ls));
  }

  /** A zero octet spells the root only. */
  lemma {:induction false} ZeroSpellsRoot(msg: seq<byte>, at: nat, name: seq<byte>)
    requires at < |msg| && msg[at] == 0 && name != []
    ensures !Spells(msg, at, name)
  {
    StartOfWalk(msg, at);
    forall k: nat | Ends(msg, at, k) ensures Hops(msg, at, k).value.labels == [] {
      EndUnique(msg, at, 0, k);
    }
  }
}

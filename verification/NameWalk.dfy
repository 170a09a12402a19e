/** Domain names inside a DNS message: RFC 1035 sections 3.1 and 4.1.4 as a walk over
    octet positions, and dnrd's decoder get_objname (dns.c) proved against it. */
module NameWalk {
  import opened Octets

  /** First octet of the data part; names are never decoded inside the header. */
  const DATA_BEGIN := 12
  const UDP_MAXSIZE := 512

  type Label = seq<byte>

  // ---------------------------------------------------------------------------
  // The reference: single hops, walks of n hops, and what a walk spells.
  // ---------------------------------------------------------------------------

  /** Where a walk stands, the labels it has met, and how many pointers it followed. */
  datatype Walk = Walk(at: nat, labels: seq<Label>, pointers: nat)

  /** The octet at pos starts a label that is followed by another octet of the message. */
  predicate LabelAt(msg: seq<byte>, pos: nat)
    requires pos < |msg|
  {
    1 <= msg[pos] < 64 && pos + 1 + msg[pos] < |msg|
  }

  function LabelText(msg: seq<byte>, pos: nat): Label
    requires pos < |msg| && LabelAt(msg, pos)
  {
    msg[pos + 1..pos + 1 + msg[pos]]
  }

  /** The octet at pos starts a compression pointer. */
  predicate PointerAt(msg: seq<byte>, pos: nat)
    requires pos < |msg|
  {
    192 <= msg[pos] && pos + 1 < |msg|
  }

  function Target(msg: seq<byte>, pos: nat): nat
    requires pos < |msg| && PointerAt(msg, pos)
  {
    msg[pos] as int % 64 * 256 + msg[pos + 1]
  }

  /** One hop over a label or through a pointer; None when the octet ends the name, is
      reserved, or leads outside the message. */
  function Hop(msg: seq<byte>, w: Walk): (r: Option<Walk>)
    requires w.at < |msg|
    ensures r.Some? ==> r.value.at < |msg|
  {
    if LabelAt(msg, w.at) then
      Some(Walk(w.at + 1 + msg[w.at], w.labels + [LabelText(msg, w.at)], w.pointers))
    else if PointerAt(msg, w.at) && Target(msg, w.at) < |msg| then
      Some(Walk(Target(msg, w.at), w.labels, w.pointers + 1))
    else None
  }

  /** The walk of n hops that starts at pos. */
  function Hops(msg: seq<byte>, pos: nat, n: nat): (r: Option<Walk>)
    requires pos < |msg|
    ensures r.Some? ==> r.value.at < |msg|
  {
    if n == 0 then Some(Walk(pos, [], 0))
    else match Hops(msg, pos, n - 1)
      case None => None
      case Some(w) => Hop(msg, w)
  }

  /** The name that starts at pos is complete after exactly n hops: its expansion is finite. */
  predicate Ends(msg: seq<byte>, pos: nat, n: nat)
    requires pos < |msg|
  {
    Hops(msg, pos, n).Some? && msg[Hops(msg, pos, n).value.at] == 0
  }

  /** One past the in-place encoding: the zero octet or the first pointer closes it
      (RFC 1035 section 4.1.4). */
  function InPlaceEnd(msg: seq<byte>, pos: nat): (e: nat)
    ensures pos < e
    decreases |msg| - pos
  {
    if pos >= |msg| || msg[pos] == 0 then pos + 1
    else if msg[pos] < 64 then InPlaceEnd(msg, pos + 1 + msg[pos])
    else pos + 2
  }

  /** Every label followed by a dot. */
  function Dotted(ls: seq<Label>): seq<byte> {
    if ls == [] then [] else ls[0] + [DOT] + Dotted(ls[1..])
  }

  /** The text form of a name: its labels joined by dots. */
  function Text(ls: seq<Label>): seq<byte> {
    if ls == [] then []
    else if |ls| == 1 then ls[0]
    else ls[0] + [DOT] + Text(ls[1..])
  }

  /** Octets of the uncompressed encoding (RFC 1035 section 3.1), the final zero included. */
  function WireSize(ls: seq<Label>): nat {
    |Dotted(ls)| + 1
  }

  /** valid_char: with tolerant_mode (the shipped default) every octet is accepted. */
  predicate ValidChar(tolerant: bool, b: byte) {
    tolerant || 48 <= b <= 57 || 65 <= b <= 90 || 97 <= b <= 122 || b == 45
  }

  /** Otherwise only letters, digits and the hyphen. */
  lemma {:induction false} ValidCharIs(b: byte)
    ensures ValidChar(true, b)
    ensures ValidChar(false, b) <==>
      '0' <= b as char <= '9' || 'A' <= b as char <= 'Z' || 'a' <= b as char <= 'z' || b as char == '-'
  {
  }

  predicate ValidLabel(tolerant: bool, l: Label) {
    forall k :: 0 <= k < |l| ==> ValidChar(tolerant, l[k])
  }

  predicate ValidLabels(tolerant: bool, ls: seq<Label>) {
    forall k :: 0 <= k < |ls| ==> ValidLabel(tolerant, ls[k])
  }

  /** The limits get_objname puts on a walk, besides its being finite. */
  predicate WithinLimits(w: Walk, size: nat, tolerant: bool) {
    && (w.labels == [] || WireSize(w.labels) <= size)
    && w.pointers <= UDP_MAXSIZE
    && ValidLabels(tolerant, w.labels)
  }

  /** What get_objname accepts: a finite expansion within the limits. */
  predicate Accepted(msg: seq<byte>, pos: nat, n: nat, size: nat, tolerant: bool)
    requires pos < |msg|
  {
    Ends(msg, pos, n) && WithinLimits(Hops(msg, pos, n).value, size, tolerant)
  }

  // ---------------------------------------------------------------------------
  // Walks: prefixes, uniqueness of the end, and the pigeonhole bound.
  // ---------------------------------------------------------------------------

  lemma {:induction false} WalkPrefix(msg: seq<byte>, pos: nat, m: nat, n: nat)
    requires pos < |msg| && m <= n && Hops(msg, pos, n).Some?
    ensures Hops(msg, pos, m).Some?
    ensures Hops(msg, pos, m).value.labels <= Hops(msg, pos, n).value.labels
    ensures Hops(msg, pos, m).value.pointers <= Hops(msg, pos, n).value.pointers
  {
    if m < n {
      WalkPrefix(msg, pos, m, n - 1);
    }
  }

  /** A walk ends at most once: the number of hops of a name is determined. */
  lemma {:induction false} EndUnique(msg: seq<byte>, pos: nat, m: nat, n: nat)
    requires pos < |msg| && Ends(msg, pos, m) && Ends(msg, pos, n)
    ensures m == n
  {
    hide Target;
    if m < n {
      WalkPrefix(msg, pos, m + 1, n);
    } else if n < m {
      WalkPrefix(msg, pos, n + 1, m);
    }
  }

  lemma {:induction false} HopDependsOnPosition(msg: seq<byte>, v: Walk, w: Walk)
    requires v.at == w.at < |msg|
    ensures Hop(msg, v).Some? <==> Hop(msg, w).Some?
    ensures Hop(msg, v).Some? ==> Hop(msg, v).value.at == Hop(msg, w).value.at
  {
  }

  /** Walks from equal positions continue over equal positions. */
  lemma {:induction false} SameTail(msg: seq<byte>, pos: nat, a: nat, b: nat, d: nat)
    requires pos < |msg| && Hops(msg, pos, a).Some? && Hops(msg, pos, b).Some?
    requires Hops(msg, pos, a).value.at == Hops(msg, pos, b).value.at
    ensures Hops(msg, pos, a + d).Some? <==> Hops(msg, pos, b + d).Some?
    ensures Hops(msg, pos, a + d).Some? ==> Hops(msg, pos, a + d).value.at == Hops(msg, pos, b + d).value.at
  {
    hide Hop;
    if d > 0 {
      SameTail(msg, pos, a, b, d - 1);
      if Hops(msg, pos, a + d - 1).Some? {
        HopDependsOnPosition(msg, Hops(msg, pos, a + d - 1).value, Hops(msg, pos, b + d - 1).value);
      }
    }
  }

  /** The positions of the first n hops. */
  ghost function Trace(msg: seq<byte>, pos: nat, n: nat): (t: seq<nat>)
    requires pos < |msg| && Hops(msg, pos, n).Some?
    ensures |t| == n + 1
  {
    if n == 0 then [pos] else Trace(msg, pos, n - 1) + [Hops(msg, pos, n).value.at]
  }

  lemma {:induction false} TraceAt(msg: seq<byte>, pos: nat, n: nat, k: nat)
    requires pos < |msg| && Hops(msg, pos, n).Some? && k <= n
    ensures Hops(msg, pos, k).Some? && Trace(msg, pos, n)[k] == Hops(msg, pos, k).value.at < |msg|
  {
    if k < n {
      TraceAt(msg, pos, n - 1, k);
    }
  }

  /** A finite name never visits an octet position twice. */
  lemma {:induction false} FiniteNameHasNoLoop(msg: seq<byte>, pos: nat, n: nat, a: nat, b: nat)
    requires pos < |msg| && Ends(msg, pos, n) && a < b <= n
    ensures Trace(msg, pos, n)[a] != Trace(msg, pos, n)[b]
  {
    hide Hop;
    TraceAt(msg, pos, n, a);
    TraceAt(msg, pos, n, b);
    if Trace(msg, pos, n)[a] == Trace(msg, pos, n)[b] {
      SameTail(msg, pos, a, b, n - b);
      EndUnique(msg, pos, a + (n - b), n);
    }
  }

  /** Pigeonhole on sequences: more than top + 1 numbers, none above top. */
  lemma {:induction false} TooLongRepeats(s: seq<nat>, top: nat)
    requires top + 1 < |s| && forall k :: 0 <= k < |s| ==> s[k] <= top
    ensures exists a, b :: 0 <= a < b < |s| && s[a] == s[b]
  {
    if top == 0 {
      assert s[0] == s[1];
    } else if a :| 0 <= a < |s| && s[a] == top {
      var t := s[..a] + s[a + 1..];
      if c :| 0 <= c < |t| && t[c] == top {
        var x := if c < a then c else c + 1;
        assert s[x] == s[a];
      } else {
        TooLongRepeats(t, top - 1);
        var c, d :| 0 <= c < d < |t| && t[c] == t[d];
        assert s[if c < a then c else c + 1] == s[if d < a then d else d + 1];
      }
    } else {
      TooLongRepeats(s, top - 1);
    }
  }

  /** A walk of at least as many hops as the message has octets revisits one of them. */
  lemma {:induction false} LongWalkLoops(msg: seq<byte>, pos: nat, n: nat)
    requires pos < |msg| && Hops(msg, pos, n).Some? && |msg| <= n
    ensures exists a, b :: 0 <= a < b <= n && Trace(msg, pos, n)[a] == Trace(msg, pos, n)[b]
  {
    var t := Trace(msg, pos, n);
    forall k | 0 <= k < |t| ensures t[k] <= |msg| - 1 {
      TraceAt(msg, pos, n, k);
    }
    TooLongRepeats(t, |msg| - 1);
  }

  /** A finite name takes fewer hops than the message has octets, so the first half of the
      depth guard (dns.c line 148) never stops a finite name. */
  lemma {:induction false} FiniteNameIsShort(msg: seq<byte>, pos: nat, n: nat)
    requires pos < |msg| && Ends(msg, pos, n)
    ensures n < |msg| && Hops(msg, pos, n).value.pointers <= n
  {
    PointersAreHops(msg, pos, n);
    if |msg| <= n {
      LongWalkLoops(msg, pos, n);
      var a, b :| 0 <= a < b <= n && Trace(msg, pos, n)[a] == Trace(msg, pos, n)[b];
      FiniteNameHasNoLoop(msg, pos, n, a, b);
    }
  }

  lemma {:induction false} PointersAreHops(msg: seq<byte>, pos: nat, n: nat)
    requires pos < |msg| && Hops(msg, pos, n).Some?
    ensures Hops(msg, pos, n).value.pointers <= n
  {
    if n > 0 {
      PointersAreHops(msg, pos, n - 1);
    }
  }

  /** A walk that meets one position twice never ends. */
  lemma {:induction false} LoopNeverEnds(msg: seq<byte>, pos: nat, n: nat, a: nat, b: nat)
    requires pos < |msg| && Hops(msg, pos, n).Some? && a < b <= n
    requires Trace(msg, pos, n)[a] == Trace(msg, pos, n)[b]
    ensures forall k: nat :: !Ends(msg, pos, k)
  {
    hide Hop;
    forall k: nat ensures !Ends(msg, pos, k) {
      if Ends(msg, pos, k) {
        TraceAt(msg, pos, n, a);
        TraceAt(msg, pos, n, b);
        if k < b {
          WalkPrefix(msg, pos, k + 1, n);
          EndHasNoHop(msg, Hops(msg, pos, k).value);
        } else {
          WalkPrefix(msg, pos, b, k);
          TraceAt(msg, pos, k, a);
          TraceAt(msg, pos, k, b);
          FiniteNameHasNoLoop(msg, pos, k, a, b);
        }
      }
    }
  }

  /** A hop never starts at the last octet. */
  lemma {:induction false} HopStartsBefore(msg: seq<byte>, pos: nat, n: nat, k: nat)
    requires pos < |msg| && k < n && Hops(msg, pos, n).Some?
    ensures Hops(msg, pos, k).Some? && Hops(msg, pos, k).value.at + 1 < |msg|
  {
    hide Target;
    WalkPrefix(msg, pos, k + 1, n);
  }

  /** Where the depth guard stops a pointer, wherever that leads, the walk has met a position twice. */
  lemma {:induction false} GuardedPointerHasLooped(msg: seq<byte>, pos: nat, n: nat)
    requires pos < |msg| && Hops(msg, pos, n).Some? && PointerAt(msg, Hops(msg, pos, n).value.at)
    requires Hops(msg, pos, n).value.pointers + 1 >= |msg|
    ensures exists a, b :: 0 <= a < b <= n && Trace(msg, pos, n)[a] == Trace(msg, pos, n)[b]
  {
    hide Hop;
    PointersAreHops(msg, pos, n);
    var t := Trace(msg, pos, n);
    forall k | 0 <= k < |t| ensures t[k] <= |msg| - 2 {
      TraceAt(msg, pos, n, k);
      if k < n {
        HopStartsBefore(msg, pos, n, k);
      }
    }
    TooLongRepeats(t, |msg| - 2);
  }

  /** The depth guard (dns.c line 148) is exact on messages of at most UDP_MAXSIZE octets: where it
      stops a pointer the walk has met a position twice and would never end; so it stops no finite
      name. */
  lemma {:induction false} DepthGuardIsExact(msg: seq<byte>, pos: nat, n: nat)
    requires pos < |msg| <= UDP_MAXSIZE && Hops(msg, pos, n).Some? && PointerAt(msg, Hops(msg, pos, n).value.at)
    ensures var depth := Hops(msg, pos, n).value.pointers + 1;
      depth >= |msg| || depth > UDP_MAXSIZE ==>
        && (exists a, b :: 0 <= a < b <= n && Trace(msg, pos, n)[a] == Trace(msg, pos, n)[b])
        && forall k: nat :: !Ends(msg, pos, k)
  {
    hide Hop;
    if Hops(msg, pos, n).value.pointers + 1 >= |msg| {
      GuardedPointerHasLooped(msg, pos, n);
      var a, b :| 0 <= a < b <= n && Trace(msg, pos, n)[a] == Trace(msg, pos, n)[b];
      LoopNeverEnds(msg, pos, n, a, b);
    }
  }

  /** Every finite name of at most 255 octets (RFC 1035 section 2.3.4) in a UDP message is
      accepted into the 256 octets of an rr_t name. */
  lemma {:induction false} StandardNamesAreAccepted(msg: seq<byte>, pos: nat, n: nat)
    requires pos < |msg| <= UDP_MAXSIZE && Ends(msg, pos, n)
    requires WireSize(Hops(msg, pos, n).value.labels) <= 255
    ensures Accepted(msg, pos, n, 256, true)
  {
    FiniteNameIsShort(msg, pos, n);
  }

  // ---------------------------------------------------------------------------
  // Texts.
  // ---------------------------------------------------------------------------

  lemma {:induction false} DottedSnoc(ls: seq<Label>, l: Label)
    ensures Dotted(ls + [l]) == Dotted(ls) + l + [DOT]
  {
    if ls != [] {
      assert (ls + [l])[1..] == ls[1..] + [l];
      DottedSnoc(ls[1..], l);
    }
  }

  lemma {:induction false} DottedIsTextDot(ls: seq<Label>)
    requires ls != []
    ensures Dotted(ls) == Text(ls) + [DOT]
  {
    if |ls| > 1 {
      DottedIsTextDot(ls[1..]);
    }
  }

  lemma {:induction false} DottedGrows(a: seq<Label>, b: seq<Label>)
    requires a <= b
    ensures |Dotted(a)| <= |Dotted(b)|
  {
    if a != [] {
      DottedGrows(a[1..], b[1..]);
    }
  }

  // ---------------------------------------------------------------------------
  // The decoder.
  // ---------------------------------------------------------------------------

  /** A walk that at hop n is still inside the name, and then is stuck or breaks a limit, is
      no prefix of an accepted name. */
  lemma {:induction false} Rejected(msg: seq<byte>, pos: nat, n: nat, size: nat, tolerant: bool)
    requires pos < |msg| && 1 <= size && Hops(msg, pos, n).Some? && msg[Hops(msg, pos, n).value.at] != 0
    requires Hops(msg, pos, n + 1).None?
          || !WithinLimits(Hops(msg, pos, n + 1).value, size, tolerant)
          || |msg| <= Hops(msg, pos, n + 1).value.pointers
    ensures forall k: nat :: !Accepted(msg, pos, k, size, tolerant)
  {
    hide Hop;
    forall k: nat ensures !Accepted(msg, pos, k, size, tolerant) {
      if Accepted(msg, pos, k, size, tolerant) {
        if k < n {
          WalkPrefix(msg, pos, k + 1, n);
          EndHasNoHop(msg, Hops(msg, pos, k).value);
        } else if n < k {
          WalkPrefix(msg, pos, n + 1, k);
          FiniteNameIsShort(msg, pos, k);
          LimitsShrink(Hops(msg, pos, n + 1).value, Hops(msg, pos, k).value, size, tolerant);
        }
      }
    }
  }

  /** An octet at the very end of the message, or a reserved one, cannot be hopped over. */
  lemma {:induction false} NoRoom(msg: seq<byte>, pos: nat, n: nat, size: nat, tolerant: bool)
    requires pos < |msg| && 1 <= size && Hops(msg, pos, n).Some?
    requires var p := Hops(msg, pos, n).value.at; msg[p] != 0 && (p + 1 == |msg| || 64 <= msg[p] < 192)
    ensures forall k: nat :: !Accepted(msg, pos, k, size, tolerant)
  {
    assert Hop(msg, Hops(msg, pos, n).value).None?;
    Rejected(msg, pos, n, size, tolerant);
  }

  lemma {:induction false} EndHasNoHop(msg: seq<byte>, w: Walk)
    requires w.at < |msg| && msg[w.at] == 0
    ensures Hop(msg, w).None?
  {
  }

  lemma {:induction false} LimitsShrink(v: Walk, w: Walk, size: nat, tolerant: bool)
    requires v.labels <= w.labels && v.pointers <= w.pointers && WithinLimits(w, size, tolerant)
    ensures WithinLimits(v, size, tolerant)
  {
    DottedGrows(v.labels, w.labels);
  }

  /** Passing a label: what the next walk is, and when it stays within the limits. */
  lemma {:induction false} PassLabel(msg: seq<byte>, pos: nat, n: nat, w: Walk, size: nat, tolerant: bool)
    requires pos < |msg| && Hops(msg, pos, n) == Some(w) && 1 <= msg[w.at] < 64
    requires 1 <= size && WithinLimits(w, size, tolerant)
    ensures w.at + 1 + msg[w.at] < |msg| ==>
      var text := msg[w.at + 1..w.at + 1 + msg[w.at]];
      var next := Walk(w.at + 1 + msg[w.at], w.labels + [text], w.pointers);
      && Hops(msg, pos, n + 1) == Some(next)
      && Dotted(next.labels) == Dotted(w.labels) + text + [DOT]
      && InPlaceEnd(msg, w.at) == InPlaceEnd(msg, next.at)
      && (WithinLimits(next, size, tolerant) <==> |Dotted(w.labels)| + |text| + 1 < size && ValidLabel(tolerant, text))
    ensures w.at + 1 + msg[w.at] >= |msg| ==> Hops(msg, pos, n + 1).None?
  {
    hide Target;
    if w.at + 1 + msg[w.at] < |msg| {
      var text := msg[w.at + 1..w.at + 1 + msg[w.at]];
      DottedSnoc(w.labels, text);
      ExtendValid(tolerant, w.labels, text);
    }
  }

  lemma {:induction false} ExtendValid(tolerant: bool, ls: seq<Label>, l: Label)
    ensures ValidLabels(tolerant, ls + [l]) <==> ValidLabels(tolerant, ls) && ValidLabel(tolerant, l)
  {
    assert (ls + [l])[|ls|] == l;
    assert forall k :: 0 <= k < |ls| ==> (ls + [l])[k] == ls[k];
  }

  /** Following a pointer. */
  lemma {:induction false} PassPointer(msg: seq<byte>, pos: nat, n: nat, w: Walk, size: nat, tolerant: bool)
    requires pos < |msg| && Hops(msg, pos, n) == Some(w) && 192 <= msg[w.at] && w.at + 1 < |msg|
    requires 1 <= size && WithinLimits(w, size, tolerant)
    ensures InPlaceEnd(msg, w.at) == w.at + 2
    ensures var target := msg[w.at] as int % 64 * 256 + msg[w.at + 1];
      if target >= |msg| then Hops(msg, pos, n + 1).None? else
      var next := Walk(target, w.labels, w.pointers + 1);
      && Hops(msg, pos, n + 1) == Some(next)
      && (WithinLimits(next, size, tolerant) <==> next.pointers <= UDP_MAXSIZE)
  {
  }

  lemma {:induction false} WalkStart(msg: seq<byte>, pos: nat, size: nat, tolerant: bool)
    requires pos < |msg| && 1 <= size
    ensures Hops(msg, pos, 0) == Some(Walk(pos, [], 0)) && Dotted([]) == []
    ensures WithinLimits(Walk(pos, [], 0), size, tolerant)
  {
  }

  lemma {:induction false} WalkStop(msg: seq<byte>, pos: nat, n: nat, w: Walk, size: nat, tolerant: bool)
    requires pos < |msg| && Hops(msg, pos, n) == Some(w) && msg[w.at] == 0 && WithinLimits(w, size, tolerant)
    ensures Accepted(msg, pos, n, size, tolerant) && InPlaceEnd(msg, w.at) == w.at + 1
  {
  }

  lemma {:induction false} TextEnds(msg: seq<byte>, pos: nat, n: nat, size: nat, tolerant: bool)
    requires pos < |msg| && Accepted(msg, pos, n, size, tolerant)
    ensures Hops(msg, pos, n).Some?
    ensures Hops(msg, pos, n).value.labels != [] ==>
      Dotted(Hops(msg, pos, n).value.labels) == Text(Hops(msg, pos, n).value.labels) + [DOT]
  {
    if Hops(msg, pos, n).value.labels != [] {
      DottedIsTextDot(Hops(msg, pos, n).value.labels);
    }
  }

  /** The inner loop of get_objname: append one label and its dot to the text already stored
      in mem[base..to], giving up at an invalid character. */
  method CopyLabel(msg: seq<byte>, i: nat, c: nat, mem: array<byte>, base: nat, to: nat, tolerant: bool)
    returns (ok: bool)
    requires i + c <= |msg| && base <= to && to + c + 1 <= mem.Length
    modifies mem
    ensures ok <==> ValidLabel(tolerant, msg[i..i + c])
    ensures ok ==> mem[base..to + c + 1] == old(mem[base..to]) + msg[i..i + c] + [DOT]
    ensures forall x :: 0 <= x < mem.Length && !(to <= x <= to + c) ==> mem[x] == old(mem[x])
  {
    for k := 0 to c
      invariant ValidLabel(tolerant, msg[i..i + k])
      invariant forall x :: to <= x < to + k ==> mem[x] == msg[x - to + i]
      invariant forall x :: 0 <= x < mem.Length && !(to <= x < to + k) ==> mem[x] == old(mem[x])
    {
      assert msg[i..i + c][k] == msg[i + k];
      assert msg[i..i + k + 1] == msg[i..i + k] + [msg[i + k]];
      if !ValidChar(tolerant, msg[i + k]) {
        return false;
      }
      mem[to + k] := msg[i + k];
    }
    mem[to + c] := DOT;
    ok := true;
  }

  /** A label of c octets at i is taken if it fits the message and the buffer and is valid. */
  method TakeLabel(msg: seq<byte>, i: nat, c: byte, mem: array<byte>, base: nat, j: nat, size: nat, tolerant: bool,
                   ghost index: nat, ghost n: nat, ghost w: Walk)
    returns (ok: bool)
    requires index < |msg| && Hops(msg, index, n) == Some(w) && w.at + 1 == i < |msg| && msg[w.at] == c && 1 <= c < 64
    requires 1 <= size && WithinLimits(w, size, tolerant) && j == |Dotted(w.labels)| && (j == 0 || j < size)
    requires base + size <= mem.Length && mem[base..base + j] == Dotted(w.labels)
    modifies mem
    ensures !ok ==> forall k: nat :: !Accepted(msg, index, k, size, tolerant)
    ensures forall x :: 0 <= x < mem.Length && !(base + j <= x < base + size) ==> mem[x] == old(mem[x])
    ensures ok ==> i + c < |msg| && j + c + 1 < size
    ensures ok ==> forall x :: 0 <= x < mem.Length && !(base + j <= x <= base + j + c) ==> mem[x] == old(mem[x])
    ensures ok ==>
      var next := Walk(i + c, w.labels + [msg[i..i + c]], w.pointers);
      && Hops(msg, index, n + 1) == Some(next) && WithinLimits(next, size, tolerant)
      && InPlaceEnd(msg, w.at) == InPlaceEnd(msg, next.at)
      && |Dotted(next.labels)| == j + c + 1 && mem[base..base + j + c + 1] == Dotted(next.labels)
  {
    hide Hop, Hops, InPlaceEnd, WithinLimits, Dotted, Ends, Accepted, LabelAt, PointerAt, Target, ValidLabel;
    PassLabel(msg, index, n, w, size, tolerant);
    ok := j + c + 1 < size && i + c < |msg|;
    if ok {
      ok := CopyLabel(msg, i, c, mem, base, base + j, tolerant);
    }
    if !ok {
      Rejected(msg, index, n, size, tolerant);
    }
  }

  /** The outer loop of get_objname (dns.c lines 138-167): store the dotted labels in
      mem[base..base + j] and report where the in-place encoding ends. */
  method Expand(msg: seq<byte>, index: nat, mem: array<byte>, base: nat, size: nat, tolerant: bool)
    returns (ok: bool, end: nat, j: nat, ghost n: nat)
    requires index < |msg| && 1 <= base && 1 <= size && base + size <= mem.Length
    modifies mem
    ensures ok <==> exists k: nat :: Accepted(msg, index, k, size, tolerant)
    ensures ok ==> Accepted(msg, index, n, size, tolerant)
    ensures ok ==> end == InPlaceEnd(msg, index) && index < end <= |msg|
    ensures ok ==> j == |Dotted(Hops(msg, index, n).value.labels)| && (j == 0 || j < size)
    ensures ok ==> mem[base..base + j] == Dotted(Hops(msg, index, n).value.labels)
    ensures ok ==> forall x :: 0 <= x < mem.Length && !(base <= x < base + j) ==> mem[x] == old(mem[x])
    ensures forall x :: 0 <= x < mem.Length && !(base <= x < base + size) ==> mem[x] == old(mem[x])
  {
    hide Hop, Hops, InPlaceEnd, WithinLimits, Dotted, Text, Ends, Accepted, LabelAt, PointerAt, Target, ValidLabel;
    n, j, end := 0, 0, 0;
    var i: nat := index;
    var depth: nat := 0;
    var compressed := 0;
    ghost var labels: seq<Label> := [];
    WalkStart(msg, index, size, tolerant);
    while msg[i] != 0
      invariant i < |msg| && Hops(msg, index, n) == Some(Walk(i, labels, depth))
      invariant depth < |msg| && WithinLimits(Walk(i, labels, depth), size, tolerant)
      invariant j == |Dotted(labels)| && (j == 0 || j < size)
      invariant mem[base..base + j] == Dotted(labels)
      invariant forall x :: 0 <= x < mem.Length && !(base <= x < base + j) ==> mem[x] == old(mem[x])
      invariant InPlaceEnd(msg, index) == if compressed != 0 then compressed else InPlaceEnd(msg, i)
      invariant (compressed == 0 ==> index <= i) && (compressed != 0 ==> index < compressed <= |msg|)
      decreases |msg| - depth + size - j
    {
      ghost var w := Walk(i, labels, depth);
      var c := msg[i];
      i := i + 1;
      if i >= |msg| {
        NoRoom(msg, index, n, size, tolerant);
        return false, 0, 0, n;
      }
      if 192 <= c {
        PassPointer(msg, index, n, w, size, tolerant);
        depth := depth + 1;
        if depth >= |msg| || depth > UDP_MAXSIZE {
          Rejected(msg, index, n, size, tolerant);
          return false, 0, 0, n;
        }
        if compressed == 0 {
          compressed := i + 1;
        }
        i := c as int % 64 * 256 + msg[i];
        if i >= |msg| {
          Rejected(msg, index, n, size, tolerant);
          return false, 0, 0, n;
        }
      } else if c < 64 {
        var taken := TakeLabel(msg, i, c, mem, base, j, size, tolerant, index, n, w);
        if !taken {
          return false, 0, 0, n;
        }
        labels := labels + [msg[i..i + c]];
        i, j := i + c, j + c + 1;
      } else {
        NoRoom(msg, index, n, size, tolerant);
        return false, 0, 0, n;
      }
      n := n + 1;
    }
    WalkStop(msg, index, n, Walk(i, labels, depth), size, tolerant);
    ok, end := true, if compressed != 0 then compressed else i + 1;
  }

  /** get_objname (dns.c).  The destination is mem[base..base + size]; the octet before it
      belongs to the caller, and the root name is the one case in which it is written.
      The ghost result n counts the hops of the decoded name. */
  method GetObjName(msg: seq<byte>, index: int, mem: array<byte>, base: nat, size: nat, tolerant: bool)
    returns (r: int, ghost n: nat)
    requires 1 <= base && 1 <= size && base + size <= mem.Length
    modifies mem
    ensures r < 0 ==> r == -1
    ensures r < 0 <==> !(DATA_BEGIN <= index < |msg| && exists k: nat :: Accepted(msg, index, k, size, tolerant))
    ensures 0 <= r ==> Accepted(msg, index, n, size, tolerant)
    ensures 0 <= r ==> r == InPlaceEnd(msg, index) && index < r <= |msg|
    ensures 0 <= r && Hops(msg, index, n).value.labels != [] ==>
      var text := Text(Hops(msg, index, n).value.labels);
      |text| < size && mem[base..base + |text| + 1] == text + [0] && mem[base - 1] == old(mem[base - 1])
    ensures 0 <= r && Hops(msg, index, n).value.labels == [] ==>
      mem[base - 1] == 0 && forall x :: base <= x < base + size ==> mem[x] == old(mem[x])
    ensures forall x :: 0 <= x < mem.Length && !(base - 1 <= x < base + size) ==> mem[x] == old(mem[x])
  {
    hide Hop, Hops, InPlaceEnd, WithinLimits, Text, Ends, Accepted;
    if index < DATA_BEGIN || index >= |msg| {
      return -1, 0;
    }
    var ok, end, j, hops := Expand(msg, index, mem, base, size, tolerant);
    n := hops;
    if !ok {
      return -1, n;
    }
    TextEnds(msg, index, n, size, tolerant);
    mem[base + j - 1] := 0;
    r := end;
  }
}

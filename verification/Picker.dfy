/** sort_interfaces.cpp: orders server/interface pairs so that a round of picks takes every address
    and every interface at most once. */
module Picker {

  const UNIQUE_IPS := 5
  const IF_LEN := 8

  /** Where strstr finds "eth", or the length of the text. */
  function EthAt(text: string): (k: nat)
    ensures k <= |text|
    ensures k < |text| ==> k + 3 <= |text| && text[k..k + 3] == "eth"
  {
    if |text| < 3 then |text|
    else if text[..3] == "eth" then 0
    else 1 + EthAt(text[1..])
  }

  /** It is the first one. */
  lemma {:induction false} EthAtIs(text: string, i: nat)
    requires i + 3 <= |text| && text[i..i + 3] == "eth"
    ensures EthAt(text) <= i && text[EthAt(text)..EthAt(text) + 3] == "eth"
  {
    if text[..3] != "eth" {
      assert i > 0 && text[1..][i - 1..i + 2] == "eth";
      EthAtIs(text[1..], i - 1);
    }
  }

  predicate HasIf(text: string) {
    EthAt(text) < |text|
  }

  /** The interface name of a pair. */
  function Name(text: string): string {
    text[EthAt(text)..]
  }

  /** What strncpy keeps of a name. */
  function Cut(name: string): string {
    if |name| <= IF_LEN then name else name[..IF_LEN]
  }

  /** The contents of curr_if after these picks. */
  function Used(picked: seq<string>): (u: seq<string>)
    ensures |u| == |picked| && forall i :: 0 <= i < |u| ==> u[i] == Cut(Name(picked[i]))
  {
    seq(|picked|, i requires 0 <= i < |picked| => Cut(Name(picked[i])))
  }

  predicate Open(text: string, used: seq<string>) {
    HasIf(text) && Name(text) !in used
  }

  /** The first pair of an address that can be picked, or the length of the row. */
  function Choice(row: seq<string>, used: seq<string>): (k: nat)
    ensures k <= |row|
    ensures k < |row| ==> Open(row[k], used)
    ensures forall i :: 0 <= i < k ==> !Open(row[i], used)
  {
    if row == [] || Open(row[0], used) then 0 else 1 + Choice(row[1..], used)
  }

  /** What a pass picks, and the table it leaves. */
  datatype Round = Round(picked: seq<string>, rest: seq<seq<string>>)

  /** A pass over the first n addresses. */
  function Pass(t: seq<seq<string>>, n: nat): (r: Round)
    requires n <= |t|
    ensures |r.rest| == n && |r.picked| <= n
  {
    if n == 0 then Round([], []) else
    var r, row := Pass(t, n - 1), t[n - 1];
    var k := Choice(row, Used(r.picked));
    if k < |row| then Round(r.picked + [row[k]], r.rest + [row[k := ""]]) else Round(r.picked, r.rest + [row])
  }

  // ---------------------------------------------------------------------------
  // One pass.
  // ---------------------------------------------------------------------------

  /** The pairs in a row, and in a table. */
  function RowPairs(row: seq<string>): multiset<string> {
    if row == [] then multiset{}
    else RowPairs(row[..|row| - 1]) + if HasIf(row[|row| - 1]) then multiset{row[|row| - 1]} else multiset{}
  }

  function Pairs(t: seq<seq<string>>): multiset<string> {
    if t == [] then multiset{} else Pairs(t[..|t| - 1]) + RowPairs(t[|t| - 1])
  }

  lemma {:induction false} ClearPair(row: seq<string>, k: nat)
    requires k < |row| && HasIf(row[k])
    ensures RowPairs(row) == RowPairs(row[k := ""]) + multiset{row[k]}
  {
    hide HasIf;
    var last := |row| - 1;
    if k == last {
      ClearLast(row);
    } else {
      ClearPair(row[..last], k);
      KeepLast(row, k);
    }
  }

  lemma {:induction false} ClearLast(row: seq<string>)
    requires row != [] && HasIf(row[|row| - 1])
    ensures RowPairs(row) == RowPairs(row[|row| - 1 := ""]) + multiset{row[|row| - 1]}
  {
    hide HasIf;
    EmptyIsNoPair();
    assert row[|row| - 1 := ""][..|row| - 1] == row[..|row| - 1];
  }

  lemma {:induction false} KeepLast(row: seq<string>, k: nat)
    requires k < |row| - 1
    requires RowPairs(row[..|row| - 1]) == RowPairs(row[..|row| - 1][k := ""]) + multiset{row[k]}
    ensures RowPairs(row) == RowPairs(row[k := ""]) + multiset{row[k]}
  {
    hide HasIf;
    assert row[k := ""][..|row| - 1] == row[..|row| - 1][k := ""];
  }

  lemma {:induction false} EmptyIsNoPair()
    ensures !HasIf("")
  {
  }

  lemma {:induction false} PairsSnoc(t: seq<seq<string>>, row: seq<string>)
    ensures Pairs(t + [row]) == Pairs(t) + RowPairs(row)
  {
    assert (t + [row])[..|t|] == t;
  }

  lemma {:induction false} TakeOne(picked: seq<string>, rest: seq<seq<string>>, row: seq<string>, k: nat)
    requires k < |row| && HasIf(row[k])
    ensures multiset(picked) + Pairs(rest) + RowPairs(row) == multiset(picked + [row[k]]) + Pairs(rest + [row[k := ""]])
  {
    hide HasIf, RowPairs, Pairs;
    ClearPair(row, k);
    PairsSnoc(rest, row[k := ""]);
    assert multiset(picked + [row[k]]) == multiset(picked) + multiset{row[k]};
  }

  lemma {:induction false} TakeNone(picked: seq<string>, rest: seq<seq<string>>, row: seq<string>)
    ensures multiset(picked) + Pairs(rest) + RowPairs(row) == multiset(picked) + Pairs(rest + [row])
  {
    hide RowPairs, Pairs;
    PairsSnoc(rest, row);
  }

  /** A pass moves pairs from the table to its picks and loses none. */
  lemma {:induction false} PassConserves(t: seq<seq<string>>, n: nat)
    requires n <= |t|
    ensures Pairs(t[..n]) == multiset(Pass(t, n).picked) + Pairs(Pass(t, n).rest)
  {
    hide HasIf, Open, RowPairs, Choice, Used, Pairs;
    if n == 0 {
      NoRows(t[..0]);
    } else {
      PassConserves(t, n - 1);
      var r, row := Pass(t, n - 1), t[n - 1];
      assert t[..n] == t[..n - 1] + [row];
      PairsSnoc(t[..n - 1], row);
      var k := Choice(row, Used(r.picked));
      if k < |row| {
        OpenHasIf(row[k], Used(r.picked));
        TakeOne(r.picked, r.rest, row, k);
      } else {
        TakeNone(r.picked, r.rest, row);
      }
    }
  }

  lemma {:induction false} NoRows(t: seq<seq<string>>)
    requires t == []
    ensures Pairs(t) == multiset{}
  {
  }

  lemma {:induction false} OpenHasIf(text: string, used: seq<string>)
    requires Open(text, used)
    ensures HasIf(text) && Name(text) !in used
  {
  }

  /** An interface is picked twice in a pass only if its name is longer than what is remembered. */
  lemma {:induction false} NoInterfaceTwice(t: seq<seq<string>>, n: nat, i: nat, j: nat)
    requires n <= |t| && i < j < |Pass(t, n).picked| && Name(Pass(t, n).picked[i]) == Name(Pass(t, n).picked[j])
    ensures |Name(Pass(t, n).picked[i])| > IF_LEN
  {
    hide HasIf, Name;
    var r, s, row := Pass(t, n - 1), Pass(t, n), t[n - 1];
    if j < |r.picked| {
      NoInterfaceTwice(t, n - 1, i, j);
    } else {
      var k := Choice(row, Used(r.picked));
      OpenHasIf(row[k], Used(r.picked));
      assert Used(r.picked)[i] == Cut(Name(s.picked[i]));
    }
  }

  /** The pairs of the table are among the given ones. */
  ghost predicate Over(t: seq<seq<string>>, texts: set<string>) {
    forall i, k :: 0 <= i < |t| && 0 <= k < |t[i]| ==> t[i][k] in texts
  }

  /** Everything picked is a pair of the table. */
  lemma {:induction false} PicksAreGiven(t: seq<seq<string>>, n: nat, texts: set<string>)
    requires n <= |t| && Over(t, texts)
    ensures forall p :: p in Pass(t, n).picked ==> p in texts && HasIf(p)
  {
    hide HasIf, Name, Used;
    if n > 0 {
      PicksAreGiven(t, n - 1, texts);
      var r, row := Pass(t, n - 1), t[n - 1];
      var k := Choice(row, Used(r.picked));
      if k < |row| {
        OpenHasIf(row[k], Used(r.picked));
        assert t[n - 1][k] in texts;
      }
    }
  }

  /** No name is longer than what is remembered. */
  ghost predicate Short(texts: set<string>) {
    forall a :: a in texts && HasIf(a) ==> |Name(a)| <= IF_LEN
  }

  ghost predicate PicksOnce(t: seq<seq<string>>) {
    var picked := Pass(t, |t|).picked;
    forall i, j :: 0 <= i < j < |picked| ==> Name(picked[i]) != Name(picked[j])
  }

  lemma {:induction false} ShortPicksOnce(t: seq<seq<string>>, texts: set<string>)
    requires Short(texts) && Over(t, texts)
    ensures PicksOnce(t)
  {
    hide HasIf, Name, Pass;
    PicksAreGiven(t, |t|, texts);
    var picked := Pass(t, |t|).picked;
    forall i, j | 0 <= i < j < |picked| ensures Name(picked[i]) != Name(picked[j]) {
      assert picked[i] in picked;
      if Name(picked[i]) == Name(picked[j]) {
        NoInterfaceTwice(t, |t|, i, j);
      }
    }
  }

  lemma {:induction false} LongPickedTwice(a: string)
    requires HasIf(a) && |Name(a)| > IF_LEN
    ensures !PicksOnce([[a], [a]])
  {
    hide HasIf, Name, Pass;
    var t := [[a], [a]];
    FirstPick(t, a);
    LongNamesAreForgottenIff(t, 1, a, a);
    var picked := Pass(t, |t|).picked;
    assert picked == [a] + [a];
    assert Name(picked[0]) == Name(picked[1]);
  }

  /** For the pairs at hand no pass over any table picks an interface twice exactly if no name is
      too long. */
  lemma {:induction false} PicksOnceIff(texts: set<string>)
    ensures Short(texts) <==> forall t :: Over(t, texts) ==> PicksOnce(t)
  {
    hide HasIf, Name, PicksOnce;
    if Short(texts) {
      forall t | Over(t, texts) ensures PicksOnce(t) {
        ShortPicksOnce(t, texts);
      }
    } else {
      var a :| a in texts && HasIf(a) && |Name(a)| > IF_LEN;
      LongPickedTwice(a);
      assert Over([[a], [a]], texts);
    }
  }

  lemma {:induction false} FirstPick(t: seq<seq<string>>, a: string)
    requires t != [] && t[0] == [a] && HasIf(a)
    ensures Pass(t, 1) == Round([a], [[""]])
  {
    hide HasIf, Name;
    var r := Pass(t, 0);
    assert r == Round([], []) && Used(r.picked) == [];
    assert Choice(t[0], Used(r.picked)) == 0;
    assert t[0][0 := ""] == [""] && r.rest + [t[0][0 := ""]] == [[""]];
  }

  /** What the memory of a pass holds: of every picked name the first eight characters. */
  lemma {:induction false} UsedIff(picked: seq<string>, name: string)
    ensures name in Used(picked) <==> |name| <= IF_LEN && exists i :: 0 <= i < |picked| && Cut(Name(picked[i])) == name
  {
    hide Name;
    forall i | 0 <= i < |picked| && Cut(Name(picked[i])) == name ensures name in Used(picked) {
      assert Used(picked)[i] == name;
    }
    if name in Used(picked) {
      var i :| 0 <= i < |picked| && Used(picked)[i] == name;
      assert Cut(Name(picked[i])) == name;
    }
  }

  /** So an address whose only interface was picked in the same pass is picked too exactly if the
      name is too long. */
  lemma {:induction false} LongNamesAreForgottenIff(t: seq<seq<string>>, n: nat, p: string, b: string)
    requires n < |t| && t[n] == [b] && HasIf(b) && p in Pass(t, n).picked && Name(p) == Name(b)
    ensures Pass(t, n + 1).picked == Pass(t, n).picked + [b] <==> |Name(b)| > IF_LEN
    ensures Pass(t, n + 1).picked == Pass(t, n).picked <==> |Name(b)| <= IF_LEN
  {
    hide HasIf, Name, Used;
    var r := Pass(t, n);
    UsedIff(r.picked, Name(b));
    var i :| 0 <= i < |r.picked| && r.picked[i] == p;
    assert |Name(b)| <= IF_LEN ==> Cut(Name(r.picked[i])) == Name(b);
    assert Choice(t[n], Used(r.picked)) == (if Name(b) in Used(r.picked) then 1 else 0);
  }

  /** Of every address at most one pair is picked, and none only if all its interfaces are
      remembered. */
  ghost predicate RowDone(before: seq<string>, after: seq<string>, picked: seq<string>) {
    || Took(before, after, picked)
    || (after == before && forall k :: 0 <= k < |before| && HasIf(before[k]) ==> Name(before[k]) in Used(picked))
  }

  ghost predicate Took(before: seq<string>, after: seq<string>, picked: seq<string>) {
    exists k :: 0 <= k < |before| && HasIf(before[k]) && before[k] in picked && after == before[k := ""]
  }

  /** The same, and none only if all its interfaces were picked in the pass. */
  ghost predicate RowServed(before: seq<string>, after: seq<string>, picked: seq<string>) {
    || Took(before, after, picked)
    || (after == before && forall k :: 0 <= k < |before| && HasIf(before[k]) ==> PickedOn(picked, Name(before[k])))
  }

  ghost predicate PickedOn(picked: seq<string>, name: string) {
    exists i :: 0 <= i < |picked| && HasIf(picked[i]) && Name(picked[i]) == name
  }

  lemma {:induction false} MorePicked(fewer: seq<string>, more: seq<string>)
    requires |fewer| <= |more| && fewer == more[..|fewer|]
    ensures forall p :: p in fewer ==> p in more
    ensures forall u :: u in Used(fewer) ==> u in Used(more)
  {
    forall i | 0 <= i < |fewer| ensures Used(fewer)[i] == Used(more)[i] {
      assert fewer[i] == more[i];
    }
    forall u | u in Used(fewer) ensures u in Used(more) {
      var i :| 0 <= i < |fewer| && Used(fewer)[i] == u;
      assert Used(more)[i] == u;
    }
  }

  lemma {:induction false} PassIsMaximal(t: seq<seq<string>>, n: nat, i: nat)
    requires i < n <= |t|
    ensures RowDone(t[i], Pass(t, n).rest[i], Pass(t, n).picked)
  {
    hide HasIf, Name, Cut;
    var r, s, row := Pass(t, n - 1), Pass(t, n), t[n - 1];
    if i < n - 1 {
      PassIsMaximal(t, n - 1, i);
      MorePicked(r.picked, s.picked);
    } else {
      var k := Choice(row, Used(r.picked));
      if k < |row| {
        OpenHasIf(row[k], Used(r.picked));
        assert s.picked[|r.picked|] == row[k];
      }
    }
  }

  /** No name that is too long starts with another one that is exactly as long as the memory. */
  ghost predicate Apart(texts: set<string>) {
    forall a, b :: a in texts && b in texts && HasIf(a) && HasIf(b) && |Name(a)| > IF_LEN ==> Cut(Name(a)) != Name(b)
  }

  ghost predicate Maximal(t: seq<seq<string>>) {
    forall i :: 0 <= i < |t| ==> RowServed(t[i], Pass(t, |t|).rest[i], Pass(t, |t|).picked)
  }

  /** A remembered name is the name of a pick, if no longer name of the table starts with it. */
  lemma {:induction false} RememberedWasPicked(picked: seq<string>, texts: set<string>, b: string)
    requires Apart(texts) && b in texts && HasIf(b) && forall p :: p in picked ==> p in texts && HasIf(p)
    requires Name(b) in Used(picked)
    ensures PickedOn(picked, Name(b))
  {
    hide HasIf, Name, Used;
    UsedIff(picked, Name(b));
    var i :| 0 <= i < |picked| && Cut(Name(picked[i])) == Name(b);
    assert picked[i] in picked;
    assert Name(picked[i]) == Name(b);
  }

  lemma {:induction false} ApartIsMaximal(t: seq<seq<string>>, texts: set<string>)
    requires Over(t, texts) && Apart(texts)
    ensures Maximal(t)
  {
    hide HasIf, Name, Used, Apart, PickedOn;
    var r := Pass(t, |t|);
    PicksAreGiven(t, |t|, texts);
    forall i | 0 <= i < |t| ensures RowServed(t[i], r.rest[i], r.picked) {
      PassIsMaximal(t, |t|, i);
      if !Took(t[i], r.rest[i], r.picked) {
        forall k | 0 <= k < |t[i]| && HasIf(t[i][k]) ensures PickedOn(r.picked, Name(t[i][k])) {
          assert t[i][k] in texts;
          RememberedWasPicked(r.picked, texts, t[i][k]);
        }
      }
    }
  }

  /** An address is passed over although nothing was picked on its interface. */
  lemma {:induction false} ShadowedAddress(a: string, b: string)
    requires HasIf(a) && HasIf(b) && |Name(a)| > IF_LEN && Cut(Name(a)) == Name(b)
    ensures Pass([[a], [b]], 2) == Round([a], [[""], [b]]) && !PickedOn([a], Name(b)) && !Maximal([[a], [b]])
  {
    hide HasIf, Name;
    var t := [[a], [b]];
    FirstPick(t, a);
    assert Used([a]) == [Name(b)];
    assert Choice([b], Used([a])) == 1;
    assert Pass(t, 2) == Round([a], [[""], [b]]);
    assert !RowServed(t[1], Pass(t, 2).rest[1], Pass(t, 2).picked);
  }

  /** For the pairs at hand every pass over every table is maximal exactly if no name is the start
      of a longer one, as far as it is remembered. */
  lemma {:induction false} PassIsMaximalIff(texts: set<string>)
    ensures Apart(texts) <==> forall t :: Over(t, texts) ==> Maximal(t)
  {
    hide HasIf, Name, Used, Maximal, RowServed;
    if Apart(texts) {
      forall t | Over(t, texts) ensures Maximal(t) {
        ApartIsMaximal(t, texts);
      }
    } else {
      var a, b :| a in texts && b in texts && HasIf(a) && HasIf(b) && |Name(a)| > IF_LEN && Cut(Name(a)) == Name(b);
      ShadowedAddress(a, b);
      assert Over([[a], [b]], texts);
    }
  }

  /** For instance: nothing is picked on eth12345, yet the second address is passed over. */
  lemma {:induction false} ShadowedExample()
    ensures Pass([["1:eth123456"], ["2:eth12345"]], 2).picked == ["1:eth123456"]
    ensures !Maximal([["1:eth123456"], ["2:eth12345"]])
  {
    NameAfterColon("1", "eth123456");
    NameAfterColon("2", "eth12345");
    assert "1:eth123456" == "1" + ":" + "eth123456" && "2:eth12345" == "2" + ":" + "eth12345";
    assert "eth123456"[..IF_LEN] == "eth12345";
    ShadowedAddress("1:eth123456", "2:eth12345");
  }

  lemma {:induction false} NameAfterColon(ip: string, name: string)
    requires |ip| == 1 && ip[0] != 'e' && |name| >= 3 && name[..3] == "eth"
    ensures HasIf(ip + ":" + name) && Name(ip + ":" + name) == name
  {
    var text := ip + ":" + name;
    assert text[1..] == ":" + name && (":" + name)[1..] == name;
    assert EthAt(name) == 0;
    assert (":" + name)[..3][0] == ':';
    assert EthAt(":" + name) == 1;
    assert text[..3][0] == ip[0];
    assert EthAt(text) == 2;
    assert text[2..] == name;
  }

  /** A pass that picks nothing found no pair at all. */
  lemma {:induction false} EmptyPass(t: seq<seq<string>>, n: nat)
    requires n <= |t| && Pass(t, n).picked == []
    ensures Pairs(t[..n]) == multiset{} && Pass(t, n).rest == t[..n]
  {
    hide HasIf, Name, RowPairs;
    if n > 0 {
      EmptyPass(t, n - 1);
      assert t[..n] == t[..n - 1] + [t[n - 1]];
      assert Choice(t[n - 1], []) == |t[n - 1]|;
      NoPair(t[n - 1]);
    }
  }

  lemma {:induction false} NoPair(row: seq<string>)
    requires Choice(row, []) == |row|
    ensures RowPairs(row) == multiset{}
  {
    hide HasIf, Name;
    if row != [] {
      var last := |row| - 1;
      assert !Open(row[last], []);
      assert forall i :: 0 <= i < last ==> !Open(row[..last][i], []);
      NoPair(row[..last]);
    }
  }

  // ---------------------------------------------------------------------------
  // All passes.
  // ---------------------------------------------------------------------------

  lemma {:induction false} PassShrinks(t: seq<seq<string>>)
    ensures |Pairs(t)| == |Pass(t, |t|).picked| + |Pairs(Pass(t, |t|).rest)|
  {
    hide Pass, Pairs;
    PassConserves(t, |t|);
    assert t[..|t|] == t;
  }

  /** Pass after pass until one picks nothing. */
  function Order(t: seq<seq<string>>): (order: seq<string>)
    decreases |Pairs(t)|
  {
    PassShrinks(t);
    var r := Pass(t, |t|);
    if r.picked == [] then [] else r.picked + Order(r.rest)
  }

  lemma {:induction false} OrderStep(t: seq<seq<string>>, sorted: seq<string>)
    ensures var r := Pass(t, |t|);
      if r.picked == [] then Order(t) == [] && Pairs(t) == multiset{} && r.rest == t
      else sorted + Order(t) == (sorted + r.picked) + Order(r.rest) && |Pairs(r.rest)| < |Pairs(t)|
  {
    hide Pass, Pairs;
    PassShrinks(t);
    assert t[..|t|] == t;
    var r := Pass(t, |t|);
    if r.picked == [] {
      EmptyPass(t, |t|);
    } else {
      assert sorted + (r.picked + Order(r.rest)) == (sorted + r.picked) + Order(r.rest);
    }
  }

  /** The order is a permutation of all pairs: every pair is picked, each as often as it was given. */
  lemma {:induction false} OrderIsPermutation(t: seq<seq<string>>)
    ensures multiset(Order(t)) == Pairs(t)
    decreases |Pairs(t)|
  {
    hide Pass, Pairs;
    PassShrinks(t);
    var r := Pass(t, |t|);
    assert t[..|t|] == t;
    if r.picked == [] {
      EmptyPass(t, |t|);
    } else {
      OrderIsPermutation(r.rest);
      PassConserves(t, |t|);
    }
  }

  // ---------------------------------------------------------------------------
  // The program.
  // ---------------------------------------------------------------------------

  /** is_if_duplicate */
  method IsIfDuplicate(currIf: seq<string>, name: string) returns (found: bool)
    ensures found <==> name in currIf
  {
    var c := 0;
    while c < |currIf|
      invariant 0 <= c <= |currIf| && name !in currIf[..c]
    {
      if currIf[c] == name {
        return true;
      }
      c := c + 1;
    }
    return false;
  }

  /** The innermost loop: the first interface of an address that is not in use. */
  method PickIntf(row: seq<string>, currIf: seq<string>) returns (intf: nat)
    ensures intf == Choice(row, currIf)
  {
    hide HasIf, Name;
    intf := 0;
    while intf < |row|
      invariant intf <= |row| && forall i :: 0 <= i < intf ==> !Open(row[i], currIf)
    {
      if HasIf(row[intf]) {
        var duplicate := IsIfDuplicate(currIf, Name(row[intf]));
        if !duplicate {
          return;
        }
      }
      intf := intf + 1;
    }
  }

  lemma {:induction false} PassTurn(t: seq<seq<string>>, ip: nat, intf: nat)
    requires ip < |t| && intf == Choice(t[ip], Used(Pass(t, ip).picked))
    ensures var r, s, row := Pass(t, ip), Pass(t, ip + 1), t[ip];
      if intf < |row| then
        && s.picked == r.picked + [row[intf]] && Used(s.picked) == Used(r.picked) + [Cut(Name(row[intf]))]
        && s.rest + t[ip + 1..] == (r.rest + t[ip..])[ip := row[intf := ""]]
      else s.picked == r.picked && s.rest + t[ip + 1..] == r.rest + t[ip..]
  {
    hide Choice, Name;
    assert t[ip..] == [t[ip]] + t[ip + 1..];
  }

  lemma {:induction false} PassNone(t: seq<seq<string>>)
    ensures Pass(t, 0) == Round([], []) && Used([]) == [] && [] + t[0..] == t
  {
  }

  /** One pass over the table in place. */
  method PickPass(group: array<seq<string>>, sorted: seq<string>) returns (out: seq<string>, lookMore: bool)
    requires group.Length == UNIQUE_IPS
    modifies group
    ensures var r := Pass(old(group[..]), UNIQUE_IPS);
      group[..] == r.rest && out == sorted + r.picked && (lookMore <==> r.picked != [])
  {
    hide Choice, Name, Used, Pass, Cut;
    ghost var t := group[..];
    PassNone(t);
    var currIf: seq<string> := [];
    out, lookMore := sorted, false;
    for ip := 0 to UNIQUE_IPS
      invariant out == sorted + Pass(t, ip).picked && (lookMore <==> Pass(t, ip).picked != [])
      invariant currIf == Used(Pass(t, ip).picked)
      invariant group[..] == Pass(t, ip).rest + t[ip..]
    {
      var row := group[ip];
      assert group[..][ip] == t[ip..][0];
      var intf := PickIntf(row, currIf);
      PassTurn(t, ip, intf);
      if intf < |row| {
        currIf := currIf + [Cut(Name(row[intf]))];
        out, lookMore := out + [row[intf]], true;
        group[ip] := row[intf := ""];
      }
    }
  }

  /** The sorting of main: the pairs of the table, in the order in which they are to be used. */
  method SortInterfaces(group: array<seq<string>>) returns (sorted: seq<string>)
    requires group.Length == UNIQUE_IPS
    modifies group
    ensures sorted == Order(old(group[..])) && multiset(sorted) == Pairs(old(group[..]))
    ensures Pairs(group[..]) == multiset{}
  {
    hide Pass, Pairs, Order;
    ghost var t := group[..];
    sorted := [];
    var lookMore := true;
    OrderIsPermutation(t);
    assert [] + Order(t) == Order(t);
    while lookMore
      invariant lookMore ==> sorted + Order(group[..]) == Order(t)
      invariant !lookMore ==> sorted == Order(t) && Pairs(group[..]) == multiset{}
      decreases lookMore, |Pairs(group[..])|
    {
      OrderStep(group[..], sorted);
      sorted, lookMore := PickPass(group, sorted);
    }
  }
}

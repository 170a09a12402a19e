/** Upstream servers and their liveness: the circular server lists (srvnode.c), the choice of the
    current server (infnode.c) and the timeout sweep over one interface (relay.c). */
module Servers {
  import opened Octets

  /** srvnode_t: inactive is zero for an active server, otherwise the time it was given up; the
      list head carries -1. */
  class SrvNode {
    var addr: nat
    var inactive: int
    var sendTime: int
    var sendCount: nat
    var next: SrvNode?

    /** alloc_srvnode */
    constructor (addr: nat)
      ensures this.addr == addr && inactive == -1 && sendTime == 0 && sendCount == 0 && next == this
    {
      this.addr, inactive, sendTime, sendCount := addr, -1, 0, 0;
      new;
      next := this;
    }

    /** The server counts as alive and owes nothing. */
    method Revive()
      modifies this`inactive, this`sendTime
      ensures inactive == 0 && sendTime == 0
    {
      sendTime, inactive := 0, 0;
    }
  }

  /** What changes at a server while the daemon runs. */
  datatype Fields = Fields(inactive: int, sendTime: int, sendCount: nat)

  predicate IsDue(f: Fields, now: int, delay: int) {
    f.inactive != 0 && now - f.inactive >= delay
  }

  /** What a retry makes of a server; accepted says that a dummy query could be created and sent. */
  function Retried(f: Fields, now: int, delay: int, accepted: bool): Fields {
    if !IsDue(f, now, delay) then f
    else if !accepted then f.(inactive := now)
    else Fields(now, if f.sendTime == 0 then now else f.sendTime, f.sendCount + 1)
  }

  /** In times: a server given up at least delay seconds ago is given up anew; if the dummy query went
      out it counts as sent, and the oldest unanswered request keeps its time. */
  lemma {:induction false} RetryInTimes(f: Fields, now: int, delay: int, accepted: bool)
    ensures IsDue(f, now, delay) <==> f.inactive != 0 && now - f.inactive >= delay
    ensures var r := Retried(f, now, delay, accepted);
      if f.inactive == 0 || now - f.inactive < delay then r == f
      else
        && r.inactive == now && (!accepted ==> r.sendTime == f.sendTime && r.sendCount == f.sendCount)
        && (accepted ==> r.sendCount == f.sendCount + 1 && r.sendTime == if f.sendTime == 0 then now else f.sendTime)
  {
  }

  /** r is the first active server after s in circular order, zero if no server is active. */
  ghost predicate FirstActive(a: seq<bool>, s: nat, r: nat)
    requires s < |a| && r < |a|
  {
    && (r == 0 ==> forall e :: 0 <= e < |a| ==> !a[e])
    && (r != 0 ==> a[r])
    && (s < r ==> forall e :: s < e < r ==> !a[e])
    && (0 < r <= s ==> (forall e :: s < e < |a| ==> !a[e]) && forall e :: 0 <= e < r ==> !a[e])
  }

  /** There is only one such server. */
  lemma {:induction false} FirstActiveIsUnique(a: seq<bool>, s: nat, r: nat, t: nat)
    requires s < |a| && r < |a| && t < |a| && FirstActive(a, s, r) && FirstActive(a, s, t)
    ensures r == t
  {
  }

  /** Giving up another server does not change which one is first. */
  lemma {:induction false} StillFirst(a: seq<bool>, s: nat, r: nat, k: nat)
    requires s < |a| && r < |a| && k < |a| && k != r && FirstActive(a, s, r)
    ensures FirstActive(a[k := false], s, r)
  {
  }

  /** If the first one is given up, the next one after it is the first. */
  lemma {:induction false} MoveOn(a: seq<bool>, s: nat, k: nat, r: nat)
    requires s < |a| && r < |a| && 0 < k < |a| && FirstActive(a, s, k)
    requires FirstActive(a[k := false], k, r) && !a[k := false][s]
    ensures FirstActive(a[k := false], s, r)
  {
  }

  /** How many are active. */
  ghost function ActiveCount(a: seq<bool>): nat {
    if a == [] then 0 else ActiveCount(a[..|a| - 1]) + if a[|a| - 1] then 1 else 0
  }

  lemma {:induction false} OneFewer(a: seq<bool>, k: nat)
    requires k < |a| && a[k]
    ensures ActiveCount(a) == ActiveCount(a[k := false]) + 1
  {
    var last := |a| - 1;
    if k == last {
      assert a[k := false][..last] == a[..last];
    } else {
      OneFewer(a[..last], k);
      assert a[k := false][..last] == a[..last][k := false];
    }
  }

  ghost function Nobody(n: nat): seq<bool> {
    seq(n, i => false)
  }

  lemma {:induction false} NobodyCounts(n: nat)
    ensures ActiveCount(Nobody(n)) == 0
  {
    if n > 0 {
      NobodyCounts(n - 1);
      assert Nobody(n)[..n - 1] == Nobody(n - 1);
    }
  }

  lemma {:induction false} NobodyLeft(a: seq<bool>, s: nat, r: nat)
    requires s < |a| && r < |a| && FirstActive(a, s, r)
    ensures r == 0 ==> a == Nobody(|a|)
  {
  }

  /** Sending succeeds at some attempt from the n-th on. */
  ghost predicate SucceedsFrom(oracle: nat -> bool, n: nat) {
    exists m: nat :: n <= m && oracle(m)
  }

  /** infnode_t with its server list.  The ghost ring is the list in order, head first; cur is the
      index of the current server, zero for none. */
  class InfNode {
    const name: string
    const srvlist: SrvNode
    var current: SrvNode?
    ghost var ring: seq<SrvNode>
    ghost var cur: nat

    ghost predicate Linked()
      reads this`ring, ring`next
      ensures Linked() ==> ring != [] && ring[0] == srvlist
    {
      && ring != [] && ring[0] == srvlist
      && (forall i, j :: 0 <= i < j < |ring| ==> ring[i] != ring[j])
      && (forall i {:trigger ring[i].next} :: 0 <= i < |ring| - 1 ==> ring[i].next == ring[i + 1])
      && ring[|ring| - 1].next == srvlist
    }

    ghost predicate Active(i: nat)
      requires i < |ring|
      reads this`ring, ring`inactive
    {
      ring[i].inactive == 0
    }

    /** Which members of the ring are active. */
    ghost function Flags(): (a: seq<bool>)
      reads this`ring, ring`inactive
      ensures |a| == |ring| && forall i :: 0 <= i < |ring| ==> a[i] == Active(i)
    {
      FlagsTo(|ring|)
    }

    ghost function FlagsTo(n: nat): (a: seq<bool>)
      requires n <= |ring|
      reads this`ring, ring`inactive
      ensures |a| == n && forall i :: 0 <= i < n ==> a[i] == Active(i)
    {
      if n == 0 then [] else FlagsTo(n - 1) + [Active(n - 1)]
    }

    /** The list is a circle whose head is inactive, and current is null or a member. */
    ghost predicate Placed()
      reads this`ring, this`cur, this`current, ring`next, ring`inactive
    {
      && Linked() && ring[0].inactive != 0
      && cur < |ring| && current == (if cur == 0 then null else ring[cur])
    }

    /** Besides, the current server is active. */
    ghost predicate Valid()
      reads this`ring, this`cur, this`current, ring`next, ring`inactive
    {
      Placed() && (cur != 0 ==> Active(cur))
    }

    /** alloc_infnode: an interface without servers. */
    constructor (name: string)
      ensures Valid() && ring == [srvlist] && cur == 0 && this.name == name && fresh(srvlist)
    {
      this.name := name;
      var head := new SrvNode(0);
      srvlist, current := head, null;
      ring, cur := [head], 0;
    }

    // -------------------------------------------------------------------------
    // srvnode.c
    // -------------------------------------------------------------------------

    lemma {:induction false} NextInRing(k: nat)
      requires Linked() && k < |ring|
      ensures ring[k].next == if k + 1 < |ring| then ring[k + 1] else srvlist
      ensures k + 1 < |ring| ==> ring[k].next != srvlist
    {
    }

    /** ins_srvnode behind node k. */
    method InsSrvNode(list: SrvNode, p: SrvNode, ghost k: nat)
      requires Valid() && k < |ring| && list == ring[k] && p !in ring && p.inactive == 0
      modifies this`ring, this`cur, list`next, p`next
      ensures Valid() && ring == old(ring[..k + 1]) + [p] + old(ring[k + 1..]) && current == old(current)
    {
      p.next := list.next;
      list.next := p;
      if cur > k {
        cur := cur + 1;
      }
      ring := ring[..k + 1] + [p] + ring[k + 1..];
    }

    /** del_srvnode_after node k.  A current server that is deleted is current no more, but the
        pointer to it stays. */
    method DelSrvNodeAfter(list: SrvNode, ghost k: nat) returns (p: SrvNode)
      requires Linked() && k + 1 < |ring| && list == ring[k]
      modifies this`ring, this`cur, list`next
      ensures Linked() && p == old(ring[k + 1]) && ring == old(ring[..k + 1] + ring[k + 2..]) && current == old(current)
      ensures old(Valid()) ==> (Valid() <==> old(cur) != k + 1)
      ensures old(Valid()) && old(cur) == k + 1 ==> current == p
    {
      assert list.next == ring[k + 1];
      p := list.next;
      list.next := p.next;
      cur := if cur > k + 1 then cur - 1 else if cur == k + 1 then 0 else cur;
      ring := ring[..k + 1] + ring[k + 2..];
    }

    /** last_srvnode */
    method LastSrvNode() returns (p: SrvNode)
      requires Linked()
      ensures p == ring[|ring| - 1]
    {
      p := srvlist;
      ghost var k := 0;
      NextInRing(0);
      while p.next != srvlist
        invariant k < |ring| && p == ring[k]
        invariant p.next == if k + 1 < |ring| then ring[k + 1] else srvlist
        invariant p.next == srvlist <==> k + 1 == |ring|
        decreases |ring| - k
      {
        p := p.next;
        k := k + 1;
        NextInRing(k);
      }
    }

    /** add_srv, which its callers hand the last server: the new one comes behind it.  None stands
        for an address inet_aton refuses. */
    method AddSrv(addr: Option<nat>) returns (p: SrvNode?)
      requires Valid()
      modifies this`ring, this`cur, ring
      ensures Valid() && current == old(current) && (p == null <==> addr.None?)
      ensures p == null ==> ring == old(ring)
      ensures p != null ==> fresh(p) && p.addr == addr.value && p.inactive == 0 && ring == old(ring) + [p]
    {
      if addr.None? {
        return null;
      }
      var n := new SrvNode(addr.value);
      n.inactive := 0;
      var last := LastSrvNode();
      InsSrvNode(last, n, |ring| - 1);
      p := n;
    }

    /** clear_srvlist: the pointer to the current server stays. */
    method ClearSrvList()
      requires Linked()
      modifies this`ring, this`cur, ring
      ensures Linked() && ring == [srvlist] && current == old(current)
      ensures old(Valid()) ==> (Valid() <==> current == null)
    {
      NextInRing(0);
      while srvlist.next != srvlist
        invariant Linked() && forall i :: 0 <= i < |ring| ==> ring[i] in old(ring)
        invariant current == old(current) && ring[0].inactive == old(srvlist.inactive)
        invariant srvlist.next == srvlist <==> |ring| == 1
        decreases |ring|
      {
        var p := DelSrvNodeAfter(srvlist, 0);
        NextInRing(0);
      }
      cur := 0;
    }

    // -------------------------------------------------------------------------
    // infnode.c
    // -------------------------------------------------------------------------

    /** next_active */
    method NextActive() returns (r: SrvNode?, ghost n: nat)
      requires Placed()
      ensures n < |ring| && FirstActive(Flags(), cur, n) && r == (if n == 0 then null else ring[n])
      ensures if r == null then Flags() == Nobody(|ring|) else r in ring && r.inactive == 0
    {
      var start := if current != null then current else srvlist;
      var s: SrvNode := start.next;
      NextInRing(cur);
      n := if cur + 1 < |ring| then cur + 1 else 0;
      ghost var left := |ring|;
      while s.inactive != 0 && s != start
        invariant n < |ring| && s == ring[n] && 0 < left
        invariant cur < n ==> left == |ring| - (n - cur) + 1 && forall e :: cur < e < n ==> !Active(e)
        invariant n <= cur ==> left == cur - n + 1 && forall e :: cur < e < |ring| ==> !Active(e)
        invariant n <= cur ==> forall e :: 0 <= e < n ==> !Active(e)
        decreases left
      {
        NextInRing(n);
        s := s.next;
        n := if n + 1 < |ring| then n + 1 else 0;
        left := left - 1;
      }
      if s.inactive != 0 {
        return null, 0;
      }
      r := s;
    }

    /** set_current, to an active server or none. */
    method SetCurrent(s: SrvNode?, ghost n: nat)
      requires Placed() && n < |ring| && s == (if n == 0 then null else ring[n]) && (n != 0 ==> Active(n))
      modifies this`current, this`cur
      ensures Valid() && current == s && cur == n
    {
      hide Linked;
      current, cur := s, n;
    }

    /** The first line of deactivate_current. */
    method MarkInactive(now: int)
      requires Placed() && now != 0
      modifies ring`inactive
      ensures Placed()
      ensures forall i :: 0 <= i < |ring| ==> ring[i].inactive == if i == cur && i != 0 then now else old(ring[i].inactive)
    {
      hide Linked;
      if current != null {
        SamePlace(cur);
        current.inactive := now;
      }
    }

    /** deactivate_current; the time is never zero. */
    method DeactivateCurrent(now: int)
      requires Placed() && now != 0
      modifies this`current, this`cur, ring`inactive
      ensures Valid() && FirstActive(Flags(), old(cur), cur)
      ensures forall i :: 0 <= i < |ring| ==> ring[i].inactive == if i == old(cur) && i != 0 then now else old(ring[i].inactive)
    {
      hide Placed, FirstActive;
      MarkInactive(now);
      var s, n := NextActive();
      IsActive(n);
      SetCurrent(s, n);
    }

    lemma {:induction false} IsActive(n: nat)
      requires Placed() && n < |ring| && FirstActive(Flags(), cur, n)
      ensures n != 0 ==> Active(n)
    {
    }

    /** Line 323 of main.c: the first server is current at the start.  Of an interface without
        servers it is the list head, which is no server. */
    method StartWithFirst()
      requires Valid() && (|ring| > 1 ==> Active(1))
      modifies this`current, this`cur
      ensures current == (if |ring| > 1 then ring[1] else srvlist) && (Valid() <==> |ring| > 1)
    {
      NextInRing(0);
      current, cur := srvlist.next, if |ring| > 1 then 1 else 0;
    }

    /** The start of handle_query's choice: the first active server of the list, if any. */
    method Restart()
      requires Valid()
      modifies this`current, this`cur
      ensures Valid() && FirstActive(Flags(), 0, cur)
    {
      hide FirstActive, Linked;
      current, cur := null, 0;
      var s, n := NextActive();
      IsActive(n);
      SetCurrent(s, n);
    }

    /** A failed send: the current server is given up for the next active one. */
    method FailOver(now: int)
      requires Valid() && now > 0 && cur != 0
      modifies this`current, this`cur, ring`inactive
      ensures Valid() && Flags() == old(Flags())[old(cur) := false] && FirstActive(Flags(), old(cur), cur)
      ensures ActiveCount(Flags()) == old(ActiveCount(Flags())) - 1
      ensures cur == 0 ==> Flags() == Nobody(|ring|)
    {
      hide Linked, FirstActive, ActiveCount, Nobody;
      ghost var a, c := Flags(), cur;
      OneFewer(a, c);
      DeactivateCurrent(now);
      assert Flags() == a[c := false];
      NobodyLeft(Flags(), c, cur);
    }

    /** Lines 179-182 of udp.c: send to the current server and fail over to the next one.  The
        oracle says which of the attempts, counted over the daemon's life, succeed. */
    method SendOn(oracle: nat -> bool, from: nat, now: int, reactivate: bool) returns (next: nat)
      requires Valid() && now > 0 && (reactivate || SucceedsFrom(oracle, from))
      modifies this`current, this`cur, ring`inactive, ring`sendTime, ring`sendCount
      ensures Valid() && from <= next
      ensures forall t :: from <= t < next - 1 ==> !oracle(t)
      ensures current != null ==> from < next && oracle(next - 1) && current.sendTime != 0
      ensures current == null && from < next ==> !oracle(next - 1) && Flags() == Nobody(|ring|)
      ensures old(cur) == 0 <==> from == next
      ensures reactivate ==> next - from <= old(ActiveCount(Flags()))
      ensures reactivate ==> ActiveCount(Flags()) == old(ActiveCount(Flags())) - Failures(from, next)
      ensures reactivate && Failures(from, next) > 0 ==> FirstActive(Flags(), old(cur), cur)
      ensures forall i :: 0 <= i < |ring| && Active(i) ==> old(Active(i))
      ensures !reactivate || Failures(from, next) == 0 ==> cur == old(cur) && Flags() == old(Flags())
      ensures forall i :: 0 <= i < |ring| && (i == 0 || i != cur) ==> ring[i].sendTime == old(ring[i].sendTime)
      ensures forall i :: 0 <= i < |ring| ==>
        ring[i].sendCount == old(ring[i].sendCount) + (if i == cur && i != 0 && from < next then 1 else 0)
      ensures from < next && cur != 0 ==> var c := cur; current.sendTime == old(SentTime(c, now))
    {
      hide Linked, FirstActive, ActiveCount, Nobody, Flags;
      next := from;
      ghost var bound: nat := if reactivate then 0 else FirstTry(oracle, from);
      ghost var s := cur;
      while current != null
        invariant Valid() && from <= next && (from == next ==> cur == s && Flags() == old(Flags()))
        invariant forall t :: from <= t < next ==> !oracle(t)
        invariant if reactivate then next - from + ActiveCount(Flags()) == old(ActiveCount(Flags()))
                  else cur == s && Flags() == old(Flags()) && next <= bound
        invariant reactivate && from < next ==> !Flags()[s] && FirstActive(Flags(), s, cur)
        invariant from < next && cur == 0 ==> Flags() == Nobody(|ring|)
        invariant s == 0 ==> from == next
        invariant forall i :: 0 <= i < |ring| && Flags()[i] ==> old(Flags())[i]
        invariant forall i :: 0 <= i < |ring| ==> ring[i].sendTime == old(ring[i].sendTime)
        invariant forall i :: 0 <= i < |ring| ==> ring[i].sendCount == old(ring[i].sendCount)
        decreases ActiveCount(Flags()), bound - next
      {
        next := next + 1;
        if oracle(next - 1) {
          OneFewer(Flags(), cur);
          SamePlace(cur);
          MarkSent(current, now);
          return;
        }
        if reactivate {
          ghost var a, c := Flags(), cur;
          FailOver(now);
          if c != s {
            MoveOn(a, s, c, cur);
          }
        }
      }
    }

    /** How many of the attempts failed: all but the last, and that one too if no server is left. */
    ghost function Failures(from: nat, next: nat): nat
      reads this`current
    {
      if from >= next then 0 else if current != null then next - 1 - from else next - from
    }

    /** What a successful send makes of a server's send time. */
    ghost function SentTime(i: nat, now: int): int
      requires i < |ring|
      reads this`ring, ring`sendTime
    {
      if ring[i].sendTime == 0 then now else ring[i].sendTime
    }

    ghost function FirstTry(oracle: nat -> bool, n: nat): (m: nat)
      requires SucceedsFrom(oracle, n)
      ensures n <= m && oracle(m)
    {
      var m: nat :| n <= m && oracle(m);
      m
    }

    /** udp_send after a successful sendto. */
    method MarkSent(s: SrvNode, now: int)
      requires now > 0
      modifies s`sendTime, s`sendCount
      ensures s.sendTime == (if old(s.sendTime) == 0 then now else old(s.sendTime)) && s.sendCount == old(s.sendCount) + 1
    {
      if s.sendTime == 0 {
        s.sendTime := now;
      }
      s.sendCount := s.sendCount + 1;
    }

    /** Lines 444-448 and 601-602 of udp.c, for server k. */
    method Revive(s: SrvNode, ghost k: nat)
      requires Valid() && 0 < k < |ring| && s == ring[k]
      modifies s`inactive, s`sendTime
      ensures Valid() && Active(k) && s.sendTime == 0 && Flags() == old(Flags())[k := true] && current == old(current)
    {
      hide Linked;
      SamePlace(k);
      s.Revive();
    }

    /** reactivate_srvlist */
    method ReactivateSrvList()
      requires Valid()
      modifies ring`inactive, ring`sendTime
      ensures Valid() && current == old(current)
      ensures forall i :: 0 < i < |ring| ==> ring[i].inactive == 0 && ring[i].sendTime == 0
    {
      hide Linked;
      var s := srvlist;
      ghost var k := 0;
      NextInRing(0);
      while s.next != srvlist
        invariant Valid() && k < |ring| && s == ring[k]
        invariant s.next == if k + 1 < |ring| then ring[k + 1] else srvlist
        invariant s.next == srvlist <==> k + 1 == |ring|
        invariant forall i :: 0 < i <= k ==> ring[i].inactive == 0 && ring[i].sendTime == 0
        decreases |ring| - k
      {
        s := s.next;
        k := k + 1;
        SamePlace(k);
        s.inactive := 0;
        s.sendTime := 0;
        NextInRing(k);
      }
    }

    /** retry_srvlist: the inactive servers that are due get a new inactivity time and a dummy
        query; no server becomes active or inactive.  The oracle says to which of them a dummy query
        can be created and sent. */
    method RetrySrvList(now: int, delay: int, accepts: SrvNode -> bool) returns (dummies: set<SrvNode>)
      requires Valid() && now > 0
      modifies ring`inactive, ring`sendTime, ring`sendCount
      ensures Valid() && current == old(current)
      ensures forall i :: 0 <= i < |ring| ==>
        FieldsOf(i) == (if i == 0 then old(FieldsOf(i)) else Retried(old(FieldsOf(i)), now, delay, accepts(ring[i])))
      ensures forall i :: 0 <= i < |ring| ==> (ring[i] in dummies <==> i > 0 && IsDue(old(FieldsOf(i)), now, delay))
      ensures forall n :: n in dummies ==> n in ring
    {
      hide Linked, IsDue, Retried;
      dummies := {};
      var s := srvlist;
      ghost var k := 0;
      NextInRing(0);
      while s.next != srvlist
        invariant Placed() && k < |ring| && s == ring[k]
        invariant s.next == if k + 1 < |ring| then ring[k + 1] else srvlist
        invariant s.next == srvlist <==> k + 1 == |ring|
        invariant forall i :: 0 <= i < |ring| ==>
          FieldsOf(i) == (if 0 < i <= k then Retried(old(FieldsOf(i)), now, delay, accepts(ring[i])) else old(FieldsOf(i)))
        invariant forall i :: 0 <= i < |ring| ==> (ring[i].inactive == 0 <==> old(ring[i].inactive) == 0)
        invariant forall i :: 0 <= i < |ring| ==> (ring[i] in dummies <==> 0 < i <= k && IsDue(old(FieldsOf(i)), now, delay))
        invariant forall n :: n in dummies ==> n in ring
        decreases |ring| - k
      {
        s := s.next;
        k := k + 1;
        SamePlace(k);
        var due := RetryServer(s, k, now, delay, accepts);
        if due {
          dummies := dummies + {s};
        }
        NextInRing(k);
      }
    }

    /** The body of that loop. */
    method RetryServer(s: SrvNode, ghost k: nat, now: int, delay: int, accepts: SrvNode -> bool) returns (due: bool)
      requires now > 0 && k < |ring| && s == ring[k]
      modifies s`inactive, s`sendTime, s`sendCount
      ensures due == IsDue(old(FieldsOf(k)), now, delay)
      ensures FieldsOf(k) == Retried(old(FieldsOf(k)), now, delay, accepts(s))
      ensures s.inactive == 0 <==> old(s.inactive) == 0
    {
      due := s.inactive != 0 && now - s.inactive >= delay;
      if due {
        s.inactive := now;
        if accepts(s) {
          MarkSent(s, now);
        }
      }
    }

    ghost function FieldsOf(i: nat): Fields
      requires i < |ring|
      reads this`ring, ring`inactive, ring`sendTime, ring`sendCount
    {
      Fields(ring[i].inactive, ring[i].sendTime, ring[i].sendCount)
    }

    // -------------------------------------------------------------------------
    // relay.c: the timeout sweep over one interface
    // -------------------------------------------------------------------------

    /** What a sweep makes of a server's inactivity. */
    ghost function Swept(i: nat, now: int, timeout: int): int
      requires i < |ring|
      reads this`ring, ring`inactive, ring`sendTime
    {
      if i > 0 && Active(i) && ring[i].sendTime != 0 && now - ring[i].sendTime > timeout then now else ring[i].inactive
    }

    lemma {:induction false} SweptIs(now: int, timeout: int)
      ensures forall i :: 0 <= i < |ring| ==>
        var f := FieldsOf(i);
        Swept(i, now, timeout) == if i > 0 && f.inactive == 0 && f.sendTime != 0 && now - f.sendTime > timeout then now
                                  else f.inactive
    {
    }

    /** Give one server up; if it was the current one, the current server moves on. */
    method GiveUp(s: SrvNode, ghost k: nat, now: int)
      requires Valid() && now != 0 && 0 < k < |ring| && s == ring[k]
      modifies this`current, this`cur, ring`inactive
      ensures Valid()
      ensures forall i :: 0 <= i < |ring| ==> ring[i].inactive == if i == k then now else old(ring[i].inactive)
      ensures Flags() == old(Flags())[k := false]
      ensures if old(cur) == k then FirstActive(Flags(), k, cur) else cur == old(cur)
    {
      hide Linked, FirstActive;
      var currentDisabled := s == current;
      SamePlace(k);
      s.inactive := now;
      if currentDisabled {
        DeactivateCurrent(now);
      }
    }

    lemma {:induction false} SamePlace(k: nat)
      requires Placed() && 0 < k < |ring|
      ensures ring[k] == current <==> k == cur
      ensures forall i :: 0 <= i < |ring| && i != k ==> ring[i] != ring[k]
    {
    }

    /** The inner loop of deactivate_servers: every active server that has kept a request waiting
        too long is given up, and the current server moves on with it. */
    method DeactivateStale(now: int, timeout: int)
      requires Valid() && now != 0
      modifies this`current, this`cur, ring`inactive
      ensures Valid()
      ensures forall i :: 0 <= i < |ring| ==>
        var was := old(FieldsOf(i));
        FieldsOf(i) == if i > 0 && was.inactive == 0 && was.sendTime != 0 && now - was.sendTime > timeout
                       then was.(inactive := now) else was
      ensures if old(cur) != 0 && old(current.sendTime) != 0 && now - old(current.sendTime) > timeout
              then FirstActive(Flags(), old(cur), cur) else cur == old(cur)
    {
      hide Linked, FirstActive, Swept;
      SweptIs(now, timeout);
      var s := srvlist;
      ghost var k := 0;
      ghost var moved := cur != 0 && current.sendTime != 0 && now - current.sendTime > timeout;
      NextInRing(0);
      while s.next != srvlist
        invariant Valid() && k < |ring| && s == ring[k]
        invariant s.next == if k + 1 < |ring| then ring[k + 1] else srvlist
        invariant s.next == srvlist <==> k + 1 == |ring|
        invariant forall i :: 0 <= i < |ring| ==>
          ring[i].inactive == if i <= k then old(Swept(i, now, timeout)) else old(ring[i].inactive)
        invariant if moved && old(cur) <= k then FirstActive(Flags(), old(cur), cur) else cur == old(cur)
        decreases |ring| - k
      {
        s := s.next;
        k := k + 1;
        if s.inactive == 0 && s.sendTime != 0 && now - s.sendTime > timeout {
          ghost var a, c := Flags(), cur;
          GiveUp(s, k, now);
          if moved && old(cur) < k {
            if c == k {
              MoveOn(a, old(cur), k, cur);
            } else {
              StillFirst(a, old(cur), cur, k);
            }
          }
        }
        NextInRing(k);
      }
    }
  }
}

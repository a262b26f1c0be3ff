/** The replay cache of `common/replay.c`: a ring of the most recently accepted nonces. */
module Replay {
  import opened Octets

  type Nonce = n: Bytes | |n| == 16 witness seq(16, _ => 0)

  const DEFAULT_CAPACITY := 1024
  const SIZE_MAX := 0xFFFF_FFFF_FFFF_FFFF

  /** The window the ring stands for, oldest first: a new nonce enters, and the oldest leaves when it is full. */
  function Push(window: seq<Nonce>, capacity: nat, n: Nonce): seq<Nonce>
    requires |window| <= capacity && 0 < capacity
  {
    if n in window then window
    else if |window| == capacity then window[1..] + [n]
    else window + [n]
  }

  class ReplayCache {
    var entries: array?<Nonce>
    var capacity: nat
    var count: nat
    var nextIndex: nat

    /** A zeroed structure, not yet initialised. */
    constructor ()
      ensures Valid() && !Ready()
    {
      entries, capacity, count, nextIndex := null, 0, 0, 0;
    }

    predicate Ready()
      reads this
    {
      entries != null && 0 < capacity
    }

    predicate Valid()
      reads this
    {
      Ready() ==>
        && entries.Length == capacity && count <= capacity && nextIndex < capacity
        && (count < capacity ==> nextIndex == count)
    }

    /** The nonces held, oldest first. */
    function Window(): (w: seq<Nonce>)
      requires Ready() && Valid()
      reads this, entries
      ensures |w| == count
    {
      WindowOf(entries[..], count, nextIndex)
    }

    method Init(requested: nat, allocOk: bool) returns (ok: bool)
      requires Valid()
      modifies this
      ensures Valid()
      ensures var wanted := if requested == 0 then DEFAULT_CAPACITY else requested;
        && (ok <==> wanted <= SIZE_MAX / 16 && allocOk)
        && (ok ==> Ready() && fresh(entries) && capacity == wanted && Window() == [])
        && (wanted <= SIZE_MAX / 16 && !allocOk ==> !Ready())
    {
      var wanted := if requested == 0 then DEFAULT_CAPACITY else requested;
      if wanted > SIZE_MAX / 16 {
        return false;
      }
      if !allocOk {
        entries := null;
        return false;
      }
      entries := new Nonce[wanted](_ => [0, 0, 0, 0, 0, 0, 0, 0, 0, 0, 0, 0, 0, 0, 0, 0]);
      capacity, count, nextIndex := wanted, 0, 0;
      return true;
    }

    /** The scan over the slots in use. */
    method Scan(nonce: Nonce) returns (found: bool)
      requires Ready() && Valid()
      ensures found <==> nonce in Window()
    {
      HeldIffStored(entries[..], count, nextIndex, nonce);
      for i := 0 to count
        invariant forall j | 0 <= j < i :: entries[..][j] != nonce
      {
        if entries[i] == nonce {
          assert entries[..][i] == nonce;
          return true;
        }
      }
      return false;
    }

    /** -1 before initialisation, 0 for a nonce in the window, otherwise 1 and the nonce is in the window. */
    method CheckAndAdd(nonce: Nonce) returns (r: int)
      requires Valid()
      modifies this, entries
      ensures Valid() && entries == old(entries) && capacity == old(capacity)
      ensures !old(Ready()) ==> r == -1 && count == old(count) && nextIndex == old(nextIndex)
      ensures old(Ready()) ==>
        && r == (if nonce in old(Window()) then 0 else 1)
        && Window() == Push(old(Window()), capacity, nonce)
    {
      if entries == null || capacity == 0 {
        return -1;
      }
      hide WindowOf;
      ghost var stored := entries[..];
      var seen := Scan(nonce);
      if seen {
        return 0;
      }
      RingAdvances(stored, count, nextIndex, nonce);
      entries[nextIndex] := nonce;
      assert entries[..] == stored[nextIndex := nonce];
      WrapAround(nextIndex, capacity);
      nextIndex := (nextIndex + 1) % capacity;
      if count < capacity {
        count := count + 1;
      }
      return 1;
    }
  }

  /** The window in a ring: from the start while it fills, afterwards from the head round to the head. */
  function WindowOf(stored: seq<Nonce>, count: nat, next: nat): (w: seq<Nonce>)
    requires count <= |stored| && next <= |stored|
    ensures |w| == count
  {
    if count < |stored| then stored[..count] else stored[next..] + stored[..next]
  }

  /** Scanning the first `count` slots finds exactly the nonces of the window. */
  lemma HeldIffStored(stored: seq<Nonce>, count: nat, next: nat, n: Nonce)
    requires count <= |stored| && next <= |stored|
    ensures n in WindowOf(stored, count, next) <==> exists j | 0 <= j < count :: stored[j] == n
  {
    if count == |stored| {
      assert stored == stored[..next] + stored[next..];
      assert n in stored <==> n in stored[..next] || n in stored[next..];
    }
  }

  lemma WrapAround(next: nat, capacity: nat)
    requires next < capacity
    ensures (next + 1) % capacity == if next + 1 == capacity then 0 else next + 1
  {
  }

  /** Writing one slot and moving the head pushes the nonce into the window. */
  lemma RingAdvances(stored: seq<Nonce>, count: nat, next: nat, n: Nonce)
    requires count <= |stored| && next < |stored| && (count < |stored| ==> next == count)
    requires n !in WindowOf(stored, count, next)
    ensures var moved := (next + 1) % |stored|;
      var more := if count < |stored| then count + 1 else count;
      WindowOf(stored[next := n], more, moved) == Push(WindowOf(stored, count, next), |stored|, n)
  {
    var after := stored[next := n];
    WrapAround(next, |stored|);
    if next + 1 < |stored| {
      assert after[..next + 1] == stored[..next] + [n];
      assert after[next + 1..] == stored[next + 1..] == stored[next..][1..];
    } else {
      assert after == stored[..next] + [n];
      assert stored[next..] == [stored[next]];
    }
  }

  // ---------- whole runs ----------

  /** The window after offering a list of nonces to a fresh cache. */
  function After(capacity: nat, offered: seq<Nonce>): (w: seq<Nonce>)
    requires 0 < capacity
    ensures |w| <= capacity
  {
    if offered == [] then [] else Push(After(capacity, offered[..|offered| - 1]), capacity, offered[|offered| - 1])
  }

  /** The nonces answered with 1, in order. */
  function Accepted(capacity: nat, offered: seq<Nonce>): seq<Nonce>
    requires 0 < capacity
  {
    if offered == [] then []
    else
      var front, n := offered[..|offered| - 1], offered[|offered| - 1];
      Accepted(capacity, front) + (if n in After(capacity, front) then [] else [n])
  }

  /** The ring always holds exactly the last nonces accepted, as many as fit. */
  lemma {:induction false} WindowIsLatestAccepted(capacity: nat, offered: seq<Nonce>)
    requires 0 < capacity
    ensures var acc := Accepted(capacity, offered);
      After(capacity, offered) == acc[if |acc| < capacity then 0 else |acc| - capacity..]
  {
    if offered != [] {
      var front := offered[..|offered| - 1];
      WindowIsLatestAccepted(capacity, front);
    }
  }

  /** Any two equal accepted nonces are more than `capacity` acceptances apart. */
  lemma {:induction false} AcceptedDistinctInWindow(capacity: nat, offered: seq<Nonce>, i: nat, j: nat)
    requires 0 < capacity && i < j < |Accepted(capacity, offered)| && j - i <= capacity
    ensures Accepted(capacity, offered)[i] != Accepted(capacity, offered)[j]
  {
    var front, n := offered[..|offered| - 1], offered[|offered| - 1];
    var before, acc := Accepted(capacity, front), Accepted(capacity, offered);
    if j < |before| {
      AcceptedDistinctInWindow(capacity, front, i, j);
    } else {
      WindowIsLatestAccepted(capacity, front);
      var from := if |before| < capacity then 0 else |before| - capacity;
      assert before[from..][i - from] == before[i];
    }
  }

  /** Until more nonces than fit have been accepted, a nonce is refused exactly when it was offered before. */
  lemma {:induction false} ExactUntilFull(capacity: nat, offered: seq<Nonce>, n: Nonce)
    requires 0 < capacity && |Accepted(capacity, offered)| <= capacity
    ensures n in After(capacity, offered) <==> n in offered
  {
    if offered != [] {
      var front, last := offered[..|offered| - 1], offered[|offered| - 1];
      ExactUntilFull(capacity, front, n);
      WindowIsLatestAccepted(capacity, offered);
      WindowIsLatestAccepted(capacity, front);
      assert offered == front + [last];
      assert n in offered <==> n in front || n == last;
    }
  }

  /** Beyond that the window forgets: with capacity 1, a nonce offered again after one other is accepted again. */
  lemma OldNonceForgotten(a: Nonce, b: Nonce)
    requires a != b
    ensures Accepted(1, [a, b, a]) == [a, b, a]
  {
    var none: seq<Nonce> := [];
    assert [a][..0] == none && [a, b][..1] == [a] && [a, b, a][..2] == [a, b];
    assert After(1, none) == none && After(1, [a]) == [a];
    assert After(1, [a, b]) == [b];
    assert Accepted(1, none) == none && Accepted(1, [a]) == [a];
    assert Accepted(1, [a, b]) == [a, b];
  }
}

/** The partial-transfer loops of `common/net.c` over a socket that moves data as it pleases. */
module Net {
  import opened Octets

  /** What one `send` or `recv` call does: moves at most some bytes, is interrupted, or fails. */
  datatype Call = Move(limit: nat) | Interrupted | Broken

  /** The result of a transfer: bytes moved, success, and the calls not yet used. */
  datatype Transfer = Transfer(moved: nat, ok: bool, rest: seq<Call>)

  function Min(a: nat, b: nat): nat { if a < b then a else b }

  /**
   * Moving `want` bytes when the peer can take or give `room` bytes: interruptions are retried, a call that
   * moves nothing or fails ends the transfer. After the scripted calls the socket moves whatever it can.
   */
  function Schedule(script: seq<Call>, want: nat, room: nat): (t: Transfer)
    ensures t.moved <= want && t.moved <= room
    ensures t.ok <==> t.moved == want
    decreases |script|, want
  {
    if want == 0 then Transfer(0, true, script)
    else if script == [] then Transfer(Min(want, room), want <= room, [])
    else
      match script[0]
      case Interrupted => Schedule(script[1..], want, room)
      case Broken => Transfer(0, false, script[1..])
      case Move(limit) =>
        var n := Min(limit, Min(want, room));
        if n == 0 then Transfer(0, false, script[1..])
        else
          var t := Schedule(script[1..], want - n, room - n);
          Transfer(n + t.moved, t.ok, t.rest)
  }

  /** A transfer that begins after `n` bytes have already moved. */
  function Plus(n: nat, t: Transfer): Transfer {
    Transfer(n + t.moved, t.ok, t.rest)
  }

  lemma CallMoves(script: seq<Call>, want: nat, room: nat, n: nat)
    requires 0 < n && 0 < want
    requires if script == [] then n == Min(want, room)
             else script[0].Move? && n == Min(script[0].limit, Min(want, room))
    ensures n <= want && n <= room
    ensures Schedule(script, want, room)
         == Plus(n, Schedule(if script == [] then [] else script[1..], want - n, room - n))
  {
  }

  lemma SplitAt(b: Bytes, i: nat, n: nat)
    requires i + n <= |b|
    ensures b[..i] + b[i..][..n] == b[..i + n] && b[i..][n..] == b[i + n..]
  {
  }

  /** Short transfers and interruptions only. */
  predicate Unbroken(script: seq<Call>) {
    forall i | 0 <= i < |script| :: script[i] != Broken && script[i] != Move(0)
  }

  /** However an unbroken socket splits the data, the outcome depends on the byte counts alone. */
  lemma {:induction false} UnbrokenMovesAll(script: seq<Call>, want: nat, room: nat)
    requires Unbroken(script)
    ensures var t := Schedule(script, want, room);
      t.ok == (want <= room) && t.moved == Min(want, room) && Unbroken(t.rest)
    decreases |script|
  {
    if want != 0 && script != [] {
      var rest := script[1..];
      assert Unbroken(rest);
      var n := match script[0] case Move(limit) => Min(limit, Min(want, room)) case _ => 0;
      UnbrokenMovesAll(rest, want - n, room - n);
    }
  }

  /**
   * A transfer succeeds exactly when there is enough to move and none of the calls it used failed or moved
   * nothing: the first such call ends it, while interruptions never do.
   */
  lemma {:induction false} TransferSucceedsExactly(script: seq<Call>, want: nat, room: nat) returns (used: nat)
    ensures var t := Schedule(script, want, room);
      && used <= |script| && t.rest == script[used..]
      && (t.ok <==> want <= room && Unbroken(script[..used]))
    decreases |script|
  {
    hide Unbroken;
    NothingUsed(script);
    if want == 0 || script == [] {
      used := 0;
    } else {
      used := TransferAfterCall(script, want, room);
    }
  }

  lemma TransferAfterCall(script: seq<Call>, want: nat, room: nat) returns (used: nat)
    requires want != 0 && script != []
    ensures var t := Schedule(script, want, room);
      && used <= |script| && t.rest == script[used..]
      && (t.ok <==> want <= room && Unbroken(script[..used]))
    decreases |script|, 0
  {
    hide Unbroken;
    var rest := script[1..];
    OneMore(script, 0);
    NothingUsed(rest);
    UnbrokenCons(script[0], rest[..0]);
    match script[0]
    case Broken => used := 1;
    case Interrupted =>
      var more := TransferSucceedsExactly(rest, want, room);
      OneMore(script, more);
      UnbrokenCons(script[0], rest[..more]);
      used := more + 1;
    case Move(limit) =>
      var n := Min(limit, Min(want, room));
      if n == 0 {
        used := 1;
      } else {
        var more := TransferSucceedsExactly(rest, want - n, room - n);
        OneMore(script, more);
        UnbrokenCons(script[0], rest[..more]);
        used := more + 1;
      }
  }

  lemma OneMore(script: seq<Call>, k: nat)
    requires k < |script|
    ensures script[..k + 1] == [script[0]] + script[1..][..k] && script[1..][k..] == script[k + 1..]
  {
  }

  lemma NothingUsed(script: seq<Call>)
    ensures Unbroken(script[..0]) && script[0..] == script && script[|script|..] == [] && Unbroken([])
  {
  }

  lemma UnbrokenCons(call: Call, rest: seq<Call>)
    ensures Unbroken([call] + rest) <==> call != Broken && call != Move(0) && Unbroken(rest)
  {
    var script := [call] + rest;
    assert script[0] == call;
    assert forall i | 0 <= i < |rest| :: script[i + 1] == rest[i];
    assert forall i | 0 < i < |script| :: script[i] == rest[i - 1];
  }

  class Socket {
    var sent: Bytes
    var incoming: Bytes
    var script: seq<Call>

    constructor (incoming: Bytes, script: seq<Call>)
      ensures this.sent == [] && this.incoming == incoming && this.script == script
    {
      this.sent, this.incoming, this.script := [], incoming, script;
    }

    /** One system call: the byte count, or a negative number, with whether it was an interruption. */
    method NextCall(want: nat, room: nat) returns (n: int, interrupted: bool)
      requires 0 < want
      modifies this`script
      ensures script == if old(script) == [] then [] else old(script)[1..]
      ensures n <= want && n <= room
      ensures old(script) == [] ==> n == Min(want, room) && !interrupted
      ensures old(script) != [] ==>
        match old(script)[0]
        case Interrupted => n == -1 && interrupted
        case Broken => n == -1 && !interrupted
        case Move(limit) => n == Min(limit, Min(want, room)) && !interrupted
    {
      if script == [] {
        return Min(want, room), false;
      }
      var c := script[0];
      script := script[1..];
      match c
      case Interrupted => return -1, true;
      case Broken => return -1, false;
      case Move(limit) => return Min(limit, Min(want, room)), false;
    }

    /** Success has appended the whole buffer; failure has appended a proper prefix. */
    method SendAll(buf: Bytes) returns (ok: bool)
      modifies this`script, this`sent
      ensures var t := Schedule(old(script), |buf|, |buf|);
        sent == old(sent) + buf[..t.moved] && ok == t.ok && script == t.rest
    {
      var done := 0;
      while done < |buf|
        invariant done <= |buf|
        invariant sent == old(sent) + buf[..done]
        invariant Schedule(old(script), |buf|, |buf|) == Plus(done, Schedule(script, |buf| - done, |buf| - done))
        decreases |script|, |buf| - done
      {
        ghost var before := script;
        var n, interrupted := NextCall(|buf| - done, |buf| - done);
        if n < 0 {
          if interrupted {
            continue;
          }
          return false;
        }
        if n == 0 {
          return false;
        }
        CallMoves(before, |buf| - done, |buf| - done, n);
        assert buf[..done] + buf[done..done + n] == buf[..done + n];
        sent := sent + buf[done..done + n];
        done := done + n;
      }
      return true;
    }

    /** Success has taken exactly the next `want` bytes, in order; failure has taken fewer. */
    method RecvAll(want: nat) returns (ok: bool, got: Bytes)
      modifies this`script, this`incoming
      ensures var t := Schedule(old(script), want, |old(incoming)|);
        ok == t.ok && got == old(incoming)[..t.moved] && incoming == old(incoming)[t.moved..] && script == t.rest
    {
      hide Min;
      got := [];
      while |got| < want
        invariant |got| <= want && |got| <= |old(incoming)|
        invariant got == old(incoming)[..|got|] && incoming == old(incoming)[|got|..]
        invariant
          Schedule(old(script), want, |old(incoming)|) == Plus(|got|, Schedule(script, want - |got|, |incoming|))
        decreases |script|, want - |got|
      {
        ghost var before := script;
        var n, interrupted := NextCall(want - |got|, |incoming|);
        if n < 0 {
          if interrupted {
            continue;
          }
          return false, got;
        }
        if n == 0 {
          return false, got;
        }
        CallMoves(before, want - |got|, |incoming|, n);
        SplitAt(old(incoming), |got|, n);
        got := got + incoming[..n];
        incoming := incoming[n..];
      }
      return true, got;
    }
  }

  /** `send_all` as its callers see it: everything, or a proper prefix. */
  method Put(s: Socket, buf: Bytes) returns (ok: bool, ghost n: nat)
    modifies s`script, s`sent
    ensures n <= |buf| && s.sent == old(s.sent) + buf[..n] && (ok <==> n == |buf|)
    ensures Unbroken(old(s.script)) ==> ok && Unbroken(s.script)
  {
    if Unbroken(s.script) {
      UnbrokenMovesAll(s.script, |buf|, |buf|);
    }
    n := Schedule(s.script, |buf|, |buf|).moved;
    ok := s.SendAll(buf);
  }

  /** `recv_all` as its callers see it. */
  method Take(s: Socket, want: nat) returns (ok: bool, got: Bytes)
    modifies s`script, s`incoming
    ensures ok ==> want <= |old(s.incoming)| && got == old(s.incoming)[..want] && s.incoming == old(s.incoming)[want..]
    ensures Unbroken(old(s.script)) ==> (ok <==> want <= |old(s.incoming)|) && Unbroken(s.script)
  {
    if Unbroken(s.script) {
      UnbrokenMovesAll(s.script, want, |s.incoming|);
    }
    ok, got := s.RecvAll(want);
  }
}

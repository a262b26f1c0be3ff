/** The server's request loop, from frames received to frames sent: `server/main.c`. */
module Service {
  import opened Octets
  import opened Crypto
  import opened Packet
  import opened Channel
  import opened Server
  import opened Runs
  import Net
  import Replay

  /** What one turn of the loop takes from outside: the request's environment and the response's IV. */
  datatype TurnEnv = TurnEnv(env: Env, iv: Iv)

  /** The state after one received frame and the response to it; `None` where the server closes the connection. */
  function Turn(c: Suite, o: ByteOrder, keyIn: Digest, keyOut: Digest, s: State, f: Frame, e: TurnEnv)
    : (r: (State, Option<Frame>))
    requires AeadIdeal(c) && FrameOk(f)
    ensures r.1.Some? ==> FrameOk(r.1.value)
  {
    match OpenFrame(c, o, keyIn, f)
    case None => (s, None)
    case Some(pt) =>
      if pt == [] then (s, None)
      else
        var a := Handle(c, s, pt, e.env);
        if UINT16_MAX < |a.data| then (a.state, None)
        else (a.state, Some(SealFrame(c, o, keyOut, f.nonce, e.iv, ResponsePlain(pt[0], a.status, a.data))))
  }

  /** The state and the bytes sent once a byte stream has been served, one environment a turn. */
  function Turns(
    c: Suite, o: ByteOrder, keyIn: Digest, keyOut: Digest, s: State, stream: Bytes, sent: Bytes, es: seq<TurnEnv>)
    : (State, Bytes)
    requires AeadIdeal(c)
    decreases |es|
  {
    if es == [] || !Decode(stream).Got? then (s, sent)
    else
      var (after, reply) := Turn(c, o, keyIn, keyOut, s, Decode(stream).frame, es[0]);
      if reply.None? then (after, sent)
      else Turns(c, o, keyIn, keyOut, after, Decode(stream).rest, sent + Encode(reply.value), es[1..])
  }

  /**
   * One turn. Only a negative answer of the replay cache closes the connection, so a nonce already in the window
   * is served like any other: the outcome below does not depend on the window.
   */
  method ServeRequest(
    c: Suite, o: ByteOrder, keyIn: Digest, keyOut: Digest, conn: Connection, cache: Replay.ReplayCache,
    s: Net.Socket, e: TurnEnv) returns (open: bool)
    requires AeadIdeal(c) && conn.db.loaded && cache.Valid() && cache.Ready()
    modifies conn, conn.db`users, conn.db.fs, cache, cache.entries, s
    ensures cache.Valid() && cache.Ready() && cache.entries == old(cache.entries)
    ensures open ==> Decode(old(s.incoming)).Got?
    ensures !Decode(old(s.incoming)).Got? ==> conn.Current() == old(conn.Current()) && s.sent == old(s.sent)
    ensures Decode(old(s.incoming)).Got? && (open || Net.Unbroken(old(s.script))) ==>
      var f := Decode(old(s.incoming)).frame;
      var (after, reply) := Turn(c, o, keyIn, keyOut, old(conn.Current()), f, e);
      && conn.Current() == after && open == reply.Some?
      && s.sent == (if reply.Some? then old(s.sent) + Encode(reply.value) else old(s.sent))
      && s.incoming == Decode(old(s.incoming)).rest
      && cache.Window() == Replay.Push(old(cache.Window()), cache.capacity, f.nonce)
    ensures Net.Unbroken(old(s.script)) ==> Net.Unbroken(s.script)
  {
    hide Handle, Decode, Encode, OpenFrame, SealFrame, ResponsePlain, Net.Unbroken;
    var got, _ := Packet.Recv(s, o);
    if got == None {
      return false;
    }
    var (h, payload) := got.value;
    ghost var f := Frame(h.nonce, payload);
    DecodeExactly(old(s.incoming), f, s.incoming);
    var known := cache.CheckAndAdd(h.nonce);
    if known < 0 {
      return false;
    }
    var pt := OpenPayload(c, o, keyIn, h, payload);
    if pt == None || pt.value == [] {
      return false;
    }
    var status, data := conn.HandleRequest(c, pt.value, e.env);
    if |data| > UINT16_MAX {
      return false;
    }
    open := SendSealed(c, s, o, keyOut, h.nonce, e.iv, ResponsePlain(pt.value[0], status, data));
  }

  lemma TurnsStep(
    c: Suite, o: ByteOrder, keyIn: Digest, keyOut: Digest, s: State, stream: Bytes, sent: Bytes, es: seq<TurnEnv>,
    k: nat)
    requires AeadIdeal(c) && k < |es|
    ensures Decode(stream).Got? ==> FrameOk(Decode(stream).frame)
    ensures Turns(c, o, keyIn, keyOut, s, stream, sent, es[k..]) ==
        if !Decode(stream).Got? then (s, sent)
        else
          var (after, reply) := Turn(c, o, keyIn, keyOut, s, Decode(stream).frame, es[k]);
          if reply.None? then (after, sent)
          else Turns(c, o, keyIn, keyOut, after, Decode(stream).rest, sent + Encode(reply.value), es[k + 1..])
  {
    hide Turn, Encode;
    assert es[k..][1..] == es[k + 1..];
  }

  /** The loop: on an unbroken socket its effect is that of the decoded frames in order, however they were split. */
  method ServeConnection(
    c: Suite, o: ByteOrder, keyIn: Digest, keyOut: Digest, conn: Connection, s: Net.Socket, es: seq<TurnEnv>)
    requires AeadIdeal(c) && conn.db.loaded
    modifies conn, conn.db`users, conn.db.fs, s
    ensures Net.Unbroken(old(s.script)) ==>
      (conn.Current(), s.sent) ==
        Turns(c, o, keyIn, keyOut, old(conn.Current()), old(s.incoming), old(s.sent), es)
  {
    hide Turn, Decode, Encode, FrameOk, Net.Unbroken;
    var cache := new Replay.ReplayCache();
    var ready := cache.Init(0, true);
    ghost var unbroken := Net.Unbroken(s.script);
    ghost var final := Turns(c, o, keyIn, keyOut, conn.Current(), s.incoming, s.sent, es);
    var k, open := 0, ready;
    assert es[0..] == es;
    while k < |es| && open
      invariant k <= |es| && fresh(cache) && fresh(cache.entries) && cache.Valid() && cache.Ready()
      invariant unbroken ==> Net.Unbroken(s.script)
      invariant unbroken && open ==>
        final == Turns(c, o, keyIn, keyOut, conn.Current(), s.incoming, s.sent, es[k..])
      invariant unbroken && !open ==> final == (conn.Current(), s.sent)
    {
      TurnsStep(c, o, keyIn, keyOut, conn.Current(), s.incoming, s.sent, es, k);
      open := ServeRequest(c, o, keyIn, keyOut, conn, cache, s, es[k]);
      k := k + 1;
    }
  }

  /** The requests that the frames of a byte stream open to, up to the point where the server closes the connection. */
  function Served(
    c: Suite, o: ByteOrder, keyIn: Digest, keyOut: Digest, s: State, stream: Bytes, es: seq<TurnEnv>): seq<Event>
    requires AeadIdeal(c)
    decreases |es|
  {
    if es == [] || !Decode(stream).Got? then []
    else
      match OpenFrame(c, o, keyIn, Decode(stream).frame)
      case None => []
      case Some(pt) =>
        var (after, reply) := Turn(c, o, keyIn, keyOut, s, Decode(stream).frame, es[0]);
        if pt == [] then []
        else if reply.None? then [Request(pt, es[0].env)]
        else [Request(pt, es[0].env)] + Served(c, o, keyIn, keyOut, after, Decode(stream).rest, es[1..])
  }

  /** Serving a byte stream is the run of the requests its frames open to, so every theorem about runs applies. */
  lemma {:induction false} TurnsAreRun(
    c: Suite, o: ByteOrder, keyIn: Digest, keyOut: Digest, s: State, stream: Bytes, sent: Bytes, es: seq<TurnEnv>)
    requires AeadIdeal(c)
    ensures Serving(Turns(c, o, keyIn, keyOut, s, stream, sent, es).0) ==
              Run(c, Serving(s), Served(c, o, keyIn, keyOut, s, stream, es))
    decreases |es|
  {
    hide Handle, Decode, Encode, OpenFrame, SealFrame, ResponsePlain, FrameOk;
    if es != [] && Decode(stream).Got? {
      GotFits(stream);
      var f, rest := Decode(stream).frame, Decode(stream).rest;
      var plain := OpenFrame(c, o, keyIn, f);
      if plain.Some? && plain.value != [] {
        var (after, reply) := Turn(c, o, keyIn, keyOut, s, f, es[0]);
        var e := Request(plain.value, es[0].env);
        assert Step(c, Serving(s), e).0 == Serving(after);
        if reply.Some? {
          TurnsAreRun(c, o, keyIn, keyOut, after, rest, sent + Encode(reply.value), es[1..]);
          RunFirst(c, Serving(s), e, Served(c, o, keyIn, keyOut, after, rest, es[1..]));
        } else {
          RunFirst(c, Serving(s), e, []);
          assert [e] + [] == [e];
        }
      }
    }
  }

  lemma GotFits(stream: Bytes)
    requires Decode(stream).Got?
    ensures FrameOk(Decode(stream).frame)
  {
  }

  /**
   * A request sealed under the incoming key is answered, under the outgoing key and with the nonce of the request,
   * with opcode, status and data of its handling; a response of more than 65535 bytes is not sent.
   */
  lemma TurnAnswers(
    c: Suite, o: ByteOrder, keyIn: Digest, keyOut: Digest, s: State, nonce: Nonce, iv: Iv, pt: Bytes, e: TurnEnv)
    requires AeadIdeal(c) && pt != [] && GCM_OVERHEAD + |pt| <= MAX_PAYLOAD
    ensures var (after, reply) := Turn(c, o, keyIn, keyOut, s, SealFrame(c, o, keyIn, nonce, iv, pt), e);
      var a := Handle(c, s, pt, e.env);
      && after == a.state && (reply.Some? <==> |a.data| <= 65535)
      && (reply.Some? ==>
           && reply.value.nonce == nonce
           && OpenFrame(c, o, keyOut, reply.value) == Some(ResponsePlain(pt[0], a.status, a.data)))
  {
    hide Handle, SealFrame, OpenFrame, ResponsePlain;
    FrameOpens(c, o, keyIn, nonce, iv, pt);
    var a := Handle(c, s, pt, e.env);
    if |a.data| <= UINT16_MAX {
      FrameOpens(c, o, keyOut, nonce, e.iv, ResponsePlain(pt[0], a.status, a.data));
    }
  }
}

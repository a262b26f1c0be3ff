/** The command-line client of `client/main.c` and its record of the server's session. */
module Client {
  import opened Octets
  import opened Crypto
  import opened Packet
  import opened Requests
  import opened Channel
  import opened Server
  import opened Service
  import opened Runs
  import Handshake

  /** The commands as typed; arguments and passwords are C strings, a document is the contents of a file. */
  datatype Command =
    | Login(user: Bytes, password: Bytes)
    | ChangePassword(newPassword: Bytes)
    | CreateKeys
    | SignDocument(document: Bytes)
    | GetPublic(target: Bytes)
    | DeleteKeys
    | Logout

  /** What the client believes about its session. */
  datatype Mirror = Mirror(loggedIn: bool, mustChange: bool, deleted: bool, username: Bytes)

  const LOGGED_OUT := Mirror(false, false, false, [])

  predicate Typed(cmd: Command) {
    match cmd
    case Login(user, password) => 0 !in user && 0 !in password
    case ChangePassword(password) => 0 !in password
    case GetPublic(target) => 0 !in target
    case _ => true
  }

  /** The plaintext a command sends, or nothing when the client refuses it by itself. */
  function RequestFor(m: Mirror, cmd: Command): (pt: Option<Bytes>)
    ensures pt.Some? ==> pt.value != []
  {
    match cmd
    case Login(user, password) => if Short(user) && Short(password) then Some(BuildAuth(user, password)) else None
    case ChangePassword(password) => if m.loggedIn && Short(password) then Some(BuildChange(password)) else None
    case CreateKeys => Some([OP_CREATE_KEYS])
    case SignDocument(document) => Some([OP_SIGN_DOC] + document)
    case GetPublic(target) =>
      if target == [] then Some([OP_GET_PUBLIC_KEY])
      else if Short(target) then Some(BuildTarget(target)) else None
    case DeleteKeys => Some([OP_DELETE_KEYS])
    case Logout => Some([OP_LOGOUT])
  }

  /** What the client concludes from a response; status code 0 is success. */
  function Learn(m: Mirror, cmd: Command, code: int, data: Bytes): Mirror {
    if code != 0 then m
    else
      match cmd
      case Login(user, _) => if |data| == 2 then Mirror(true, data[0] != 0, data[1] != 0, user) else m
      case ChangePassword(_) => m.(mustChange := false)
      case DeleteKeys => m.(deleted := true)
      case Logout => LOGGED_OUT
      case _ => m
  }

  class CommandLine {
    var loggedIn: bool
    var mustChange: bool
    var deleted: bool
    var username: Bytes

    constructor ()
      ensures Mirrored() == LOGGED_OUT
    {
      loggedIn, mustChange, deleted, username := false, false, false, [];
    }

    function Mirrored(): Mirror
      reads this
    {
      Mirror(loggedIn, mustChange, deleted, username)
    }

    /** The opcode and the payload put together for `send_request_and_get_response`. */
    method Prepare(cmd: Command) returns (r: Option<(byte, Bytes)>)
      ensures RequestFor(Mirrored(), cmd) == match r case None => None case Some(p) => Some([p.0] + p.1)
    {
      var nothing: Bytes := [];
      match cmd
      case Login(user, password) =>
        if |user| == 0 || |user| > 255 || |password| == 0 || |password| > 255 {
          return None;
        }
        var payload, length := FillAuthPayload(user, password);
        return Some((OP_AUTH, payload[..length]));
      case ChangePassword(password) =>
        if !loggedIn || |password| == 0 || |password| > 255 {
          return None;
        }
        var payload := new byte[256](_ => 0);
        payload[0] := |password|;
        CopyInto(payload, 1, password);
        assert payload[..1] == [|password|];
        return Some((OP_CHANGE_PASSWORD, payload[..1 + |password|]));
      case CreateKeys =>
        assert [OP_CREATE_KEYS] + nothing == [OP_CREATE_KEYS];
        return Some((OP_CREATE_KEYS, nothing));
      case SignDocument(document) => return Some((OP_SIGN_DOC, document));
      case GetPublic(target) =>
        if |target| == 0 {
          assert [OP_GET_PUBLIC_KEY] + nothing == [OP_GET_PUBLIC_KEY];
          return Some((OP_GET_PUBLIC_KEY, nothing));
        }
        if |target| > 255 {
          return None;
        }
        var payload := new byte[256](_ => 0);
        payload[0] := |target|;
        CopyInto(payload, 1, target);
        assert payload[..1] == [|target|];
        return Some((OP_GET_PUBLIC_KEY, payload[..1 + |target|]));
      case DeleteKeys =>
        assert [OP_DELETE_KEYS] + nothing == [OP_DELETE_KEYS];
        return Some((OP_DELETE_KEYS, nothing));
      case Logout =>
        assert [OP_LOGOUT] + nothing == [OP_LOGOUT];
        return Some((OP_LOGOUT, nothing));
    }

    method Accept(cmd: Command, code: int, data: Bytes)
      modifies this
      ensures Mirrored() == Learn(old(Mirrored()), cmd, code, data)
    {
      if code != 0 {
        return;
      }
      match cmd
      case Login(user, _) =>
        if |data| == 2 {
          loggedIn := true;
          mustChange := data[0] != 0;
          deleted := data[1] != 0;
          username := user;
        }
      case ChangePassword(_) => mustChange := false;
      case DeleteKeys => deleted := true;
      case Logout => loggedIn, mustChange, deleted, username := false, false, false, [];
      case _ =>
    }
  }

  // ---------- lock step ----------

  /** Both ends of one honest connection; `open` while the server is still serving it. */
  datatype Joint = Joint(client: Mirror, server: State, open: bool)

  /** What one command meets: the client's random values and the server's turn. */
  datatype Trip = Trip(nonce: Nonce, iv: Iv, turn: TurnEnv)

  /** One command carried out: request frame, wire, server turn, wire, response frame. */
  function Perform(c: Suite, o: ByteOrder, k: Handshake.Keys, j: Joint, cmd: Command, t: Trip): Joint
    requires AeadIdeal(c)
  {
    var pt := RequestFor(j.client, cmd);
    if !j.open || pt.None? || MAX_PAYLOAD < GCM_OVERHEAD + |pt.value| then j
    else
      match Decode(Encode(SealFrame(c, o, k.c2s, t.nonce, t.iv, pt.value)))
      case Got(f, _) => Respond(c, o, k, j, cmd, pt.value[0], Turn(c, o, k.c2s, k.s2c, j.server, f, t.turn))
      case _ => j.(open := false)
  }

  /** The way back: the response, if there is one, decoded and learnt from. */
  function Respond(
    c: Suite, o: ByteOrder, k: Handshake.Keys, j: Joint, cmd: Command, op: byte, turn: (State, Option<Frame>)): Joint
    requires turn.1.Some? ==> FrameOk(turn.1.value)
  {
    if turn.1.None? then Joint(j.client, turn.0, false)
    else
      match Answered(c, o, k.s2c, op, Encode(turn.1.value))
      case Some((code, data)) => Joint(Learn(j.client, cmd, code, data), turn.0, true)
      case None => Joint(j.client, turn.0, true)
  }

  function PerformAll(c: Suite, o: ByteOrder, k: Handshake.Keys, j: Joint, cmds: seq<Command>, ts: seq<Trip>): Joint
    requires AeadIdeal(c) && |cmds| == |ts|
  {
    if cmds == [] then j
    else
      var n := |cmds| - 1;
      Perform(c, o, k, PerformAll(c, o, k, j, cmds[..n], ts[..n]), cmds[n], ts[n])
  }

  /**
   * The frames, the encryption and the codecs drop out: the server handles what the client built, and the client
   * learns what the server answered.
   */
  lemma PerformIsDirect(c: Suite, o: ByteOrder, k: Handshake.Keys, j: Joint, cmd: Command, t: Trip)
    requires AeadIdeal(c) && j.open && RequestFor(j.client, cmd).Some?
    requires GCM_OVERHEAD + |RequestFor(j.client, cmd).value| <= MAX_PAYLOAD
    ensures var a := Handle(c, j.server, RequestFor(j.client, cmd).value, t.turn.env);
      Perform(c, o, k, j, cmd, t) ==
        if UINT16_MAX < |a.data| then Joint(j.client, a.state, false)
        else Joint(Learn(j.client, cmd, StatusCode(a.status), a.data), a.state, true)
  {
    hide Handle, OpenFrame, SealFrame, Decode, Encode, ParseResponse, ResponsePlain, Learn, RequestFor, StatusCode;
    var pt := RequestFor(j.client, cmd).value;
    SealedArrives(c, o, k.c2s, t.nonce, t.iv, pt);
    var a := Handle(c, j.server, pt, t.turn.env);
    if |a.data| <= UINT16_MAX {
      SealedArrives(c, o, k.s2c, t.nonce, t.turn.iv, ResponsePlain(pt[0], a.status, a.data));
      ResponseParses(pt[0], a.status, a.data);
    }
  }

  lemma SealedArrives(c: Suite, o: ByteOrder, key: Digest, nonce: Nonce, iv: Iv, pt: Bytes)
    requires AeadIdeal(c) && GCM_OVERHEAD + |pt| <= MAX_PAYLOAD
    ensures var f := SealFrame(c, o, key, nonce, iv, pt);
      FrameOk(f) && Decode(Encode(f)) == Got(f, []) && OpenFrame(c, o, key, f) == Some(pt)
  {
    hide OpenFrame, SealFrame, Decode, Encode;
    var f := SealFrame(c, o, key, nonce, iv, pt);
    FrameOpens(c, o, key, nonce, iv, pt);
    assert Encode(f) + [] == Encode(f);
    DecodeExactly(Encode(f), f, []);
  }

  /** The client agrees with the session, except that it may not have heard of a tombstone. */
  predicate InStep(m: Mirror, s: Session) {
    && m.loggedIn == s.authenticated && m.username == s.username && m.mustChange == s.mustChange
    && (m.deleted ==> s.deleted)
  }

  /** What a request does to the session, from its opcode and status alone. */
  lemma SessionEffect(c: Suite, s: State, pt: Bytes, e: Env)
    requires AeadIdeal(c) && pt != []
    ensures var a := Handle(c, s, pt, e);
      var was, now := s.session, a.state.session;
      && (a.status != Ok ==> now == was.(deleted := now.deleted) && (was.deleted ==> now.deleted))
      && (a.status == Ok && pt[0] == OP_AUTH ==>
           ParseAuth(pt).Some? && a.data == Flags(now.mustChange, now.deleted)
           && now.authenticated && now.username == ParseAuth(pt).value.user)
      && (a.status == Ok && pt[0] == OP_CHANGE_PASSWORD ==> now == was.(key := now.key, mustChange := false))
      && (a.status == Ok && pt[0] == OP_DELETE_KEYS ==> now == was.(deleted := true))
      && (a.status == Ok && pt[0] == OP_LOGOUT ==> now == CLEARED)
      && (a.status == Ok && pt[0] in {OP_CREATE_KEYS, OP_SIGN_DOC, OP_GET_PUBLIC_KEY} ==> now == was)
      && (UINT16_MAX < |a.data| ==> now == was)
  {
  }

  lemma CommandInStep(c: Suite, s: State, m: Mirror, cmd: Command, e: Env)
    requires AeadIdeal(c) && InStep(m, s.session) && Typed(cmd) && RequestFor(m, cmd).Some?
    ensures var a := Handle(c, s, RequestFor(m, cmd).value, e);
      && InStep(Learn(m, cmd, StatusCode(a.status), a.data), a.state.session)
      && (UINT16_MAX < |a.data| ==> InStep(m, a.state.session))
  {
    hide Handle, ParseAuth;
    var pt := RequestFor(m, cmd).value;
    SessionEffect(c, s, pt, e);
    if cmd.Login? {
      BuiltRequestsParse(cmd.user, cmd.password);
    }
  }

  lemma PerformInStep(c: Suite, o: ByteOrder, k: Handshake.Keys, j: Joint, cmd: Command, t: Trip)
    requires AeadIdeal(c) && InStep(j.client, j.server.session) && Typed(cmd)
    ensures var after := Perform(c, o, k, j, cmd, t);
      InStep(after.client, after.server.session)
  {
    hide Handle, Learn, InStep, Typed;
    var pt := RequestFor(j.client, cmd);
    if j.open && pt.Some? && GCM_OVERHEAD + |pt.value| <= MAX_PAYLOAD {
      hide Perform, RequestFor;
      PerformIsDirect(c, o, k, j, cmd, t);
      CommandInStep(c, j.server, j.client, cmd, t.turn.env);
    }
  }

  /**
   * The client mirror: after any commands over one honest connection, with any server-side failures, the
   * client's login state, user name and pending-change flag are the session's, and a client that believes the
   * keys deleted is right.
   */
  lemma {:induction false} MirrorFollowsSession(
    c: Suite, o: ByteOrder, k: Handshake.Keys, j: Joint, cmds: seq<Command>, ts: seq<Trip>)
    requires AeadIdeal(c) && |cmds| == |ts| && forall i | 0 <= i < |cmds| :: Typed(cmds[i])
    requires j.client == LOGGED_OUT && j.server.session == CLEARED
    ensures var after := PerformAll(c, o, k, j, cmds, ts);
      InStep(after.client, after.server.session)
  {
    hide Perform, Typed;
    if cmds != [] {
      var n := |cmds| - 1;
      MirrorFollowsSession(c, o, k, j, cmds[..n], ts[..n]);
      PerformInStep(c, o, k, PerformAll(c, o, k, j, cmds[..n], ts[..n]), cmds[n], ts[n]);
    }
  }

  /** The requests that commands send while the server is there to serve them. */
  function Sent(c: Suite, o: ByteOrder, k: Handshake.Keys, j: Joint, cmds: seq<Command>, ts: seq<Trip>): seq<Event>
    requires AeadIdeal(c) && |cmds| == |ts|
  {
    if cmds == [] then []
    else
      var n := |cmds| - 1;
      var before, earlier := PerformAll(c, o, k, j, cmds[..n], ts[..n]), Sent(c, o, k, j, cmds[..n], ts[..n]);
      var pt := RequestFor(before.client, cmds[n]);
      if before.open && pt.Some? && GCM_OVERHEAD + |pt.value| <= MAX_PAYLOAD then
        earlier + [Request(pt.value, ts[n].turn.env)]
      else earlier
  }

  /** Commands carried out over the channel are the run of the requests they send. */
  lemma {:induction false} PerformAllIsRun(
    c: Suite, o: ByteOrder, k: Handshake.Keys, j: Joint, cmds: seq<Command>, ts: seq<Trip>)
    requires AeadIdeal(c) && |cmds| == |ts|
    ensures Serving(PerformAll(c, o, k, j, cmds, ts).server) == Run(c, Serving(j.server), Sent(c, o, k, j, cmds, ts))
  {
    hide Handle, Perform, RequestFor, Learn, Run;
    if cmds == [] {
      RunNothing(c, Serving(j.server));
    } else {
      var n := |cmds| - 1;
      var before, earlier := PerformAll(c, o, k, j, cmds[..n], ts[..n]), Sent(c, o, k, j, cmds[..n], ts[..n]);
      PerformAllIsRun(c, o, k, j, cmds[..n], ts[..n]);
      var pt := RequestFor(before.client, cmds[n]);
      if before.open && pt.Some? && GCM_OVERHEAD + |pt.value| <= MAX_PAYLOAD {
        PerformIsDirect(c, o, k, before, cmds[n], ts[n]);
        RunLast(c, Serving(j.server), earlier, Request(pt.value, ts[n].turn.env));
      } else {
        UnsentIdle(c, o, k, before, cmds[n], ts[n]);
      }
    }
  }

  lemma RunNothing(c: Suite, w: World)
    requires AeadIdeal(c)
    ensures Run(c, w, []) == w
  {
  }

  lemma UnsentIdle(c: Suite, o: ByteOrder, k: Handshake.Keys, j: Joint, cmd: Command, t: Trip)
    requires AeadIdeal(c)
    requires var pt := RequestFor(j.client, cmd);
      !j.open || pt.None? || MAX_PAYLOAD < GCM_OVERHEAD + |pt.value|
    ensures Perform(c, o, k, j, cmd, t) == j
  {
  }
}

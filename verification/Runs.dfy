/** Whole runs: server starts and stops, requests, and the provisioning tool between server lifetimes. */
module Runs {
  import opened Octets
  import opened Crypto
  import opened TableText
  import opened Disk
  import opened Requests
  import opened Server
  import Provision

  datatype Running = Running(users: seq<User>, session: Session)
  datatype World = World(files: Files, server: Option<Running>)

  /** The server handles one connection per process; an empty plaintext ends it, like any receive failure. */
  datatype Event =
    | Start(boot: StartEnv)
    | Request(pt: Bytes, env: Env)
    | Stop
    | Register(name: Bytes, password: Bytes, tool: Provision.Env)

  datatype Reply = Reply(status: Status, data: Bytes)

  /** The one allocation of the bootstrap succeeds; everything else may fail. */
  predicate Admissible(e: Event) {
    e.Start? ==> e.boot.first.allocOk && e.boot.second.allocOk
  }

  /** One event; the tool runs only while the server is down. */
  function Step(c: Suite, w: World, e: Event): (World, Option<Reply>)
    requires AeadIdeal(c)
  {
    match e
    case Start(boot) =>
      if w.server.Some? then (w, None)
      else
        var (files, users) := Boot(c, w.files, boot);
        (World(files, if users.Some? then Some(Running(users.value, CLEARED)) else None), None)
    case Request(pt, env) =>
      if w.server.None? then (w, None)
      else if pt == [] then (w.(server := None), None)
      else
        var a := Handle(c, State(w.server.value.users, w.files, w.server.value.session), pt, env);
        (World(a.state.files, Some(Running(a.state.users, a.state.session))), Some(Reply(a.status, a.data)))
    case Stop => (w.(server := None), None)
    case Register(name, password, tool) =>
      if w.server.Some? then (w, None)
      else (w.(files := Provision.Register(c, w.files, name, password, tool).0), None)
  }

  /** The world after a list of events. */
  function Run(c: Suite, w: World, es: seq<Event>): World
    requires AeadIdeal(c)
  {
    if es == [] then w else Step(c, Run(c, w, es[..|es| - 1]), es[|es| - 1]).0
  }

  /** The world just before event `k`. */
  function Before(c: Suite, w: World, es: seq<Event>, k: nat): World
    requires AeadIdeal(c) && k <= |es|
  {
    Run(c, w, es[..k])
  }

  lemma BeforeNext(c: Suite, w: World, es: seq<Event>, k: nat)
    requires AeadIdeal(c) && k < |es|
    ensures Before(c, w, es, k + 1) == Step(c, Before(c, w, es, k), es[k]).0
  {
    assert es[..k + 1][..k] == es[..k];
  }

  /** A run is the run of its first events followed by the run of the rest. */
  lemma {:induction false} RunSplit(c: Suite, w: World, es: seq<Event>, k: nat)
    requires AeadIdeal(c) && k <= |es|
    ensures Run(c, w, es) == Run(c, Before(c, w, es, k), es[k..])
  {
    hide Step;
    if k == |es| {
      assert es[..k] == es && es[k..] == [];
    } else {
      var n := |es| - 1;
      RunSplit(c, w, es[..n], k);
      assert es[..n][..k] == es[..k] && es[k..][..n - k] == es[..n][k..];
    }
  }

  lemma BeforeSuffix(c: Suite, w: World, es: seq<Event>, k: nat, i: nat)
    requires AeadIdeal(c) && k + i <= |es|
    ensures Before(c, Before(c, w, es, k), es[k..], i) == Before(c, w, es, k + i)
  {
    RunSplit(c, w, es[..k + i], k);
    assert es[..k + i][..k] == es[..k] && es[..k + i][k..] == es[k..][..i];
  }

  lemma BeforeShorter(c: Suite, w: World, es: seq<Event>, k: nat)
    requires AeadIdeal(c) && es != [] && k < |es|
    ensures Before(c, w, es[..|es| - 1], k) == Before(c, w, es, k)
  {
    assert es[..|es| - 1][..k] == es[..k];
  }

  function ReplyTo(c: Suite, w: World, es: seq<Event>, k: nat): Option<Reply>
    requires AeadIdeal(c) && k < |es|
  {
    Step(c, Before(c, w, es, k), es[k]).1
  }

  /** A server in this state, with its files. */
  function Serving(s: State): World {
    World(s.files, Some(Running(s.users, s.session)))
  }

  lemma RunFirst(c: Suite, w: World, e: Event, rest: seq<Event>)
    requires AeadIdeal(c)
    ensures Run(c, w, [e] + rest) == Run(c, Step(c, w, e).0, rest)
  {
    hide Step;
    var es := [e] + rest;
    RunSplit(c, w, es, 1);
    RunLast(c, w, [], e);
    assert es[..1] == [] + [e] && es[1..] == rest;
  }

  lemma RunLast(c: Suite, w: World, es: seq<Event>, e: Event)
    requires AeadIdeal(c)
    ensures Run(c, w, es + [e]) == Step(c, Run(c, w, es), e).0
  {
    hide Step;
    assert (es + [e])[..|es|] == es;
  }
}

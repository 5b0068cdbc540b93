/** `src/server.rs`: start the redirecting router, and what it does per request.

    The configuration (`AppState`) is fixed at setup. Every request to "/" makes
    one provisioning attempt with the configured executable, ignores the
    returned result, and answers with a temporary redirect to the configured
    URI. Nothing carries over from one request to the next. */
module Router {
  import opened Outcomes
  import Decimal
  import Hash
  import Ports
  import Provision

  datatype AppState = AppState(serverUri: string, localServerPath: string)

  /** What a client sees: a redirect, or nothing because the handler panicked. */
  datatype Reply = Redirect(status: nat, location: string) | Aborted(panicMessage: string)

  /** One handled request: the provisioning attempt it made and the reply. */
  datatype Exchange = Exchange(provisioning: Provision.Run, reply: Reply)

  /** The listener bound by `setup` and the router it serves. */
  datatype SetupEffect = Bind(address: string) | Serve(state: AppState)

  datatype SetupRun = SetupRun(effects: seq<SetupEffect>, outcome: Outcome<()>)

  /** 307, section 15.4.8 of RFC 9110. */
  const TemporaryRedirect: nat := 307
  const BindHost: string := "0.0.0.0:"
  const InvalidLocation: string := "URI isn't a valid header value"

  /** The port `setup` listens on: a fresh one for 0, anything else as given. */
  function ListenPort(nport: Ports.U32, freePort: Option<Ports.U16>): (r: Outcome<Ports.U32>)
    ensures !r.Err?
    ensures nport != 0 ==> r == Ok(nport)
    ensures nport == 0 ==> (r.Ok? <==> freePort.Some?) && (r.Ok? ==> r.value == freePort.value)
  {
    if nport == 0 then
      var found := Ports.GetFreePort(freePort);
      if found.Ok? then Ok(found.value) else Panic(found.message)
    else Ok(nport)
  }

  function BindAddress(port: nat): string
  {
    BindHost + Decimal.NatToString(port)
  }

  /** Reads the port back out of a bind address. */
  function BindPort(address: string): Option<nat>
  {
    if |address| > |BindHost| && address[..|BindHost|] == BindHost && Decimal.Canonical(address[|BindHost|..])
    then Some(Decimal.Value(address[|BindHost|..]))
    else None
  }

  /** `setup`: choose the port, bind `0.0.0.0:<port>`, then serve the router
      until it stops. The bind and serve outcomes are inputs. */
  function Setup(
    nport: Ports.U32, serverUri: string, localServerPath: string,
    freePort: Option<Ports.U16>, bindError: Option<string>, serveError: Option<string>): (r: SetupRun)
    ensures r.outcome.Panic? <==> nport == 0 && freePort.None?
    ensures r.outcome.Panic? ==> r.effects == []
    ensures !r.outcome.Panic? ==> |r.effects| >= 1 && r.effects[0].Bind?
    ensures !r.outcome.Panic? && bindError.Some? ==>
      r.effects == [r.effects[0]] && r.outcome.Err?
    ensures forall i :: 0 <= i < |r.effects| && r.effects[i].Serve? ==>
      i == 1 && bindError.None? && r.effects[i].state == AppState(serverUri, localServerPath)
    ensures !r.outcome.Panic? && bindError.None? ==>
      |r.effects| == 2 && r.effects[1] == Serve(AppState(serverUri, localServerPath))
    ensures r.outcome.Ok? <==> (nport != 0 || freePort.Some?) && bindError.None? && serveError.None?
  {
    match ListenPort(nport, freePort)
    case Ok(port) =>
      var address := BindAddress(port);
      (match bindError
       case Some(e) => SetupRun([Bind(address)], Err("Failed to bind to " + address + ": " + e))
       case None =>
         var effects := [Bind(address), Serve(AppState(serverUri, localServerPath))];
         match serveError
         case Some(e) => SetupRun(effects, Err("Server error: " + e))
         case None => SetupRun(effects, Ok(())))
    case _ => SetupRun([], Panic(Ports.UnwrapNone))
  }

  /** The address `setup` binds carries the chosen port unchanged, with no range
      check: a requested port above 65535 reaches the bind attempt as it is. */
  lemma SetupBindsChosenPort(
    nport: Ports.U32, serverUri: string, localServerPath: string,
    freePort: Option<Ports.U16>, bindError: Option<string>, serveError: Option<string>)
    requires nport != 0 || freePort.Some?
    ensures var r := Setup(nport, serverUri, localServerPath, freePort, bindError, serveError);
      && |r.effects| >= 1 && r.effects[0].Bind?
      && BindPort(r.effects[0].address) == Some(if nport == 0 then freePort.value else nport)
  {
    var port := if nport == 0 then freePort.value else nport;
    var a := BindAddress(port);
    assert a[..|BindHost|] == BindHost;
    assert a[|BindHost|..] == Decimal.NatToString(port);
    Decimal.ValueOfNatToString(port);
  }

  /** A header value as the `http` crate accepts it: tab, or any character
      from space upwards except DEL. */
  predicate ValidHeaderValue(s: string)
  {
    forall i :: 0 <= i < |s| ==> s[i] == '\t' || (s[i] >= ' ' && s[i] != '\U{7F}')
  }

  /** `redirect_with_balance`: provision from the configured executable, drop the
      result, and redirect to the configured URI. A panic inside provisioning, or
      a URI that is no valid header value, aborts the request instead. */
  function HandleRequest(state: AppState, o: Provision.Oracle): (x: Exchange)
    requires Hash.IsHash(o.hash)
    ensures |x.provisioning.effects| >= 1 && x.provisioning.effects[0] == Provision.Copy(state.localServerPath, Provision.CopyPath(state.localServerPath, o.hash))
    ensures x.reply.Redirect? <==> !x.provisioning.outcome.Panic? && ValidHeaderValue(state.serverUri)
    ensures x.reply.Redirect? ==> x.reply == Redirect(TemporaryRedirect, state.serverUri)
  {
    var provisioning := Provision.CreateNewFileCopy(state.localServerPath, o);
    if provisioning.outcome.Panic? then Exchange(provisioning, Aborted(provisioning.outcome.message))
    else if !ValidHeaderValue(state.serverUri) then Exchange(provisioning, Aborted(InvalidLocation))
    else Exchange(provisioning, Redirect(TemporaryRedirect, state.serverUri))
  }

  predicate ValidOracles(oracles: seq<Provision.Oracle>)
  {
    forall i :: 0 <= i < |oracles| ==> Hash.IsHash(oracles[i].hash)
  }

  /** The router over a sequence of requests: the state after them, and one
      exchange per request in arrival order. */
  function ServeAll(state: AppState, oracles: seq<Provision.Oracle>): (r: (AppState, seq<Exchange>))
    requires ValidOracles(oracles)
    ensures r.0 == state
    ensures |r.1| == |oracles|
    decreases |oracles|
  {
    if |oracles| == 0 then (state, [])
    else
      var before := ServeAll(state, oracles[..|oracles| - 1]);
      (before.0, before.1 + [HandleRequest(before.0, oracles[|oracles| - 1])])
  }

  /** No request sees the history: the i-th exchange depends only on the fixed
      configuration and the i-th request's own inputs. */
  lemma {:induction false} ServeAllIsMemoryless(state: AppState, oracles: seq<Provision.Oracle>)
    requires ValidOracles(oracles)
    ensures forall i :: 0 <= i < |oracles| ==> ServeAll(state, oracles).1[i] == HandleRequest(state, oracles[i])
    decreases |oracles|
  {
    if |oracles| > 0 {
      var n := |oracles|;
      var init := oracles[..n - 1];
      ServeAllIsMemoryless(state, init);
      var before := ServeAll(state, init).1;
      var trace := ServeAll(state, oracles).1;
      assert trace == before + [HandleRequest(state, oracles[n - 1])];
      forall i | 0 <= i < n ensures trace[i] == HandleRequest(state, oracles[i]) {
        if i < n - 1 {
          assert trace[i] == before[i];
          assert init[i] == oracles[i];
        }
      }
    }
  }

  function CopyCount(effects: seq<Provision.Effect>): nat
  {
    if |effects| == 0 then 0
    else CopyCount(effects[..|effects| - 1]) + (if effects[|effects| - 1].Copy? then 1 else 0)
  }

  /** The number of copy attempts across all exchanges. */
  function Attempts(trace: seq<Exchange>): nat
  {
    if |trace| == 0 then 0
    else Attempts(trace[..|trace| - 1]) + CopyCount(trace[|trace| - 1].provisioning.effects)
  }

  /** A run whose first effect is the only copy. */
  lemma {:induction false} CopyCountOfRun(effects: seq<Provision.Effect>)
    requires |effects| >= 1 && effects[0].Copy?
    requires forall i :: 1 <= i < |effects| ==> effects[i].Launch?
    ensures CopyCount(effects) == 1
    decreases |effects|
  {
    if |effects| > 1 {
      CopyCountOfRun(effects[..|effects| - 1]);
    } else {
      assert effects[..0] == [];
    }
  }

  /** A single request copies the configured executable exactly once. */
  lemma ExchangeCopiesOnce(state: AppState, o: Provision.Oracle)
    requires Hash.IsHash(o.hash)
    ensures CopyCount(HandleRequest(state, o).provisioning.effects) == 1
    ensures HandleRequest(state, o).provisioning.effects[0].source == state.localServerPath
  {
    CopyCountOfRun(HandleRequest(state, o).provisioning.effects);
  }

  /** Every request makes exactly one provisioning attempt, so n requests copy
      the configured executable n times. */
  lemma {:induction false} OneAttemptPerRequest(state: AppState, oracles: seq<Provision.Oracle>)
    requires ValidOracles(oracles)
    ensures Attempts(ServeAll(state, oracles).1) == |oracles|
    decreases |oracles|
  {
    if |oracles| > 0 {
      var n := |oracles|;
      var init := oracles[..n - 1];
      OneAttemptPerRequest(state, init);
      var trace := ServeAll(state, oracles).1;
      var last := HandleRequest(state, oracles[n - 1]);
      assert trace == ServeAll(state, init).1 + [last];
      assert trace[..n - 1] == ServeAll(state, init).1;
      ExchangeCopiesOnce(state, oracles[n - 1]);
      assert Attempts(trace) == Attempts(trace[..n - 1]) + CopyCount(trace[n - 1].provisioning.effects);
    }
  }

  /** Whether provisioning returns an address or an error does not change the
      reply: the result is discarded. */
  lemma {:induction false} ReplyIgnoresProvisioningResult(state: AppState, o1: Provision.Oracle, o2: Provision.Oracle)
    requires Hash.IsHash(o1.hash) && Hash.IsHash(o2.hash)
    requires !HandleRequest(state, o1).provisioning.outcome.Panic?
    requires !HandleRequest(state, o2).provisioning.outcome.Panic?
    ensures HandleRequest(state, o1).reply == HandleRequest(state, o2).reply
  {
  }

  /** A failed copy is returned as an error and ignored: the client is still
      redirected to the configured URI when that is a valid header value. */
  lemma CopyFailureStillRedirects(state: AppState, o: Provision.Oracle)
    requires Hash.IsHash(o.hash) && o.copyError.Some? && ValidHeaderValue(state.serverUri)
    ensures HandleRequest(state, o).reply == Redirect(TemporaryRedirect, state.serverUri)
    ensures HandleRequest(state, o).provisioning.outcome == Err(o.copyError.value)
  {
  }

  /** A provisioning attempt that panics takes the request down with it: when
      the allocator finds no port, or the copy cannot be started, the client gets
      no redirect, whatever the configured URI. */
  lemma ProvisioningPanicAbortsRequest(state: AppState, o: Provision.Oracle)
    requires Hash.IsHash(o.hash) && o.copyError.None?
    requires o.freePort.None? || o.spawnError.Some?
    ensures HandleRequest(state, o).reply.Aborted?
    ensures o.freePort.None? ==> HandleRequest(state, o).reply == Aborted(Ports.UnwrapNone)
    ensures o.freePort.Some? ==>
      HandleRequest(state, o).reply == Aborted(Provision.SpawnFailed + ": " + o.spawnError.value)
  {
    Provision.ProvisionAfterCopy(state.localServerPath, o);
  }
}

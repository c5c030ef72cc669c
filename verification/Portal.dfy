/**
 The life cycle of WiFiManager's configuration and web portals, on values. `server` and `dns` say whether the two
 owned pointers hold an object; `crashed` records a call through an empty one.
 */
module Portal {
  import opened Bytes

  /** The setters' values. */
  datatype Options = Options(
    blocking: bool, disableConfigPortal: bool, breakAfterConfig: bool, connectOnSave: bool,
    allowExit: bool, hasTimeout: bool)

  /** `connects` logs the outcome of every `connectWifi`: true for WL_CONNECTED. */
  datatype Portal = Portal(
    config: bool, web: bool, connect: bool, abort: bool, ssid: string,
    server: bool, dns: bool, crashed: bool, connects: seq<bool>, options: Options)

  /** What a request handled by the web server does to the portal. */
  datatype Request = NoRequest | Save(ssid: string) | Exit

  /**
   One turn of the surroundings: has the timeout passed, what does the web server find, would a connection succeed,
   and what does the web server find when it is shut down in this turn.
   */
  datatype Tick = Tick(timedOut: bool, request: Request, connects: bool, last: Request)

  datatype Status = Idle | Connected | ConnectFailed

  predicate Active(p: Portal) {
    p.config || p.web
  }

  function HandleClient(p: Portal, r: Request): (q: Portal)
    ensures q.options == p.options && q.web == p.web && (p.crashed ==> q.crashed)
  {
    if !p.server then p.(crashed := true)
    else
      match r
      case NoRequest => p
      case Save(ssid) => p.(connect := true, ssid := ssid)
      case Exit => p.(abort := true)
  }

  function ProcessDns(p: Portal): (q: Portal)
    ensures q.options == p.options && q.web == p.web && (p.crashed ==> q.crashed)
  {
    if p.config && !p.dns then p.(crashed := true) else p
  }

  /** The timeout is looked at only while the configuration portal is active. */
  predicate TimedOut(p: Portal, t: Tick) {
    p.config && p.options.hasTimeout && t.timedOut
  }

  function SetupServer(p: Portal): Portal {
    p.(server := true)
  }

  function Shutdown(p: Portal, last: Request): (q: Portal)
    ensures q.options == p.options && q.web == p.web && (p.crashed ==> q.crashed)
  {
    if p.web then p
    else
      var q := HandleClient(ProcessDns(p), last).(server := false);
      if !q.config then q else q.(dns := false, config := false)
  }

  /** After a save has been asked for: try to connect, and decide whether the portal is done. */
  function ProcessSave(p: Portal, t: Tick): (r: (Portal, Status))
    ensures r.0.options == p.options && r.0.web == p.web && (p.crashed ==> r.0.crashed)
  {
    var tried := p.ssid != "";
    var q := if tried then p.(connects := p.connects + [t.connects]) else p;
    if tried && (t.connects || !p.options.connectOnSave) then
      if !p.options.connectOnSave then (q, Idle)
      else ((if p.options.disableConfigPortal then Shutdown(q, t.last) else q), Connected)
    else if p.options.breakAfterConfig then
      ((if p.options.disableConfigPortal then Shutdown(q, t.last) else q), ConnectFailed)
    else if p.options.blocking then (q.(ssid := ""), Idle)
    else (q, Idle)
  }

  function ProcessPortal(p: Portal, t: Tick): (r: (Portal, Status))
    ensures r.0.options == p.options && r.0.web == p.web && (p.crashed ==> r.0.crashed)
  {
    var q := HandleClient(ProcessDns(p), t.request);
    if q.connect then ProcessSave(q.(connect := false), t) else (q, Idle)
  }

  function StartWebPortal(p: Portal): Portal {
    if Active(p) then p else SetupServer(p.(connect := false, abort := false)).(web := true)
  }

  function StopWebPortal(p: Portal, last: Request): Portal {
    if !Active(p) then p else Shutdown(p.(web := false), last)
  }

  function StopConfigPortal(p: Portal, last: Request): Portal {
    if p.options.blocking then p.(abort := true) else Shutdown(p, last)
  }

  /** `process()` */
  function Process(p: Portal, t: Tick): (Portal, bool) {
    if p.web || (p.config && !p.options.blocking) then
      if p.options.allowExit && (TimedOut(p, t) || p.abort) then (Shutdown(p.(web := false), t.last), false)
      else
        var (q, status) := ProcessPortal(p, t);
        (q, status == Connected)
    else (p, false)
  }

  /** `startConfigPortal` up to its loop. */
  function Open(p: Portal): Portal {
    SetupServer(p.(config := true, connect := false, abort := false)).(dns := true)
  }

  /** One turn of the blocking loop; the value is what the call returns if the turn ends it. */
  function LoopTurn(p: Portal, t: Tick): (Portal, Option<bool>) {
    if TimedOut(p, t) || p.abort then (Shutdown(p, t.last), Some(false))
    else
      var (q, status) := ProcessPortal(p, t);
      if status != Idle then (q, Some(status == Connected))
      else if !q.config then (q, Some(false))
      else (q, None)
  }

  /** The blocking loop; None if it is still running when the turns are used up. */
  function Loop(p: Portal, ticks: seq<Tick>): (Portal, Option<bool>)
    decreases |ticks|
  {
    if ticks == [] then (p, None)
    else
      var (q, r) := LoopTurn(p, ticks[0]);
      if r.Some? then (q, r) else Loop(q, ticks[1..])
  }

  /** `startConfigPortal`; `validPassword` is the outcome of the password check. */
  function StartConfigPortal(p: Portal, validPassword: bool, ticks: seq<Tick>): (Portal, Option<bool>) {
    if p.config || !validPassword then (p, Some(false))
    else if !p.options.blocking then (Open(p), Some(false))
    else Loop(Open(p), ticks)
  }

  // ---------------------------------------------------------------- runs

  datatype Call =
    | CallStartConfig(validPassword: bool, ticks: seq<Tick>) | CallStartWeb
    | CallStopConfig(last: Request) | CallStopWeb(last: Request)
    | CallProcess(tick: Tick) | SetOptions(options: Options)

  function Step(p: Portal, c: Call): Portal {
    match c
    case CallStartConfig(valid, ticks) => StartConfigPortal(p, valid, ticks).0
    case CallStartWeb => StartWebPortal(p)
    case CallStopConfig(last) => StopConfigPortal(p, last)
    case CallStopWeb(last) => StopWebPortal(p, last)
    case CallProcess(t) => Process(p, t).0
    case SetOptions(o) => p.(options := o)
  }

  /** `stopConfigPortal` is for a portal that is active, or for one that runs in a blocking call. */
  predicate Permitted(p: Portal, c: Call) {
    c.CallStopConfig? ==> p.options.blocking || Active(p)
  }

  function Run(p: Portal, cs: seq<Call>): Portal
    decreases |cs|
  {
    if cs == [] then p else Run(Step(p, cs[0]), cs[1..])
  }

  predicate AllPermitted(p: Portal, cs: seq<Call>)
    decreases |cs|
  {
    cs == [] || (Permitted(p, cs[0]) && AllPermitted(Step(p, cs[0]), cs[1..]))
  }

  /** The owned pointers match the flags, and no empty one has been used. */
  predicate Consistent(p: Portal) {
    (p.server <==> Active(p)) && (p.dns <==> p.config) && !p.crashed
  }

  lemma ShutdownKeeps(p: Portal, last: Request)
    requires (p.dns <==> p.config) && !p.crashed && p.server
    ensures Shutdown(p, last) == p || Consistent(Shutdown(p, last))
    ensures !p.web ==> !Active(Shutdown(p, last)) && Consistent(Shutdown(p, last))
    ensures Shutdown(p, last).connects == p.connects
  {
  }

  lemma ProcessKeeps(p: Portal, t: Tick)
    requires Consistent(p) && Active(p)
    ensures Consistent(ProcessPortal(p, t).0)
  {
    var q := HandleClient(ProcessDns(p), t.request);
    if q.connect {
      var saved := q.(connect := false);
      ShutdownKeeps(saved.(connects := saved.connects + [t.connects]), t.last);
      ShutdownKeeps(saved, t.last);
    }
  }

  lemma {:induction false} LoopKeeps(p: Portal, ticks: seq<Tick>)
    requires Consistent(p) && p.config
    ensures Consistent(Loop(p, ticks).0)
    ensures Loop(p, ticks).1.None? ==> Loop(p, ticks).0.config
    decreases |ticks|
  {
    if ticks != [] {
      ShutdownKeeps(p, ticks[0].last);
      ProcessKeeps(p, ticks[0]);
      var (q, r) := LoopTurn(p, ticks[0]);
      if r.None? {
        LoopKeeps(q, ticks[1..]);
      }
    }
  }

  lemma StepKeeps(p: Portal, c: Call)
    requires Consistent(p) && Permitted(p, c)
    ensures Consistent(Step(p, c))
  {
    match c {
      case CallStartConfig(valid, ticks) =>
        if !p.config && valid && p.options.blocking {
          LoopKeeps(Open(p), ticks);
        }
      case CallStartWeb =>
      case CallStopConfig(last) =>
        if Active(p) {
          ShutdownKeeps(p, last);
        }
      case CallStopWeb(last) =>
        if Active(p) {
          ShutdownKeeps(p.(web := false), last);
        }
      case CallProcess(t) =>
        if Active(p) {
          ShutdownKeeps(p.(web := false), t.last);
          ProcessKeeps(p, t);
        }
      case SetOptions(_) =>
    }
  }

  /**
   Main result: over every sequence of permitted calls, with every behaviour of clients, timers and networks, `server`
   is allocated exactly while a portal flag is set and `dnsServer` exactly while the configuration portal is active.
   */
  lemma {:induction false} RunKeeps(p: Portal, cs: seq<Call>)
    requires Consistent(p) && AllPermitted(p, cs)
    ensures Consistent(Run(p, cs))
    decreases |cs|
  {
    if cs != [] {
      StepKeeps(p, cs[0]);
      RunKeeps(Step(p, cs[0]), cs[1..]);
    }
  }

  /** The restriction on `stopConfigPortal` is the exact one: without it the call goes through an empty pointer. */
  lemma PermissionExact(p: Portal, c: Call)
    requires Consistent(p)
    ensures Step(p, c).crashed <==> !Permitted(p, c)
  {
    if Permitted(p, c) {
      StepKeeps(p, c);
    }
  }

  // ---------------------------------------------------------------- what a call returns

  /** `connects` grew, and the last attempt succeeded. */
  predicate JustConnected(before: seq<bool>, after: seq<bool>) {
    |before| < |after| && before == after[..|before|] && after[|after| - 1]
  }

  predicate Grew(before: seq<bool>, after: seq<bool>) {
    |before| <= |after| && before == after[..|before|]
  }

  /** A turn reports a connection exactly when it tried to connect on saving and succeeded. */
  lemma {:induction false} ProcessReports(p: Portal, t: Tick)
    requires Consistent(p) && Active(p)
    ensures var (q, status) := ProcessPortal(p, t);
      && Grew(p.connects, q.connects)
      && (status == Connected <==> JustConnected(p.connects, q.connects) && p.options.connectOnSave)
  {
    var q := HandleClient(ProcessDns(p), t.request);
    assert q.connects == p.connects && q.options == p.options;
    if q.connect {
      var saved := q.(connect := false);
      ShutdownKeeps(saved.(connects := saved.connects + [t.connects]), t.last);
      ShutdownKeeps(saved, t.last);
    }
  }

  /** A blocking call returns true exactly when its last connection attempt was made on saving and succeeded. */
  lemma {:induction false} LoopResult(p: Portal, ticks: seq<Tick>)
    requires Consistent(p) && p.config
    ensures var (q, r) := Loop(p, ticks);
      && Grew(p.connects, q.connects)
      && (r == Some(true) <==> p.options.connectOnSave && JustConnected(p.connects, q.connects))
    decreases |ticks|
  {
    if ticks != [] {
      ShutdownKeeps(p, ticks[0].last);
      ProcessKeeps(p, ticks[0]);
      ProcessReports(p, ticks[0]);
      var (q, r) := LoopTurn(p, ticks[0]);
      if r.None? {
        LoopResult(q, ticks[1..]);
      }
    }
  }

  /** Main result on the outcome: true only from a blocking call whose last `connectWifi` returned WL_CONNECTED. */
  lemma StartReturnsTrue(p: Portal, valid: bool, ticks: seq<Tick>)
    requires Consistent(p)
    ensures var (q, r) := StartConfigPortal(p, valid, ticks);
      r == Some(true) <==>
        p.options.blocking && p.options.connectOnSave && JustConnected(p.connects, q.connects)
  {
    if !p.config && valid && p.options.blocking {
      LoopResult(Open(p), ticks);
    }
  }

  /** A finished blocking call leaves the portal open only if it is told to keep it, or if a web portal runs. */
  lemma {:induction false} LoopCloses(p: Portal, ticks: seq<Tick>)
    requires Consistent(p) && p.config && !p.web
    ensures var (q, r) := Loop(p, ticks);
      && !q.web
      && (r.Some? && p.options.disableConfigPortal ==> !Active(q))
    decreases |ticks|
  {
    if ticks != [] {
      ShutdownKeeps(p, ticks[0].last);
      ProcessKeeps(p, ticks[0]);
      var (q, r) := LoopTurn(p, ticks[0]);
      if r.None? {
        LoopCloses(q, ticks[1..]);
      }
    }
  }

  // ---------------------------------------------------------------- when a portal opens and ends

  lemma {:induction false} LoopConcat(p: Portal, s: seq<Tick>, t: seq<Tick>)
    ensures Loop(p, s).1.Some? ==> Loop(p, s + t) == Loop(p, s)
    ensures Loop(p, s).1.None? ==> Loop(p, s + t) == Loop(Loop(p, s).0, t)
    decreases |s|
  {
    hide LoopTurn;
    if s == [] {
      assert s + t == t;
    } else {
      assert (s + t)[0] == s[0] && (s + t)[1..] == s[1..] + t;
      var (q, r) := LoopTurn(p, s[0]);
      if r.None? {
        LoopConcat(q, s[1..], t);
      }
    }
  }

  lemma {:induction false} LoopOptions(p: Portal, ticks: seq<Tick>)
    ensures Loop(p, ticks).0.options == p.options && Loop(p, ticks).0.web == p.web
    decreases |ticks|
  {
    if ticks != [] {
      var (q, r) := LoopTurn(p, ticks[0]);
      if r.None? {
        LoopOptions(q, ticks[1..]);
      }
    }
  }

  /** The first turn of a loop decides if it ends it. */
  lemma FirstTurn(p: Portal, ticks: seq<Tick>)
    requires ticks != [] && LoopTurn(p, ticks[0]).1.Some?
    ensures Loop(p, ticks) == LoopTurn(p, ticks[0])
  {
  }

  /** The turn that finds the time up, or an exit asked for, ends a blocking call: false, and the portal is closed. */
  lemma {:induction false} LoopEnds(p: Portal, ticks: seq<Tick>, i: nat)
    requires Consistent(p) && p.config && !p.web && i < |ticks| && Loop(p, ticks[..i]).1.None?
    requires (p.options.hasTimeout && ticks[i].timedOut) || Loop(p, ticks[..i]).0.abort
    ensures Loop(p, ticks).1 == Some(false) && !Active(Loop(p, ticks).0)
  {
    var q := Loop(p, ticks[..i]).0;
    LoopKeeps(p, ticks[..i]);
    LoopOptions(p, ticks[..i]);
    ShutdownKeeps(q, ticks[i].last);
    LoopConcat(p, ticks[..i], ticks[i..]);
    assert ticks[..i] + ticks[i..] == ticks;
    FirstTurn(q, ticks[i..]);
    hide Loop, Shutdown;
  }

  /** A request to exit is remembered by the turn that gets it. */
  lemma ExitRemembered(p: Portal, t: Tick)
    requires Consistent(p) && p.config && t.request == Exit && LoopTurn(p, t).1.None?
    ensures LoopTurn(p, t).0.abort
  {
  }

  lemma {:induction false} AbortAfter(p: Portal, ticks: seq<Tick>, i: nat)
    requires Consistent(p) && p.config && i < |ticks| && ticks[i].request == Exit && Loop(p, ticks[..i + 1]).1.None?
    ensures Loop(p, ticks[..i + 1]).0.abort
  {
    var one := [ticks[i]];
    LoopConcat(p, ticks[..i], one);
    assert ticks[..i] + one == ticks[..i + 1];
    LoopKeeps(p, ticks[..i]);
    var q := Loop(p, ticks[..i]).0;
    assert one[1..] == [] && Loop(q, one).1 == LoopTurn(q, ticks[i]).1;
    ExitRemembered(q, ticks[i]);
  }

  /**
   Main result on the end of a blocking call: it is over by the first turn that finds the time up, and by the turn
   behind the first request to exit. If it is still running until then, it returns false with the portal closed.
   */
  lemma {:induction false} BlockingEnds(p: Portal, ticks: seq<Tick>, i: nat)
    requires Consistent(p) && p.config && !p.web && i < |ticks|
    ensures p.options.hasTimeout && ticks[i].timedOut ==>
      && Loop(p, ticks[..i + 1]).1.Some?
      && (Loop(p, ticks[..i]).1.None? ==> Loop(p, ticks).1 == Some(false) && !Active(Loop(p, ticks).0))
    ensures ticks[i].request == Exit && i + 1 < |ticks| ==>
      && Loop(p, ticks[..i + 2]).1.Some?
      && (Loop(p, ticks[..i + 1]).1.None? ==> Loop(p, ticks).1 == Some(false) && !Active(Loop(p, ticks).0))
  {
    hide Loop, Active, Consistent;
    if p.options.hasTimeout && ticks[i].timedOut {
      EndsBy(p, ticks, i);
      if Loop(p, ticks[..i]).1.None? {
        LoopEnds(p, ticks, i);
      }
    }
    if ticks[i].request == Exit && i + 1 < |ticks| {
      if Loop(p, ticks[..i + 1]).1.None? {
        AbortAfter(p, ticks, i);
        LoopEnds(p, ticks, i + 1);
      }
      EndsBy(p, ticks, i + 1);
    }
  }

  /** What has ended before turn i + 1, or ends in it, has ended by then. */
  lemma {:induction false} EndsBy(p: Portal, ticks: seq<Tick>, i: nat)
    requires Consistent(p) && p.config && !p.web && i < |ticks|
    requires Loop(p, ticks[..i]).1.None? ==>
      (p.options.hasTimeout && ticks[i].timedOut) || Loop(p, ticks[..i]).0.abort
    ensures Loop(p, ticks[..i + 1]).1.Some?
  {
    assert ticks[..i + 1][..i] == ticks[..i] && ticks[..i + 1] == ticks[..i] + [ticks[i]];
    if Loop(p, ticks[..i]).1.None? {
      LoopEnds(p, ticks[..i + 1], i);
    } else {
      LoopConcat(p, ticks[..i], [ticks[i]]);
    }
  }

  /** Without a timeout and without requests the call goes on, and nothing changes. */
  lemma {:induction false} LoopWaits(p: Portal, ticks: seq<Tick>)
    requires Consistent(p) && p.config && !p.connect && !p.abort
    requires forall i :: 0 <= i < |ticks| ==>
      ticks[i].request == NoRequest && !(p.options.hasTimeout && ticks[i].timedOut)
    ensures Loop(p, ticks) == (p, None)
    decreases |ticks|
  {
    if ticks != [] {
      LoopWaits(p, ticks[1..]);
    }
  }

  /** A saved network is tried at once, if it has a name; what then ends a blocking call, and how it is left. */
  lemma SaveOutcome(p: Portal, t: Tick, ssid: string)
    requires Consistent(p) && p.config && !p.web && !p.abort && t.request == Save(ssid)
    requires !(p.options.hasTimeout && t.timedOut)
    ensures var (o, (q, r)) := (p.options, LoopTurn(p, t));
      && q.connects == p.connects + (if ssid != "" then [t.connects] else [])
      && r == (if ssid != "" && o.connectOnSave && t.connects then Some(true)
               else if o.breakAfterConfig && (ssid == "" || o.connectOnSave) then Some(false) else None)
      && (Active(q) <==> r.None? || !o.disableConfigPortal)
      && (r.None? ==>
            !q.connect && !q.abort && q.ssid == if o.blocking && (ssid == "" || o.connectOnSave) then "" else ssid)
  {
  }

  /** The same for a portal that is served by `process`; as long as a web portal runs, a save closes nothing. */
  lemma ProcessSaves(p: Portal, t: Tick, ssid: string)
    requires Consistent(p) && (p.web || (p.config && !p.options.blocking)) && t.request == Save(ssid)
    requires !p.options.allowExit || (!p.abort && !(p.config && p.options.hasTimeout && t.timedOut))
    ensures var (o, (q, r)) := (p.options, Process(p, t));
      var connected := ssid != "" && o.connectOnSave && t.connects;
      && q.connects == p.connects + (if ssid != "" then [t.connects] else [])
      && r == connected && q.web == p.web && (Active(q) ==> !q.connect)
      && (p.config && !p.web ==>
            (!Active(q) <==>
              o.disableConfigPortal && (connected || (o.breakAfterConfig && (ssid == "" || o.connectOnSave)))))
      && (p.web ==> q.config == p.config)
  {
  }

  /** A blocking call begins anew: requests that were left from before do not end it, and without any it goes on. */
  lemma StartWaits(p: Portal, ticks: seq<Tick>)
    requires Consistent(p) && !p.config && p.options.blocking
    requires forall i :: 0 <= i < |ticks| ==>
      ticks[i].request == NoRequest && !(p.options.hasTimeout && ticks[i].timedOut)
    ensures var (q, r) := StartConfigPortal(p, true, ticks);
      r == None && q.config && !q.connect && !q.abort && q.connects == p.connects && q.ssid == p.ssid
  {
    LoopWaits(Open(p), ticks);
  }

  /** The end of a portal that is served by `process`, where exits must be allowed. */
  lemma ProcessEnds(p: Portal, t: Tick)
    requires Consistent(p) && (p.web || (p.config && !p.options.blocking))
    requires (p.config && p.options.hasTimeout && t.timedOut) || p.abort
    ensures p.options.allowExit ==> Process(p, t).1 == false && !Active(Process(p, t).0)
    ensures !p.options.allowExit && t.request == NoRequest && !p.connect ==> Process(p, t) == (p, false)
  {
    ShutdownKeeps(p.(web := false), t.last);
  }

  lemma ProcessExit(p: Portal, t: Tick, next: Tick)
    requires Consistent(p) && (p.web || (p.config && !p.options.blocking)) && p.options.allowExit && t.request == Exit
    ensures Active(Process(p, t).0) ==> !Active(Process(Process(p, t).0, next).0)
  {
  }

  lemma ProcessWaits(p: Portal, t: Tick)
    requires Consistent(p) && !p.connect && !p.abort && t.request == NoRequest
    requires !(p.config && p.options.hasTimeout && t.timedOut)
    ensures Process(p, t) == (p, false)
  {
  }

  /** What starting and stopping leave. */
  lemma StartsAndStops(p: Portal, last: Request)
    requires Consistent(p)
    ensures !Active(p) ==>
      var q := StartWebPortal(p); q.web && !q.config && !q.connect && !q.abort
    ensures Active(p) ==> StartWebPortal(p) == p
    ensures !p.config && !p.options.blocking ==>
      StartConfigPortal(p, true, []).0.config && StartConfigPortal(p, true, []).1 == Some(false)
    ensures p.config ==> StartConfigPortal(p, true, []) == (p, Some(false))
    ensures StartConfigPortal(p, false, []) == (p, Some(false))
    ensures !Active(StopWebPortal(p, last))
    ensures Active(p) && !p.web && !p.options.blocking ==> !Active(StopConfigPortal(p, last))
    ensures p.web && !p.options.blocking ==> StopConfigPortal(p, last) == p
    ensures p.options.blocking ==> StopConfigPortal(p, last) == p.(abort := true)
  {
    if Active(p) {
      ShutdownKeeps(p, last);
      ShutdownKeeps(p.(web := false), last);
    }
  }
}

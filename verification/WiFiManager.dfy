/**
 The portal part of WiFiManager.cpp as the object the source makes of it: flags, and two owned pointers. Every method
 is tied to the function of module Portal that its theorems are about; none may use an empty pointer.
 */
module WiFiManager {
  import opened Bytes
  import P = Portal

  class WebServer {
    constructor () {
    }
  }

  class DnsServer {
    constructor () {
    }
  }

  class Manager {
    var configPortalActive: bool
    var webPortalActive: bool
    var connect: bool
    var abort: bool
    var ssid: string
    var server: WebServer?
    var dnsServer: DnsServer?
    var options: P.Options
    ghost var connects: seq<bool>

    ghost function Model(): P.Portal
      reads this
    {
      P.Portal(configPortalActive, webPortalActive, connect, abort, ssid, server != null, dnsServer != null, false,
               connects, options)
    }

    constructor (options: P.Options)
      ensures P.Consistent(Model()) && !P.Active(Model()) && this.options == options
    {
      configPortalActive, webPortalActive, connect, abort, ssid := false, false, false, false, "";
      server, dnsServer := null, null;
      this.options := options;
      connects := [];
    }

    /** `server->handleClient()` finds the request r. */
    method HandleClient(r: P.Request)
      requires server != null
      modifies `connect, `abort, `ssid
      ensures Model() == P.HandleClient(old(Model()), r)
    {
      match r {
        case NoRequest =>
        case Save(s) =>
          ssid := s;
          connect := true;
        case Exit =>
          abort := true;
      }
    }

    method SetupHTTPServer()
      modifies `server
      ensures Model() == P.SetupServer(old(Model()))
    {
      server := new WebServer();
    }

    predicate ConfigPortalHasTimeout(t: P.Tick)
      reads this
    {
      configPortalActive && options.hasTimeout && t.timedOut
    }

    method ShutdownConfigPortal(last: P.Request)
      requires !P.Shutdown(Model(), last).crashed
      modifies `configPortalActive, `connect, `abort, `ssid, `server, `dnsServer
      ensures Model() == P.Shutdown(old(Model()), last)
    {
      if webPortalActive {
        return;
      }
      assert configPortalActive ==> dnsServer != null;
      HandleClient(last);
      server := null;
      if !configPortalActive {
        return;
      }
      dnsServer := null;
      configPortalActive := false;
    }

    /** `connectWifi` ends with the given outcome. */
    method ConnectWifi(outcome: bool) returns (connected: bool)
      modifies `connects
      ensures connected == outcome && connects == old(connects) + [outcome]
    {
      ghost var log := connects + [outcome];
      connects := log;
      connected := outcome;
    }

    /** The part of `processConfigPortal` that a save request starts. */
    method ProcessSave(t: P.Tick) returns (state: P.Status)
      requires !P.ProcessSave(Model(), t).0.crashed && server != null && (configPortalActive ==> dnsServer != null)
      modifies `configPortalActive, `connect, `abort, `ssid, `server, `dnsServer, `connects
      ensures (Model(), state) == P.ProcessSave(old(Model()), t)
    {
      hide P.Shutdown;
      if ssid != "" {
        var res := ConnectWifi(t.connects);
        if res || !options.connectOnSave {
          if !options.connectOnSave {
            return P.Idle;
          }
          if options.disableConfigPortal {
            ShutdownConfigPortal(t.last);
          }
          return P.Connected;
        }
      }
      if options.breakAfterConfig {
        if options.disableConfigPortal {
          ShutdownConfigPortal(t.last);
        }
        return P.ConnectFailed;
      } else if options.blocking {
        ssid := "";
      }
      state := P.Idle;
    }

    method ProcessConfigPortal(t: P.Tick) returns (state: P.Status)
      requires !P.ProcessPortal(Model(), t).0.crashed && !P.HandleClient(P.ProcessDns(Model()), t.request).crashed
      modifies `configPortalActive, `connect, `abort, `ssid, `server, `dnsServer, `connects
      ensures (Model(), state) == P.ProcessPortal(old(Model()), t)
    {
      hide P.ProcessSave;
      assert configPortalActive ==> dnsServer != null;
      HandleClient(t.request);
      if connect {
        connect := false;
        state := ProcessSave(t);
      } else {
        state := P.Idle;
      }
    }

    method StartWebPortal()
      modifies this
      ensures Model() == P.StartWebPortal(old(Model()))
    {
      if configPortalActive || webPortalActive {
        return;
      }
      connect, abort := false, false;
      SetupHTTPServer();
      webPortalActive := true;
    }

    method StopWebPortal(last: P.Request)
      requires P.Consistent(Model())
      modifies this
      ensures Model() == P.StopWebPortal(old(Model()), last)
    {
      if !configPortalActive && !webPortalActive {
        return;
      }
      webPortalActive := false;
      ShutdownConfigPortal(last);
    }

    method StopConfigPortal(last: P.Request)
      requires P.Consistent(Model()) && P.Permitted(Model(), P.CallStopConfig(last))
      modifies this
      ensures Model() == P.StopConfigPortal(old(Model()), last)
    {
      if options.blocking {
        abort := true;
        return;
      }
      ShutdownConfigPortal(last);
    }

    method Process(t: P.Tick) returns (connected: bool)
      requires P.Consistent(Model())
      modifies this
      ensures (Model(), connected) == P.Process(old(Model()), t)
    {
      if webPortalActive || (configPortalActive && !options.blocking) {
        if options.allowExit && (ConfigPortalHasTimeout(t) || abort) {
          webPortalActive := false;
          ShutdownConfigPortal(t.last);
          return false;
        }
        P.ProcessKeeps(Model(), t);
        var state := ProcessConfigPortal(t);
        return state == P.Connected;
      }
      return false;
    }

    method SetupDNSD()
      modifies `dnsServer
      ensures dnsServer != null
    {
      dnsServer := new DnsServer();
    }

    /** Starts the portal; `ticks` are the turns of the blocking loop that are watched. None: it is still running. */
    method StartConfigPortal(validPassword: bool, ticks: seq<P.Tick>) returns (result: Option<bool>)
      requires P.Consistent(Model())
      modifies this
      ensures (Model(), result) == P.StartConfigPortal(old(Model()), validPassword, ticks)
      ensures P.Consistent(Model())
    {
      ghost var p := Model();
      P.StepKeeps(p, P.CallStartConfig(validPassword, ticks));
      if configPortalActive {
        return Some(false);
      }
      if !validPassword {
        return Some(false);
      }
      configPortalActive := true;
      connect, abort := false, false;
      SetupHTTPServer();
      SetupDNSD();
      assert Model() == P.Open(p);
      if !options.blocking {
        return Some(false);
      }
      result := BlockingLoop(ticks);
    }

    method BlockingLoop(ticks: seq<P.Tick>) returns (result: Option<bool>)
      requires P.Consistent(Model()) && configPortalActive
      modifies `configPortalActive, `connect, `abort, `ssid, `server, `dnsServer, `connects
      ensures (Model(), result) == P.Loop(old(Model()), ticks)
    {
      var i := 0;
      while i < |ticks|
        invariant 0 <= i <= |ticks| && P.Consistent(Model()) && configPortalActive
        invariant P.Loop(Model(), ticks[i..]) == P.Loop(old(Model()), ticks)
      {
        ghost var p := Model();
        var t := ticks[i];
        assert ticks[i..][0] == t && ticks[i..][1..] == ticks[i + 1..];
        if ConfigPortalHasTimeout(t) || abort {
          ShutdownConfigPortal(t.last);
          return Some(false);
        }
        P.ProcessKeeps(p, t);
        var state := ProcessConfigPortal(t);
        if state != P.Idle {
          return Some(state == P.Connected);
        }
        if !configPortalActive {
          return Some(false);
        }
        i := i + 1;
      }
      result := None;
    }
  }
}

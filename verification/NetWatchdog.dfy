/**
 The network watchdog: a loop with a cycle counter and a remembered state that reconciles when
 something changed or when the repair interval has passed, while other programs may rewrite the tables.
 */
module NetWatchdog {
  import opened Wrappers
  import opened Text
  import opened KernelTables
  import opened NetReconcile

  const U64_MAX: nat := 0xFFFF_FFFF_FFFF_FFFF
  type U64 = n: nat | n <= U64_MAX

  datatype WatchConfig = WatchConfig(net: NetConfig, watchInterval: U64, repairInterval: U64)

  /** The loop's variables at its head. */
  datatype WatchState = WatchState(cycles: U64, lastState: string, lastWait: string)

  /** What an iteration is given: the host it observes, and tables rewritten by others just before. */
  datatype World = World(env: Env, rewrite: Option<Tables>)

  datatype Attempt = Attempt(subnet: Token, uplink: Option<Token>)
  datatype Outcome = Waiting | Quiet | Attempted(attempt: Attempt)

  function SaturatingAdd(a: U64, b: U64): (r: U64)
    ensures r == if a + b <= U64_MAX then a + b else U64_MAX
  {
    if a + b <= U64_MAX then a + b else U64_MAX
  }

  // ---- Observations ----

  /** `bridge_subnet_for_watchdog`: the configuration first, then the route, then the address. */
  function WatchSubnet(net: NetConfig, env: Env): Option<Token> {
    if net.dockerSubnet.Some? then net.dockerSubnet
    else if env.routeSubnet.Some? then env.routeSubnet
    else env.addrSubnet
  }

  /** The iteration gets past its waiting branches. */
  predicate Active(net: NetConfig, env: Env) {
    env.hasIp && env.bridgeUp && WatchSubnet(net, env).Some?
  }

  function Label(uplink: Option<Token>): string {
    match uplink
    case Some(u) => u
    case None => "unavailable"
  }

  function StateText(net: NetConfig, a: Attempt): string {
    net.bridge + "|" + a.subnet + "|" + Label(a.uplink) + "|" +
    (match net.iptables case Some(command) => command case None => "")
  }

  function Observed(net: NetConfig, env: Env): Attempt
    requires Active(net, env)
  {
    Attempt(WatchSubnet(net, env).value, ResolveUplink(net, env))
  }

  /** The configuration a repair runs with. */
  function RepairConfig(net: NetConfig, a: Attempt): NetConfig {
    net.(dockerSubnet := Some(a.subnet), uplink := a.uplink)
  }

  // ---- One iteration ----

  function TablesBefore(world: World, t: Tables): Tables {
    match world.rewrite
    case Some(rewritten) => rewritten
    case None => t
  }

  predicate Due(cfg: WatchConfig, env: Env, w: WatchState, t: Tables)
    requires Active(cfg.net, env)
  {
    var now := Observed(cfg.net, env);
    || !RulePresent(t.rules, cfg.net.returnPriority, ReturnNeedle(now.subnet))
    || StateText(cfg.net, now) != w.lastState
    || w.cycles >= cfg.repairInterval
  }

  function OutcomeOf(cfg: WatchConfig, world: World, w: WatchState, t: Tables): Outcome {
    if !Active(cfg.net, world.env) then Waiting
    else if Due(cfg, world.env, w, TablesBefore(world, t)) then Attempted(Observed(cfg.net, world.env))
    else Quiet
  }

  function NextState(cfg: WatchConfig, world: World, w: WatchState, t: Tables): WatchState {
    match OutcomeOf(cfg, world, w, t)
    case Waiting =>
      w.(lastWait := if !world.env.hasIp then "missing-ip"
                     else if !world.env.bridgeUp then "missing-bridge" else "missing-subnet")
    case Quiet =>
      w.(cycles := SaturatingAdd(w.cycles, cfg.watchInterval), lastWait := UplinkWait(cfg.net, world.env))
    case Attempted(a) =>
      WatchState(cfg.watchInterval, StateText(cfg.net, a), UplinkWait(cfg.net, world.env))
  }

  function UplinkWait(net: NetConfig, env: Env): string {
    if ResolveUplink(net, env).None? then "missing-uplink" else ""
  }

  function NextTables(cfg: WatchConfig, world: World, w: WatchState, t: Tables): Tables {
    var before := TablesBefore(world, t);
    match OutcomeOf(cfg, world, w, t)
    case Attempted(a) => Reconciled(RepairConfig(cfg.net, a), world.env, before)
    case _ => before
  }

  // ---- Runs ----

  datatype Trace = Trace(state: WatchState, tables: Tables, outcomes: seq<Outcome>)

  function Start(cfg: WatchConfig): WatchState {
    WatchState(cfg.repairInterval, "", "")
  }

  function Run(cfg: WatchConfig, w: WatchState, t: Tables, worlds: seq<World>): (r: Trace)
    ensures |r.outcomes| == |worlds|
  {
    if worlds == [] then Trace(w, t, [])
    else
      var n := |worlds| - 1;
      var before := Run(cfg, w, t, worlds[..n]);
      Trace(NextState(cfg, worlds[n], before.state, before.tables),
            NextTables(cfg, worlds[n], before.state, before.tables),
            before.outcomes + [OutcomeOf(cfg, worlds[n], before.state, before.tables)])
  }

  /** One pass through the loop body of `net_watchdog`. */
  method Iterate(cfg: WatchConfig, k: Kernel, env: Env, w: WatchState) returns (next: WatchState, outcome: Outcome)
    modifies k`rules, k`forward, k`postrouting
    ensures outcome == OutcomeOf(cfg, World(env, None), w, old(k.Value()))
    ensures next == NextState(cfg, World(env, None), w, old(k.Value()))
    ensures k.Value() == NextTables(cfg, World(env, None), w, old(k.Value()))
  {
    var net := cfg.net;
    var cycles, lastState, lastWait := w.cycles, w.lastState, w.lastWait;
    if !env.hasIp {
      return WatchState(cycles, lastState, "missing-ip"), Waiting;
    }
    if !env.bridgeUp {
      return WatchState(cycles, lastState, "missing-bridge"), Waiting;
    }
    var maybeSubnet := WatchSubnet(net, env);
    if maybeSubnet.None? {
      return WatchState(cycles, lastState, "missing-subnet"), Waiting;
    }
    var now := Attempt(maybeSubnet.value, ResolveUplink(net, env));
    lastWait := if now.uplink.None? then "missing-uplink" else "";
    var _, exact := CountIpRulesAtPriority(k, net.returnPriority, ReturnNeedle(now.subnet));
    CountsDecide(k.rules, net.returnPriority, ReturnNeedle(now.subnet));
    if exact == 0 {
      cycles := cfg.repairInterval;
    }
    var state := StateText(net, now);
    if state != lastState {
      lastState := state;
      cycles := cfg.repairInterval;
    }
    outcome := Quiet;
    if cycles >= cfg.repairInterval {
      var _ := Reconcile(RepairConfig(net, now), env, k);
      outcome := Attempted(now);
      cycles := 0;
    }
    cycles := SaturatingAdd(cycles, cfg.watchInterval);
    next := WatchState(cycles, lastState, lastWait);
  }

  /** `net_watchdog`, for as many iterations as there are worlds before termination is requested. */
  method Watch(cfg: WatchConfig, k: Kernel, worlds: seq<World>) returns (final: WatchState, outcomes: seq<Outcome>)
    modifies k
    ensures Trace(final, k.Value(), outcomes) == Run(cfg, Start(cfg), old(k.Value()), worlds)
  {
    final, outcomes := Start(cfg), [];
    for i := 0 to |worlds|
      invariant Trace(final, k.Value(), outcomes) == Run(cfg, Start(cfg), old(k.Value()), worlds[..i])
    {
      assert worlds[..i + 1][..i] == worlds[..i];
      if worlds[i].rewrite.Some? {
        k.Overwrite(worlds[i].rewrite.value);
      }
      var outcome;
      final, outcome := Iterate(cfg, k, worlds[i].env, final);
      outcomes := outcomes + [outcome];
    }
    assert worlds[..|worlds|] == worlds;
  }
}

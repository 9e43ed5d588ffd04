/**
 Whole runs of the watchdog: what its remembered state and its counter mean in terms of the run so
 far, how far apart repairs are, and that the tables stabilise once the environment leaves them alone.
 */
module NetWatchdogLaws {
  import opened Wrappers
  import opened Text
  import opened KernelTables
  import opened NetReconcile
  import opened NetReconcileLaws
  import opened NetWatchdog

  // ---- The state text ----

  /** The first bar of a text splits it in one way only. */
  lemma BarSplit(a: string, b: string, x: string, y: string)
    requires '|' !in a && '|' !in b
    requires a + "|" + x == b + "|" + y
    ensures a == b && x == y
  {
    var s, t := a + "|" + x, b + "|" + y;
    assert s[|a|] == '|' && t[|b|] == '|';
    assert forall k :: 0 <= k < |a| ==> s[k] == a[k];
    assert forall k :: 0 <= k < |b| ==> t[k] == b[k];
    assert |a| == |b|;
    assert s[|a| + 1..] == x && t[|b| + 1..] == y;
  }

  /** The remembered text tells two observations apart, but for an uplink that is called "unavailable". */
  lemma StateTextIdentifies(net: NetConfig, a: Attempt, b: Attempt)
    requires '|' !in a.subnet && '|' !in b.subnet
    ensures StateText(net, a) == StateText(net, b) <==> a.subnet == b.subnet && Label(a.uplink) == Label(b.uplink)
  {
    var command := match net.iptables case Some(c) => c case None => "";
    if StateText(net, a) == StateText(net, b) {
      var x, y := Label(a.uplink) + "|" + command, Label(b.uplink) + "|" + command;
      var head := net.bridge + "|";
      assert StateText(net, a) == head + (a.subnet + "|" + x);
      assert StateText(net, b) == head + (b.subnet + "|" + y);
      SameAffixes(head, a.subnet + "|" + x, b.subnet + "|" + y, "");
      BarSplit(a.subnet, b.subnet, x, y);
      assert x == "" + Label(a.uplink) + ("|" + command);
      assert y == "" + Label(b.uplink) + ("|" + command);
      SameAffixes("", Label(a.uplink), Label(b.uplink), "|" + command);
    }
  }

  /** Without an uplink the text names none. */
  lemma StateTextWithoutUplink(net: NetConfig, subnet: Token)
    ensures StateText(net, Attempt(subnet, None)) ==
            net.bridge + "|" + subnet + "|" + "unavailable" + "|"
            + (if net.iptables.Some? then net.iptables.value else "")
  {
  }

  /** What the watchdog says it waits for, once per change. */
  lemma WaitMessages(cfg: WatchConfig, world: World, w: WatchState, t: Tables)
    ensures
      var net, env, wait := cfg.net, world.env, NextState(cfg, world, w, t).lastWait;
      var subnet := FirstOf([net.dockerSubnet, env.routeSubnet, env.addrSubnet]);
      var uplink := FirstOf([net.uplink, env.detectedUplink]);
      && (wait == "missing-ip" <==> !env.hasIp)
      && (wait == "missing-bridge" <==> env.hasIp && !env.bridgeUp)
      && (wait == "missing-subnet" <==> env.hasIp && env.bridgeUp && subnet.None?)
      && (wait == "missing-uplink" <==> env.hasIp && env.bridgeUp && subnet.Some? && uplink.None?)
      && (wait == "" <==> env.hasIp && env.bridgeUp && subnet.Some? && uplink.Some?)
  {
    hide Due, StateText, FirstOf;
    ObservedFirst(cfg.net, world.env);
    assert "missing-ip"[8] == 'i' && "missing-bridge"[8] == 'b' && "missing-subnet"[8] == 's';
    assert "missing-uplink"[8] == 'u';
  }

  lemma SameAffixes(head: string, x: string, y: string, tail: string)
    requires head + x + tail == head + y + tail
    ensures x == y
  {
    assert |x| == |y|;
    assert (head + x + tail)[|head|..|head| + |x|] == x;
    assert (head + y + tail)[|head|..|head| + |y|] == y;
  }

  // ---- The counter and the remembered state, from the history alone ----

  function Latest(outcomes: seq<Outcome>): Option<Attempt> {
    if outcomes == [] then None
    else
      var n := |outcomes| - 1;
      if outcomes[n].Attempted? then Some(outcomes[n].attempt) else Latest(outcomes[..n])
  }

  function CountActive(outcomes: seq<Outcome>): nat {
    if outcomes == [] then 0
    else
      var n := |outcomes| - 1;
      CountActive(outcomes[..n]) + if outcomes[n].Waiting? then 0 else 1
  }

  /** Active iterations from the latest attempt on, that one included. */
  function ActiveSince(outcomes: seq<Outcome>): nat {
    if outcomes == [] then 0
    else
      var n := |outcomes| - 1;
      match outcomes[n]
      case Attempted(_) => 1
      case Quiet => ActiveSince(outcomes[..n]) + 1
      case Waiting => ActiveSince(outcomes[..n])
  }

  /**
   At every loop head the remembered text is that of the latest attempt (empty before the first), and
   the saturating counter is the number of active iterations since then times the interval.
   */
  lemma {:induction false} StateFromHistory(cfg: WatchConfig, t: Tables, worlds: seq<World>)
    ensures
      var r := Run(cfg, Start(cfg), t, worlds);
      match Latest(r.outcomes)
      case None => r.state.lastState == "" && r.state.cycles == cfg.repairInterval
      case Some(a) =>
        var elapsed := ActiveSince(r.outcomes) * cfg.watchInterval;
        && r.state.lastState == StateText(cfg.net, a)
        && r.state.cycles == (if elapsed <= U64_MAX then elapsed else U64_MAX)
  {
    hide NextTables, RulePresent, StateText, Observed, TablesBefore;
    if worlds != [] {
      var n := |worlds| - 1;
      var before, after := Run(cfg, Start(cfg), t, worlds[..n]), Run(cfg, Start(cfg), t, worlds);
      StateFromHistory(cfg, t, worlds[..n]);
      assert after.outcomes[..n] == before.outcomes;
      if after.outcomes[n].Quiet? {
        assert Latest(before.outcomes).Some?;
        Distribute(ActiveSince(before.outcomes), cfg.watchInterval);
      }
    }
  }

  lemma Distribute(k: int, w: int)
    ensures (k + 1) * w == k * w + w
  {
  }

  lemma {:induction false} RunPrefix(cfg: WatchConfig, w: WatchState, t: Tables, worlds: seq<World>, i: nat)
    requires i <= |worlds|
    ensures Run(cfg, w, t, worlds).outcomes[..i] == Run(cfg, w, t, worlds[..i]).outcomes
  {
    if i < |worlds| {
      var n := |worlds| - 1;
      RunPrefix(cfg, w, t, worlds[..n], i);
      assert worlds[..n][..i] == worlds[..i];
    } else {
      assert worlds[..i] == worlds;
    }
  }

  /** What an iteration sees: the configured subnet before the route's before the address's, likewise the uplink. */
  lemma ObservedFirst(net: NetConfig, env: Env)
    ensures
      var subnet := FirstOf([net.dockerSubnet, env.routeSubnet, env.addrSubnet]);
      var uplink := FirstOf([net.uplink, env.detectedUplink]);
      && (Active(net, env) <==> env.hasIp && env.bridgeUp && subnet.Some?)
      && (Active(net, env) ==> Observed(net, env) == Attempt(subnet.value, uplink))
  {
    SourcesInOrder(net.dockerSubnet, env.routeSubnet, env.addrSubnet);
    SourcesInOrder(net.uplink, env.detectedUplink, None);
  }

  /** The tables an iteration of a run starts from, after the environment has had its turn. */
  function TablesSeen(cfg: WatchConfig, t: Tables, worlds: seq<World>, i: nat): Tables
    requires i < |worlds|
  {
    TablesBefore(worlds[i], Run(cfg, Start(cfg), t, worlds[..i]).tables)
  }

  /**
   Which iterations of a run reconcile, without any mention of the counter or the remembered text:
   those that find the bridge and a subnet, and miss the return rule, or are the first, or observe a
   change since the latest attempt, or come a full repair interval after it.
   */
  lemma AttemptsOfARun(cfg: WatchConfig, t: Tables, worlds: seq<World>, i: nat)
    requires i < |worlds|
    ensures
      var outcomes := Run(cfg, Start(cfg), t, worlds).outcomes;
      var latest := Latest(outcomes[..i]);
      var env := worlds[i].env;
      var subnet := FirstOf([cfg.net.dockerSubnet, env.routeSubnet, env.addrSubnet]);
      && (outcomes[i].Waiting? <==> !(env.hasIp && env.bridgeUp && subnet.Some?))
      && (!outcomes[i].Waiting? ==>
            var now := Attempt(subnet.value, FirstOf([cfg.net.uplink, env.detectedUplink]));
            outcomes[i] ==
            if || !RulePresent(TablesSeen(cfg, t, worlds, i).rules, cfg.net.returnPriority, ReturnNeedle(now.subnet))
               || latest.None?
               || StateText(cfg.net, now) != StateText(cfg.net, latest.value)
               || ActiveSince(outcomes[..i]) * cfg.watchInterval >= cfg.repairInterval
            then Attempted(now) else Quiet)
  {
    var before := Run(cfg, Start(cfg), t, worlds[..i]);
    RunPrefix(cfg, Start(cfg), t, worlds, i);
    RunPrefix(cfg, Start(cfg), t, worlds, i + 1);
    assert worlds[..i + 1][..i] == worlds[..i];
    var outcomes := Run(cfg, Start(cfg), t, worlds).outcomes;
    assert outcomes[i] == outcomes[..i + 1][i] == OutcomeOf(cfg, worlds[i], before.state, before.tables);
    StateFromHistory(cfg, t, worlds[..i]);
    ObservedFirst(cfg.net, worlds[i].env);
  }

  /**
   What an attempt leaves, with or without an uplink: the reconciler prefers the route's subnet to the
   one that it is given.
   */
  lemma AttemptOutcome(cfg: WatchConfig, world: World, w: WatchState, t: Tables)
    requires OutcomeOf(cfg, world, w, t).Attempted?
    requires cfg.net.iptables.Some? || world.env.hasIptables
    ensures
      var net, env := cfg.net, world.env;
      var before, after := TablesBefore(world, t), NextTables(cfg, world, w, t);
      var subnet := FirstOf([env.routeSubnet, net.dockerSubnet, env.addrSubnet]);
      var uplink := FirstOf([net.uplink, env.detectedUplink]);
      && subnet.Some?
      && (net.policyRules == "1" && (uplink.None? || net.returnPriority != net.sourcePriority) ==>
            RuleSettled(after.rules, net.returnPriority, ReturnNeedle(subnet.value)))
      && (uplink.None? ==> after.forward == before.forward && after.postrouting == before.postrouting)
      && (uplink.Some? && net.returnPriority != net.sourcePriority ==>
            Settled(net, after, subnet.value, uplink.value))
  {
    var env := world.env;
    var now := Observed(cfg.net, env);
    var repair := RepairConfig(cfg.net, now);
    ObservedFirst(cfg.net, env);
    SourcesInOrder(env.routeSubnet, cfg.net.dockerSubnet, env.addrSubnet);
    SourcesInOrder(cfg.net.dockerSubnet, env.routeSubnet, env.addrSubnet);
    SourcesInOrder(env.routeSubnet, repair.dockerSubnet, env.addrSubnet);
    SourcesInOrder(cfg.net.uplink, env.detectedUplink, None);
    SourcesInOrder(repair.uplink, env.detectedUplink, None);
    ReconcileOutcome(repair, env, TablesBefore(world, t));
  }

  // ---- Spacing of the attempts ----

  function CeilDiv(a: nat, w: nat): nat
    requires w > 0
  {
    (a + w - 1) / w
  }

  lemma CeilDivBounds(a: nat, w: nat)
    requires w > 0
    ensures CeilDiv(a, w) * w >= a
    ensures a > 0 ==> CeilDiv(a, w) >= 1 && (CeilDiv(a, w) - 1) * w < a
    ensures a == 0 ==> CeilDiv(a, w) == 0
  {
    var n := a + w - 1;
    assert n == w * (n / w) + n % w;
    Distribute(CeilDiv(a, w) - 1, w);
    if a == 0 {
      assert n / w == 0;
    }
  }

  lemma MultipleOrder(j: int, k: int, w: int)
    requires w > 0 && j <= k
    ensures j * w <= k * w
  {
    assert (k - j) * w >= 0;
  }

  lemma CeilDivLeast(a: nat, w: nat, k: int)
    requires w > 0
    ensures k * w >= a <==> k >= CeilDiv(a, w)
  {
    CeilDivBounds(a, w);
    if k >= CeilDiv(a, w) {
      MultipleOrder(CeilDiv(a, w), k, w);
    } else if a > 0 {
      MultipleOrder(k, CeilDiv(a, w) - 1, w);
    } else {
      MultipleOrder(k, -1, w);
    }
  }

  lemma CeilDivDrops(a: nat, w: nat, part: nat)
    requires 0 < w <= part < a
    ensures CeilDiv(a - part, w) < CeilDiv(a, w)
  {
    CeilDivBounds(a, w);
    Distribute(CeilDiv(a, w) - 1, w);
    CeilDivLeast(a - part, w, CeilDiv(a, w) - 1);
  }

  /** The repair interval in active iterations. */
  function Gap(cfg: WatchConfig): nat
    requires cfg.watchInterval > 0
  {
    if cfg.repairInterval == 0 then 1 else CeilDiv(cfg.repairInterval, cfg.watchInterval)
  }

  lemma GapPositive(cfg: WatchConfig)
    requires cfg.watchInterval > 0
    ensures Gap(cfg) >= 1
  {
    CeilDivBounds(cfg.repairInterval, cfg.watchInterval);
  }

  lemma WithinGap(cfg: WatchConfig, k: nat)
    requires cfg.watchInterval > 0
    ensures k * cfg.watchInterval >= cfg.repairInterval && k >= 1 <==> k >= Gap(cfg)
  {
    GapPositive(cfg);
    CeilDivLeast(cfg.repairInterval, cfg.watchInterval, k);
  }

  lemma CountActiveSnoc(outcomes: seq<Outcome>, i: nat, j: nat)
    requires i <= j < |outcomes|
    ensures CountActive(outcomes[i..j + 1]) == CountActive(outcomes[i..j]) + if outcomes[j].Waiting? then 0 else 1
    ensures CountActive(outcomes[i..i]) == 0
  {
    assert outcomes[i..j + 1][..j - i] == outcomes[i..j];
  }

  predicate NoAttemptBetween(outcomes: seq<Outcome>, i: nat, j: nat) {
    forall m :: i < m < j && m < |outcomes| ==> !outcomes[m].Attempted?
  }

  lemma {:induction false} ActiveSinceAttempt(outcomes: seq<Outcome>, i: nat, j: nat)
    requires i < j <= |outcomes| && outcomes[i].Attempted? && NoAttemptBetween(outcomes, i, j)
    ensures Latest(outcomes[..j]) == Some(outcomes[i].attempt)
    ensures ActiveSince(outcomes[..j]) == CountActive(outcomes[i..j]) >= 1
  {
    var n := j - 1;
    assert outcomes[..j][..n] == outcomes[..n];
    CountActiveSnoc(outcomes, i, n);
    if i < n {
      ActiveSinceAttempt(outcomes, i, n);
    }
  }

  lemma QuietMeansEarly(cfg: WatchConfig, t: Tables, worlds: seq<World>, n: nat)
    requires n < |worlds| && Run(cfg, Start(cfg), t, worlds).outcomes[n].Quiet?
    ensures ActiveSince(Run(cfg, Start(cfg), t, worlds).outcomes[..n]) * cfg.watchInterval < cfg.repairInterval
  {
    AttemptsOfARun(cfg, t, worlds, n);
  }

  /** A quiet iteration comes less than `Gap` active iterations after the latest attempt. */
  lemma QuietIsEarly(cfg: WatchConfig, t: Tables, worlds: seq<World>, i: nat, n: nat)
    requires cfg.watchInterval > 0 && i < n < |worlds|
    requires var outcomes := Run(cfg, Start(cfg), t, worlds).outcomes;
             outcomes[i].Attempted? && outcomes[n].Quiet? && NoAttemptBetween(outcomes, i, n)
    ensures CountActive(Run(cfg, Start(cfg), t, worlds).outcomes[i..n]) < Gap(cfg)
  {
    var outcomes := Run(cfg, Start(cfg), t, worlds).outcomes;
    QuietMeansEarly(cfg, t, worlds, n);
    ActiveSinceAttempt(outcomes, i, n);
    WithinGap(cfg, ActiveSince(outcomes[..n]));
  }

  /** However the environment behaves, no more than `Gap` active iterations pass without a new attempt. */
  lemma {:induction false} AttemptsNeverLate(cfg: WatchConfig, t: Tables, worlds: seq<World>, i: nat, j: nat)
    requires cfg.watchInterval > 0 && i < j <= |worlds|
    requires var outcomes := Run(cfg, Start(cfg), t, worlds).outcomes;
             outcomes[i].Attempted? && NoAttemptBetween(outcomes, i, j)
    ensures CountActive(Run(cfg, Start(cfg), t, worlds).outcomes[i..j]) <= Gap(cfg)
  {
    var outcomes := Run(cfg, Start(cfg), t, worlds).outcomes;
    var n := j - 1;
    CountActiveSnoc(outcomes, i, n);
    GapPositive(cfg);
    if i < n {
      AttemptsNeverLate(cfg, t, worlds, i, n);
      if outcomes[n].Quiet? {
        QuietIsEarly(cfg, t, worlds, i, n);
      }
    }
  }

  /**
   Two consecutive attempts are exactly `Gap` active iterations apart if the second finds the return
   rule in place and the observation of the first unchanged; waiting iterations do not count.
   */
  lemma AttemptSpacing(cfg: WatchConfig, t: Tables, worlds: seq<World>, i: nat, j: nat)
    requires cfg.watchInterval > 0 && i < j < |worlds|
    requires var outcomes := Run(cfg, Start(cfg), t, worlds).outcomes;
             && outcomes[i].Attempted? && outcomes[j].Attempted? && NoAttemptBetween(outcomes, i, j)
             && StateText(cfg.net, outcomes[j].attempt) == StateText(cfg.net, outcomes[i].attempt)
             && RulePresent(TablesSeen(cfg, t, worlds, j).rules, cfg.net.returnPriority,
                            ReturnNeedle(outcomes[j].attempt.subnet))
    ensures CountActive(Run(cfg, Start(cfg), t, worlds).outcomes[i..j]) == Gap(cfg)
  {
    var outcomes := Run(cfg, Start(cfg), t, worlds).outcomes;
    AttemptsNeverLate(cfg, t, worlds, i, j);
    AttemptsOfARun(cfg, t, worlds, j);
    ActiveSinceAttempt(outcomes, i, j);
    WithinGap(cfg, ActiveSince(outcomes[..j]));
  }

  // ---- Self-stabilisation ----

  /** The environment a repair succeeds in. */
  predicate Stable(cfg: WatchConfig, env: Env) {
    && cfg.watchInterval > 0
    && Active(cfg.net, env)
    && ResolveUplink(cfg.net, env).Some?
    && (cfg.net.iptables.Some? || env.hasIptables)
    && cfg.net.policyRules == "1" && cfg.net.returnPriority != cfg.net.sourcePriority
  }

  /** The subnet the reconciler itself settles on. */
  function RepairSubnet(cfg: WatchConfig, env: Env): Token
    requires Stable(cfg, env)
  {
    if env.routeSubnet.Some? then env.routeSubnet.value else WatchSubnet(cfg.net, env).value
  }

  /** The tables after one repair. */
  function Repaired(cfg: WatchConfig, env: Env, t: Tables): Tables
    requires Stable(cfg, env)
  {
    Wanted(cfg.net, t, RepairSubnet(cfg, env), ResolveUplink(cfg.net, env))
  }

  lemma RepairIsWanted(cfg: WatchConfig, env: Env, t: Tables)
    requires Stable(cfg, env)
    ensures Reconciled(RepairConfig(cfg.net, Observed(cfg.net, env)), env, t) == Repaired(cfg, env, t)
    ensures Repaired(cfg, env, Repaired(cfg, env, t)) == Repaired(cfg, env, t)
    ensures Settled(cfg.net, Repaired(cfg, env, t), RepairSubnet(cfg, env), ResolveUplink(cfg.net, env).value)
  {
    ReconcileIdempotent(cfg.net, t, RepairSubnet(cfg, env), ResolveUplink(cfg.net, env));
    ReconcileFixpoint(cfg.net, t, RepairSubnet(cfg, env), ResolveUplink(cfg.net, env).value);
  }

  /** `n` iterations in which the environment shows the same host and leaves the tables alone. */
  function Steady(env: Env, n: nat): seq<World> {
    seq(n, _ => World(env, None))
  }

  /** The number of quiet iterations before the first repair. */
  function FirstRepair(cfg: WatchConfig, env: Env, w: WatchState, t: Tables): nat
    requires Stable(cfg, env)
  {
    if Due(cfg, env, w, t) then 0 else CeilDiv(cfg.repairInterval - w.cycles, cfg.watchInterval)
  }

  /** One undisturbed iteration: a repair if one is due, else nothing but the counter moves. */
  lemma SteadyStep(cfg: WatchConfig, env: Env, w: WatchState, t: Tables)
    requires Stable(cfg, env)
    ensures NextTables(cfg, World(env, None), w, t) == if Due(cfg, env, w, t) then Repaired(cfg, env, t) else t
    ensures !Due(cfg, env, w, t) ==>
              var next := NextState(cfg, World(env, None), w, t);
              next.lastState == w.lastState && next.cycles == SaturatingAdd(w.cycles, cfg.watchInterval)
  {
    RepairIsWanted(cfg, env, t);
  }

  lemma RunSteady(cfg: WatchConfig, env: Env, w: WatchState, t: Tables, n: nat)
    requires n > 0
    ensures
      var before := Run(cfg, w, t, Steady(env, n - 1));
      var after := Run(cfg, w, t, Steady(env, n));
      && after.tables == NextTables(cfg, World(env, None), before.state, before.tables)
      && after.state == NextState(cfg, World(env, None), before.state, before.tables)
  {
    assert Steady(env, n)[..n - 1] == Steady(env, n - 1);
  }

  /** The counter after `n` quiet iterations. */
  function Counter(cycles: U64, n: nat, interval: U64): U64 {
    if n == 0 then cycles else SaturatingAdd(Counter(cycles, n - 1, interval), interval)
  }

  lemma {:induction false} CounterValue(cycles: U64, n: nat, interval: U64)
    ensures var sum := cycles + n * interval;
            Counter(cycles, n, interval) == if sum <= U64_MAX then sum else U64_MAX
  {
    if n > 0 {
      CounterValue(cycles, n - 1, interval);
      Distribute(n - 1, interval);
    }
  }

  /** The counter reaches the repair interval after exactly `CeilDiv` quiet iterations. */
  lemma CounterReaches(cycles: U64, n: nat, interval: U64, repair: U64)
    requires interval > 0 && cycles < repair
    ensures Counter(cycles, n, interval) >= repair <==> n >= CeilDiv(repair - cycles, interval)
  {
    CounterValue(cycles, n, interval);
    CeilDivLeast(repair - cycles, interval, n);
  }

  /** One more quiet iteration, as long as the first repair is not reached. */
  lemma QuietStep(cfg: WatchConfig, env: Env, w: WatchState, t: Tables, n: nat, now: WatchState)
    requires Stable(cfg, env) && n < FirstRepair(cfg, env, w, t)
    requires now.lastState == w.lastState && now.cycles == Counter(w.cycles, n, cfg.watchInterval)
    ensures !Due(cfg, env, now, t)
  {
    CounterReaches(w.cycles, n, cfg.watchInterval, cfg.repairInterval);
  }

  lemma {:induction false} QuietPhase(cfg: WatchConfig, env: Env, w: WatchState, t: Tables, n: nat)
    requires Stable(cfg, env) && n <= FirstRepair(cfg, env, w, t)
    ensures
      var r := Run(cfg, w, t, Steady(env, n));
      && r.tables == t && r.state.lastState == w.lastState
      && r.state.cycles == Counter(w.cycles, n, cfg.watchInterval)
  {
    if n > 0 {
      var before := Run(cfg, w, t, Steady(env, n - 1));
      QuietPhase(cfg, env, w, t, n - 1);
      QuietStep(cfg, env, w, t, n - 1, before.state);
      SteadyStep(cfg, env, before.state, t);
      RunSteady(cfg, env, w, t, n);
    }
  }

  lemma {:induction false} RepairedForever(cfg: WatchConfig, env: Env, w: WatchState, t: Tables, n: nat)
    requires Stable(cfg, env) && Repaired(cfg, env, t) == t
    ensures Run(cfg, w, t, Steady(env, n)).tables == t
  {
    hide Wanted, Due;
    if n > 0 {
      RunSteady(cfg, env, w, t, n);
      RepairedForever(cfg, env, w, t, n - 1);
      SteadyStep(cfg, env, Run(cfg, w, t, Steady(env, n - 1)).state, t);
    }
  }

  lemma DueAtFirst(cfg: WatchConfig, env: Env, w: WatchState, t: Tables, now: WatchState)
    requires Stable(cfg, env) && now.lastState == w.lastState
    requires now.cycles == Counter(w.cycles, FirstRepair(cfg, env, w, t), cfg.watchInterval)
    ensures Due(cfg, env, now, t)
  {
    if !Due(cfg, env, w, t) {
      CounterReaches(w.cycles, FirstRepair(cfg, env, w, t), cfg.watchInterval, cfg.repairInterval);
    }
  }

  /** The iteration after the quiet ones repairs. */
  lemma RepairAtFirst(cfg: WatchConfig, env: Env, w: WatchState, t: Tables)
    requires Stable(cfg, env)
    ensures Run(cfg, w, t, Steady(env, FirstRepair(cfg, env, w, t) + 1)).tables == Repaired(cfg, env, t)
  {
    var first := FirstRepair(cfg, env, w, t);
    var now := Run(cfg, w, t, Steady(env, first)).state;
    QuietPhase(cfg, env, w, t, first);
    DueAtFirst(cfg, env, w, t, now);
    SteadyStep(cfg, env, now, t);
    RunSteady(cfg, env, w, t, first + 1);
  }

  lemma SteadySplit(cfg: WatchConfig, env: Env, w: WatchState, t: Tables, a: nat, b: nat)
    ensures var r := Run(cfg, w, t, Steady(env, a));
            Run(cfg, w, t, Steady(env, a + b)).tables == Run(cfg, r.state, r.tables, Steady(env, b)).tables
  {
    assert Steady(env, a + b) == Steady(env, a) + Steady(env, b);
    RunThen(cfg, w, t, Steady(env, a), Steady(env, b));
  }

  lemma RepairedTwice(cfg: WatchConfig, env: Env, t: Tables)
    requires Stable(cfg, env)
    ensures Repaired(cfg, env, Repaired(cfg, env, t)) == Repaired(cfg, env, t)
  {
    RepairIsWanted(cfg, env, t);
  }

  lemma RepairedFrom(cfg: WatchConfig, env: Env, w: WatchState, t: Tables, repaired: Tables, n: nat, k: nat)
    requires Stable(cfg, env)
    requires Run(cfg, w, t, Steady(env, n)).tables == repaired == Repaired(cfg, env, repaired)
    ensures Run(cfg, w, t, Steady(env, n + k)).tables == repaired
  {
    RepairedForever(cfg, env, Run(cfg, w, t, Steady(env, n)).state, repaired, k);
    SteadySplit(cfg, env, w, t, n, k);
  }

  lemma ExactSteady(cfg: WatchConfig, env: Env, w: WatchState, t: Tables, n: nat)
    requires Stable(cfg, env)
    ensures Run(cfg, w, t, Steady(env, n)).tables ==
            if n <= FirstRepair(cfg, env, w, t) then t else Repaired(cfg, env, t)
  {
    hide Run, Repaired, FirstRepair, Stable;
    var first := FirstRepair(cfg, env, w, t);
    if n <= first {
      QuietPhase(cfg, env, w, t, n);
    } else {
      RepairAtFirst(cfg, env, w, t);
      RepairedTwice(cfg, env, t);
      RepairedFrom(cfg, env, w, t, Repaired(cfg, env, t), first + 1, n - first - 1);
      assert first + 1 + (n - first - 1) == n;
    }
  }

  /**
   Worlds in which nobody rewrites the tables and the watchdog, whenever it does not have to wait, sees
   the same host; there may be any waiting in between.
   */
  ghost predicate Undisturbed(cfg: WatchConfig, env: Env, worlds: seq<World>) {
    forall world :: world in worlds ==>
      world.rewrite.None? && (world.env == env || !Active(cfg.net, world.env))
  }

  function ActiveWorlds(cfg: WatchConfig, worlds: seq<World>): nat {
    if worlds == [] then 0
    else
      var n := |worlds| - 1;
      ActiveWorlds(cfg, worlds[..n]) + if Active(cfg.net, worlds[n].env) then 1 else 0
  }

  /** Alike as far as the next decision goes. */
  predicate Alike(a: Trace, b: Trace) {
    a.tables == b.tables && a.state.lastState == b.state.lastState && a.state.cycles == b.state.cycles
  }

  /** Waiting changes neither the tables nor what the watchdog remembers of them. */
  lemma {:induction false} WaitingDoesNotCount(cfg: WatchConfig, env: Env, w: WatchState, t: Tables, worlds: seq<World>)
    requires Stable(cfg, env) && Undisturbed(cfg, env, worlds)
    ensures Alike(Run(cfg, w, t, worlds), Run(cfg, w, t, Steady(env, ActiveWorlds(cfg, worlds))))
  {
    if worlds == [] {
      assert Steady(env, 0) == [];
    } else {
      var n := |worlds| - 1;
      WaitingDoesNotCount(cfg, env, w, t, worlds[..n]);
      var before := Run(cfg, w, t, worlds[..n]);
      var steady := Run(cfg, w, t, Steady(env, ActiveWorlds(cfg, worlds[..n])));
      assert worlds[n] in worlds;
      if Active(cfg.net, worlds[n].env) {
        assert worlds[n] == World(env, None);
        RunSteady(cfg, env, w, t, ActiveWorlds(cfg, worlds));
        SameDecision(cfg, env, before, steady);
      }
    }
  }

  lemma SameDecision(cfg: WatchConfig, env: Env, a: Trace, b: Trace)
    requires Active(cfg.net, env) && Alike(a, b)
    ensures var world := World(env, None);
            && NextTables(cfg, world, a.state, a.tables) == NextTables(cfg, world, b.state, b.tables)
            && NextState(cfg, world, a.state, a.tables).lastState == NextState(cfg, world, b.state, b.tables).lastState
            && NextState(cfg, world, a.state, a.tables).cycles == NextState(cfg, world, b.state, b.tables).cycles
  {
    hide Reconciled, StateText;
  }

  /** From any tables and any watchdog state: unchanged up to the first repair, repaired ever after. */
  lemma ExactStabilisation(cfg: WatchConfig, env: Env, w: WatchState, t: Tables, calm: seq<World>)
    requires Stable(cfg, env) && Undisturbed(cfg, env, calm)
    ensures Run(cfg, w, t, calm).tables ==
            if ActiveWorlds(cfg, calm) <= FirstRepair(cfg, env, w, t) then t else Repaired(cfg, env, t)
  {
    hide Run, Repaired, FirstRepair, Stable, Undisturbed;
    WaitingDoesNotCount(cfg, env, w, t, calm);
    ExactSteady(cfg, env, w, t, ActiveWorlds(cfg, calm));
  }

  /** The counter at a loop head is never below the smaller of the two intervals. */
  predicate LoopHead(cfg: WatchConfig, w: WatchState) {
    w.cycles >= cfg.repairInterval || w.cycles >= cfg.watchInterval
  }

  lemma {:induction false} LoopHeadHolds(cfg: WatchConfig, t: Tables, worlds: seq<World>)
    ensures LoopHead(cfg, Run(cfg, Start(cfg), t, worlds).state)
  {
    if worlds != [] {
      LoopHeadHolds(cfg, t, worlds[..|worlds| - 1]);
    }
  }

  /**
   Self-stabilisation: from any tables and any state the loop can be in, after `Gap` undisturbed
   active iterations the tables are the repaired ones, have the wanted shape, and never change again.
   */
  lemma SelfStabilisation(cfg: WatchConfig, env: Env, w: WatchState, t: Tables, calm: seq<World>)
    requires Stable(cfg, env) && LoopHead(cfg, w)
    requires Undisturbed(cfg, env, calm) && ActiveWorlds(cfg, calm) >= Gap(cfg)
    ensures Run(cfg, w, t, calm).tables == Repaired(cfg, env, t)
    ensures Settled(cfg.net, Repaired(cfg, env, t), RepairSubnet(cfg, env), ResolveUplink(cfg.net, env).value)
  {
    hide Run, Repaired, FirstRepair, Settled;
    ExactStabilisation(cfg, env, w, t, calm);
    RepairIsWanted(cfg, env, t);
    RepairWithinGap(cfg, env, w, t);
  }

  lemma RepairWithinGap(cfg: WatchConfig, env: Env, w: WatchState, t: Tables)
    requires Stable(cfg, env) && LoopHead(cfg, w)
    ensures FirstRepair(cfg, env, w, t) < Gap(cfg)
  {
    GapPositive(cfg);
    if !Due(cfg, env, w, t) {
      CeilDivDrops(cfg.repairInterval, cfg.watchInterval, w.cycles);
    }
  }

  /**
   The bound needs a state of the loop: with a zero counter, which no loop head has unless the watch
   interval is zero, an unrepaired table survives `Gap` iterations and is repaired in the next one.
   */
  lemma ZeroCounterIsLate(cfg: WatchConfig, env: Env, w: WatchState, t: Tables)
    requires Stable(cfg, env) && cfg.repairInterval > 0 && w.cycles == 0 && !Due(cfg, env, w, t)
    ensures !LoopHead(cfg, w)
    ensures Run(cfg, w, t, Steady(env, Gap(cfg))).tables == t
    ensures Run(cfg, w, t, Steady(env, Gap(cfg) + 1)).tables == Repaired(cfg, env, t)
  {
    ExactSteady(cfg, env, w, t, Gap(cfg));
    ExactSteady(cfg, env, w, t, Gap(cfg) + 1);
  }

  lemma {:induction false} RunThen(cfg: WatchConfig, w: WatchState, t: Tables, first: seq<World>, rest: seq<World>)
    ensures var r := Run(cfg, w, t, first);
            && Run(cfg, w, t, first + rest).tables == Run(cfg, r.state, r.tables, rest).tables
            && Run(cfg, w, t, first + rest).state == Run(cfg, r.state, r.tables, rest).state
  {
    if rest == [] {
      assert first + rest == first;
    } else {
      var n := |rest| - 1;
      assert (first + rest)[..|first| + n] == first + rest[..n];
      RunThen(cfg, w, t, first, rest[..n]);
    }
  }

  /** The same for the program as it runs: whatever happened before, `Gap` undisturbed iterations settle the tables. */
  lemma WatchdogSelfStabilises(cfg: WatchConfig, t: Tables, past: seq<World>, env: Env, calm: seq<World>)
    requires Stable(cfg, env) && Undisturbed(cfg, env, calm) && ActiveWorlds(cfg, calm) >= Gap(cfg)
    ensures
      var disturbed := Run(cfg, Start(cfg), t, past).tables;
      var settled := Run(cfg, Start(cfg), t, past + calm).tables;
      && settled == Repaired(cfg, env, disturbed)
      && Settled(cfg.net, settled, RepairSubnet(cfg, env), ResolveUplink(cfg.net, env).value)
  {
    hide Run, Repaired, Settled, Undisturbed;
    var r := Run(cfg, Start(cfg), t, past);
    RunThen(cfg, Start(cfg), t, past, calm);
    LoopHeadHolds(cfg, t, past);
    SelfStabilisation(cfg, env, r.state, r.tables, calm);
  }

  // ---- The two orders of looking for the subnet ----

  /** The configured subnet is not the route's: the watchdog looks for the one, a repair installs the other. */
  predicate SubnetsDisagree(net: NetConfig, env: Env) {
    net.dockerSubnet.Some? && env.routeSubnet.Some? && net.dockerSubnet != env.routeSubnet
  }

  lemma DisagreeIff(cfg: WatchConfig, env: Env)
    requires Stable(cfg, env)
    ensures RepairSubnet(cfg, env) != Observed(cfg.net, env).subnet <==> SubnetsDisagree(cfg.net, env)
    ensures SubnetsDisagree(cfg.net, env) ==>
              && RepairSubnet(cfg, env) == env.routeSubnet.value
              && Observed(cfg.net, env).subnet == cfg.net.dockerSubnet.value
  {
  }

  /** A single rule at the return priority that carries the selectors of both subnets. */
  predicate CarriesBoth(net: NetConfig, env: Env, t: Tables)
    requires SubnetsDisagree(net, env)
  {
    && RuleSettled(t.rules, net.returnPriority, ReturnNeedle(env.routeSubnet.value))
    && RuleSettled(t.rules, net.returnPriority, ReturnNeedle(net.dockerSubnet.value))
  }

  /**
   The watchdog recognises the return rule of its own repair exactly when the configured subnet and the
   route's agree, or a rule that carries both selectors was left as it was.
   */
  lemma ReturnRuleSeenIffSubnetsAgree(cfg: WatchConfig, env: Env, t: Tables)
    requires Stable(cfg, env)
    ensures var rules, seen := Repaired(cfg, env, t).rules, ReturnNeedle(Observed(cfg.net, env).subnet);
            RulePresent(rules, cfg.net.returnPriority, seen) <==> Recognised(cfg.net, env, t)
  {
    var ret, seen := cfg.net.returnPriority, Observed(cfg.net, env).subnet;
    var used, uplink := RepairSubnet(cfg, env), ResolveUplink(cfg.net, env).value;
    var after := Repaired(cfg, env, t).rules;
    DisagreeIff(cfg, env);
    PolicyRulesAfterReconcile(cfg.net, t, used, uplink);
    ReturnRuleCarries(ret, used, seen);
    OnlyRuleDecides(after, ret, ReturnNeedle(seen));
    if RuleSettled(t.rules, ret, ReturnNeedle(used)) {
      OnlyRuleDecides(t.rules, ret, ReturnNeedle(seen));
    }
  }

  /** After a repair the next one is due because the rule is not seen, or because the counter has come round. */
  predicate Seen(cfg: WatchConfig, env: Env, t: Tables)
    requires Stable(cfg, env)
  {
    RulePresent(Repaired(cfg, env, t).rules, cfg.net.returnPriority, ReturnNeedle(Observed(cfg.net, env).subnet))
  }

  /** The loop `k` quiet iterations after the one that repaired. */
  predicate SinceRepair(cfg: WatchConfig, env: Env, t: Tables, k: nat, now: Trace)
    requires Stable(cfg, env)
  {
    && now.tables == Repaired(cfg, env, t)
    && now.state.lastState == StateText(cfg.net, Observed(cfg.net, env))
    && now.state.cycles == Counter(cfg.watchInterval, k, cfg.watchInterval)
  }

  lemma DueSinceRepair(cfg: WatchConfig, env: Env, t: Tables, k: nat, now: Trace)
    requires Stable(cfg, env) && SinceRepair(cfg, env, t, k, now)
    ensures Due(cfg, env, now.state, now.tables) <==> !Seen(cfg, env, t) || k + 1 >= Gap(cfg)
  {
    hide RulePresent, Repaired, StateText;
    CounterValue(cfg.watchInterval, k, cfg.watchInterval);
    Distribute(k, cfg.watchInterval);
    WithinGap(cfg, k + 1);
  }

  /** The quiet iterations since the last repair, `q` iterations after the first. */
  function QuietSince(cfg: WatchConfig, seen: bool, q: nat): nat
    requires cfg.watchInterval > 0
  {
    GapPositive(cfg);
    if seen then q % Gap(cfg) else 0
  }

  lemma NextRemainder(q: nat, gap: nat)
    requires gap >= 1
    ensures (q + 1) % gap == if q % gap + 1 >= gap then 0 else q % gap + 1
  {
    var d, r := q / gap, q % gap;
    assert q == gap * d + r;
    if r + 1 < gap {
      SmallRemainder(d, r + 1, gap);
    } else {
      Distribute(d, gap);
      SmallRemainder(d + 1, 0, gap);
    }
  }

  lemma SmallRemainder(d: nat, r: nat, gap: nat)
    requires r < gap
    ensures (gap * d + r) % gap == r
  {
    var n := gap * d + r;
    if n / gap < d {
      MultipleOrder(n / gap + 1, d, gap);
    } else if n / gap > d {
      MultipleOrder(d + 1, n / gap, gap);
    }
  }

  lemma {:induction false} AfterFirst(cfg: WatchConfig, env: Env, w: WatchState, t: Tables, q: nat)
    requires Stable(cfg, env)
    ensures SinceRepair(cfg, env, t, QuietSince(cfg, Seen(cfg, env, t), q),
                        Run(cfg, w, t, Steady(env, FirstRepair(cfg, env, w, t) + 1 + q)))
  {
    hide Run, Repaired, FirstRepair, Seen, Due;
    var first, seen := FirstRepair(cfg, env, w, t), Seen(cfg, env, t);
    var before := Run(cfg, w, t, Steady(env, first + q));
    RunSteady(cfg, env, w, t, first + 1 + q);
    if q == 0 {
      QuietPhase(cfg, env, w, t, first);
      DueAtFirst(cfg, env, w, t, before.state);
      RepairStep(cfg, env, before.state, t, t);
      GapPositive(cfg);
      SmallRemainder(0, 0, Gap(cfg));
    } else {
      AfterFirst(cfg, env, w, t, q - 1);
      var k := QuietSince(cfg, seen, q - 1);
      DueSinceRepair(cfg, env, t, k, before);
      GapPositive(cfg);
      NextRemainder(q - 1, Gap(cfg));
      if Due(cfg, env, before.state, before.tables) {
        RepairedTwice(cfg, env, t);
        RepairStep(cfg, env, before.state, before.tables, t);
      } else {
        SteadyStep(cfg, env, before.state, before.tables);
      }
    }
  }

  lemma RepairStep(cfg: WatchConfig, env: Env, w: WatchState, now: Tables, t: Tables)
    requires Stable(cfg, env) && Due(cfg, env, w, now) && Repaired(cfg, env, now) == Repaired(cfg, env, t)
    ensures var world := World(env, None);
            SinceRepair(cfg, env, t, 0, Trace(NextState(cfg, world, w, now), NextTables(cfg, world, w, now), []))
  {
    hide Repaired;
    RepairIsWanted(cfg, env, now);
  }

  /** The watchdog will find the return rule of its own repair. */
  predicate Recognised(net: NetConfig, env: Env, t: Tables) {
    SubnetsDisagree(net, env) ==> CarriesBoth(net, env, t)
  }

  predicate IsScheduled(cfg: WatchConfig, first: nat, recognised: bool, i: nat)
    requires cfg.watchInterval > 0
  {
    GapPositive(cfg);
    i >= first && (recognised ==> (i - first) % Gap(cfg) == 0)
  }

  /**
   The whole schedule in an undisturbed world: quiet up to the first repair; from then on a repair every
   `Gap` iterations if the two subnets agree, and in every iteration if they do not.
   */
  lemma Schedule(cfg: WatchConfig, env: Env, w: WatchState, t: Tables, n: nat, i: nat)
    requires Stable(cfg, env) && i < n
    ensures
      var subnet := FirstOf([cfg.net.dockerSubnet, env.routeSubnet, env.addrSubnet]);
      && subnet.Some?
      && Run(cfg, w, t, Steady(env, n)).outcomes[i] ==
         if IsScheduled(cfg, FirstRepair(cfg, env, w, t), Recognised(cfg.net, env, t), i)
         then Attempted(Attempt(subnet.value, FirstOf([cfg.net.uplink, env.detectedUplink]))) else Quiet
  {
    hide Run, Repaired, FirstRepair, Due, Active, Observed, Recognised;
    var first := FirstRepair(cfg, env, w, t);
    var before := Run(cfg, w, t, Steady(env, i));
    ReturnRuleSeenIffSubnetsAgree(cfg, env, t);
    SteadyOutcome(cfg, env, w, t, n, i);
    ObservedFirst(cfg.net, env);
    GapPositive(cfg);
    if i < first {
      QuietPhase(cfg, env, w, t, i);
      QuietStep(cfg, env, w, t, i, before.state);
    } else if i == first {
      QuietPhase(cfg, env, w, t, i);
      DueAtFirst(cfg, env, w, t, before.state);
      SmallRemainder(0, 0, Gap(cfg));
    } else {
      var q := i - first - 1;
      AfterFirst(cfg, env, w, t, q);
      DueSinceRepair(cfg, env, t, QuietSince(cfg, Seen(cfg, env, t), q), before);
      NextRemainder(q, Gap(cfg));
    }
  }

  lemma LastOutcome(cfg: WatchConfig, env: Env, w: WatchState, t: Tables, i: nat)
    ensures var before := Run(cfg, w, t, Steady(env, i));
            Run(cfg, w, t, Steady(env, i + 1)).outcomes[i] ==
            OutcomeOf(cfg, World(env, None), before.state, before.tables)
  {
    hide OutcomeOf, NextState, NextTables;
    assert Steady(env, i + 1)[..i] == Steady(env, i);
  }

  lemma SteadyOutcome(cfg: WatchConfig, env: Env, w: WatchState, t: Tables, n: nat, i: nat)
    requires Stable(cfg, env) && i < n
    ensures
      var before := Run(cfg, w, t, Steady(env, i));
      Run(cfg, w, t, Steady(env, n)).outcomes[i] ==
      if Due(cfg, env, before.state, before.tables) then Attempted(Observed(cfg.net, env)) else Quiet
  {
    hide Due, Observed, Run;
    RunPrefix(cfg, w, t, Steady(env, n), i + 1);
    assert Steady(env, n)[..i + 1] == Steady(env, i + 1);
    LastOutcome(cfg, env, w, t, i);
    assert Run(cfg, w, t, Steady(env, n)).outcomes[..i + 1][i] == Run(cfg, w, t, Steady(env, n)).outcomes[i];
  }

  /** If they disagree, every active iteration from the first repair on repairs again, whatever the repair interval. */
  lemma DisagreeingSubnetsRepairAlways(
      cfg: WatchConfig, env: Env, w: WatchState, t: Tables, calm: seq<World>, i: nat)
    requires Stable(cfg, env) && !Recognised(cfg.net, env, t) && Undisturbed(cfg, env, calm)
    requires i < |calm| && Active(cfg.net, calm[i].env) && ActiveWorlds(cfg, calm[..i]) >= FirstRepair(cfg, env, w, t)
    ensures Run(cfg, w, t, calm).outcomes[i] ==
            Attempted(Attempt(cfg.net.dockerSubnet.value, FirstOf([cfg.net.uplink, env.detectedUplink])))
  {
    hide Repaired, CarriesBoth, ActiveWorlds;
    var before := Run(cfg, w, t, calm[..i]);
    assert calm[..i + 1][..i] == calm[..i];
    RunPrefix(cfg, w, t, calm, i + 1);
    assert Run(cfg, w, t, calm).outcomes[..i + 1][i] == Run(cfg, w, t, calm).outcomes[i];
    assert calm[i] in calm && calm[i] == World(env, None);
    assert Undisturbed(cfg, env, calm[..i]);
    DisagreeIff(cfg, env);
    ObservedFirst(cfg.net, env);
    if ActiveWorlds(cfg, calm[..i]) == FirstRepair(cfg, env, w, t) {
      WaitingDoesNotCount(cfg, env, w, t, calm[..i]);
      QuietPhase(cfg, env, w, t, FirstRepair(cfg, env, w, t));
      DueAtFirst(cfg, env, w, t, before.state);
    } else {
      ExactStabilisation(cfg, env, w, t, calm[..i]);
      ReturnRuleSeenIffSubnetsAgree(cfg, env, t);
    }
    assert Due(cfg, env, before.state, before.tables);
  }
}

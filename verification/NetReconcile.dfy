/**
 One run of the network reconciler: the policy rules, the FORWARD chain and the POSTROUTING chain
 are driven to a wanted shape through delete-until-fail loops, head insertion and appending.
 */
module NetReconcile {
  import opened Wrappers
  import opened Sequences
  import opened Text
  import opened KernelTables

  /** The reconciler's configuration; an empty string in the environment counts as absent. */
  datatype NetConfig = NetConfig(
    bridge: Token,
    dockerSubnet: Option<Token>,
    uplink: Option<Token>,
    iptables: Option<Token>,
    policyRules: string,
    returnPriority: nat,
    sourcePriority: nat)

  /** What the host looks like from outside the tables: commands, the bridge, routes, the uplink. */
  datatype Env = Env(
    hasIp: bool,
    bridgeUp: bool,
    hasIptables: bool,
    routeSubnet: Option<Token>,
    addrSubnet: Option<Token>,
    detectedUplink: Option<Token>)

  datatype NetError = NoIpCommand | NoBridge | NoIptables | NoSubnet

  // ---- The managed rules ----

  const INPUT: Token := "-i"
  const OUTPUT: Token := "-o"
  const JUMP: Token := "-j"
  const ACCEPT: Token := "ACCEPT"
  const MATCH: Token := "-m"
  const CONNTRACK: Token := "conntrack"
  const CTSTATE: Token := "--ctstate"
  const RELATED: Token := "RELATED,ESTABLISHED"
  const SOURCE: Token := "-s"
  const NOT: Token := "!"
  const MASQUERADE: Token := "MASQUERADE"

  function BridgeAccept(bridge: Token, out: Token): Rule {
    [INPUT, bridge, OUTPUT, out, JUMP, ACCEPT]
  }

  function ConntrackAccept(bridge: Token): Rule {
    [OUTPUT, bridge, MATCH, CONNTRACK, CTSTATE, RELATED, JUMP, ACCEPT]
  }

  function Masquerade(subnet: Token, bridge: Token): Rule {
    [SOURCE, subnet, NOT, OUTPUT, bridge, JUMP, MASQUERADE]
  }

  /** `r` is exactly `-i bridge -o X -j ACCEPT` for some X. */
  predicate IsBridgeAccept(bridge: Token, r: Rule) {
    |r| == 6 && r == BridgeAccept(bridge, r[3])
  }

  const FROM: Token := "from"
  const TO: Token := "to"
  const LOOKUP: Token := "lookup"
  const MAIN: Token := "main"

  function Phrase(a: Token, b: Token, c: Token, d: Token): string {
    a + " " + b + " " + c + " " + d
  }

  function ReturnNeedle(subnet: Token): string {
    Phrase(TO, subnet, LOOKUP, MAIN)
  }

  function ReturnBody(subnet: Token): string {
    "from all " + ReturnNeedle(subnet)
  }

  /** The text searched for and the text printed for the added rule are the same here. */
  function SourceNeedle(subnet: Token, uplink: Token): string {
    Phrase(FROM, subnet, LOOKUP, uplink)
  }

  // ---- Policy rules ----

  function HasPriorityAndText(priority: nat, needle: string): IpRule -> bool {
    (r: IpRule) => r.priority == priority && Contains(ShowIpRule(r), needle)
  }

  /** The rules at a priority are exactly one and it mentions the needle. */
  predicate RuleSettled(rules: seq<IpRule>, priority: nat, needle: string) {
    var here := Filter(rules, HasPriority(priority));
    |here| == 1 && Contains(ShowIpRule(here[0]), needle)
  }

  predicate RulePresent(rules: seq<IpRule>, priority: nat, needle: string) {
    exists r :: r in rules && HasPriorityAndText(priority, needle)(r)
  }

  function EnsuredRules(rules: seq<IpRule>, priority: nat, needle: string, body: string): seq<IpRule> {
    if RuleSettled(rules, priority, needle) then rules
    else InsertByPriority(Filter(rules, OtherPriority(priority)), IpRule(priority, body))
  }

  /** `count_ip_rules_at_priority`: a scan of the printed rules. */
  method CountIpRulesAtPriority(k: Kernel, priority: nat, needle: string) returns (count: nat, exact: nat)
    ensures count == |Filter(k.rules, HasPriority(priority))|
    ensures exact == |Filter(k.rules, HasPriorityAndText(priority, needle))|
  {
    var lines := k.IpRuleShow();
    count, exact := 0, 0;
    for i := 0 to |lines|
      invariant count == |Filter(k.rules[..i], HasPriority(priority))|
      invariant exact == |Filter(k.rules[..i], HasPriorityAndText(priority, needle))|
    {
      CountStep(k.rules, i, priority, needle);
      if LineHasPriority(lines[i], priority) {
        count := count + 1;
        if Contains(lines[i], needle) {
          exact := exact + 1;
        }
      }
    }
    assert k.rules[..|lines|] == k.rules;
  }

  predicate LineHasPriority(line: string, priority: nat) {
    FirstToken(line) == Some(PriorityToken(priority))
  }

  /** How one more rule changes both counts. */
  lemma CountStep(rules: seq<IpRule>, i: nat, priority: nat, needle: string)
    requires i < |rules|
    ensures
      var line := ShowIpRule(rules[i]);
      && |Filter(rules[..i + 1], HasPriority(priority))| ==
         |Filter(rules[..i], HasPriority(priority))| + (if LineHasPriority(line, priority) then 1 else 0)
      && |Filter(rules[..i + 1], HasPriorityAndText(priority, needle))| ==
         |Filter(rules[..i], HasPriorityAndText(priority, needle))| +
         (if LineHasPriority(line, priority) && Contains(line, needle) then 1 else 0)
  {
    ShownPriority(rules[i], priority);
    FilterSnoc(rules, i, HasPriority(priority));
    FilterSnoc(rules, i, HasPriorityAndText(priority, needle));
  }

  /** The scan answers the reconciler's question: is there one rule here, and does it carry the needle? */
  lemma CountsDecide(rules: seq<IpRule>, priority: nat, needle: string)
    ensures
      var count := |Filter(rules, HasPriority(priority))|;
      var exact := |Filter(rules, HasPriorityAndText(priority, needle))|;
      && (count == 1 && exact == 1 <==> RuleSettled(rules, priority, needle))
      && (exact > 0 <==> RulePresent(rules, priority, needle))
  {
    var here := Filter(rules, HasPriority(priority));
    var carry := (r: IpRule) => Contains(ShowIpRule(r), needle);
    FilterTwice(rules, HasPriority(priority), carry, HasPriorityAndText(priority, needle));
    if |here| == 1 {
      assert Filter(here[1..], carry) == [];
      assert Filter(here, carry) == (if carry(here[0]) then [here[0]] else []) + Filter(here[1..], carry);
    }
    var exact := Filter(rules, HasPriorityAndText(priority, needle));
    if |exact| > 0 {
      assert exact[0] in rules;
    }
  }

  /** `delete_ip_rules_at_priority`: delete until the command fails. */
  method DeleteIpRulesAtPriority(k: Kernel, priority: nat)
    modifies k`rules
    ensures k.rules == Filter(old(k.rules), OtherPriority(priority))
  {
    var ok := true;
    while ok
      invariant Filter(k.rules, OtherPriority(priority)) == Filter(old(k.rules), OtherPriority(priority))
      invariant !ok ==> forall r :: r in k.rules ==> OtherPriority(priority)(r)
      decreases |k.rules|, ok
    {
      ghost var before := k.rules;
      ok := k.IpRuleDel(priority);
      FilterAfterRemoveFirst(before, HasPriority(priority), OtherPriority(priority));
      if !ok {
        NothingRemoved(before, HasPriority(priority));
        forall r | r in k.rules ensures OtherPriority(priority)(r) {
          assert !HasPriority(priority)(r);
        }
      }
    }
    FilterAll(k.rules, OtherPriority(priority));
  }

  /** `ensure_ip_rule` */
  method EnsureIpRule(k: Kernel, priority: nat, needle: string, body: string)
    modifies k`rules
    ensures k.rules == EnsuredRules(old(k.rules), priority, needle, body)
  {
    var count, exact := CountIpRulesAtPriority(k, priority, needle);
    CountsDecide(k.rules, priority, needle);
    if count == 1 && exact == 1 {
      return;
    }
    DeleteIpRulesAtPriority(k, priority);
    k.IpRuleAdd(priority, body);
  }

  /**
   What ensuring a rule means: one rule carrying the needle at its priority, every other rule as
   before, the list still ordered if it was, and nothing at all changed if the rule was settled.
   */
  lemma EnsuredRulesShape(rules: seq<IpRule>, priority: nat, needle: string, body: string)
    requires Contains(ShowIpRule(IpRule(priority, body)), needle)
    ensures
      var after := EnsuredRules(rules, priority, needle, body);
      && RuleSettled(after, priority, needle)
      && Filter(after, HasPriority(priority)) ==
         (if RuleSettled(rules, priority, needle) then Filter(rules, HasPriority(priority))
          else [IpRule(priority, body)])
      && Filter(after, OtherPriority(priority)) == Filter(rules, OtherPriority(priority))
      && (Sorted(rules) ==> Sorted(after))
      && (after == rules <==> RuleSettled(rules, priority, needle))
  {
    var others := Filter(rules, OtherPriority(priority));
    var added := IpRule(priority, body);
    FilterInsert(others, added, HasPriority(priority));
    FilterOthersInsert(others, added);
    FilterTwice(rules, OtherPriority(priority), OtherPriority(priority), OtherPriority(priority));
    if Sorted(rules) {
      FilterSorted(rules, OtherPriority(priority));
      InsertSorted(others, added);
    }
    assert Filter([added], HasPriority(priority)) == [added];
  }

  lemma {:induction false} FilterOthersInsert(rules: seq<IpRule>, r: IpRule)
    ensures Filter(InsertByPriority(rules, r), OtherPriority(r.priority)) == Filter(rules, OtherPriority(r.priority))
  {
    var q := OtherPriority(r.priority);
    if rules == [] || r.priority < rules[0].priority {
      assert ([r] + rules)[1..] == rules;
    } else {
      FilterOthersInsert(rules[1..], r);
    }
  }

  /** Ensuring a rule at one priority is invisible at any other priority. */
  lemma EnsuredRulesElsewhere(rules: seq<IpRule>, priority: nat, needle: string, body: string, other: nat)
    requires other != priority
    requires Contains(ShowIpRule(IpRule(priority, body)), needle)
    ensures Filter(EnsuredRules(rules, priority, needle, body), HasPriority(other)) ==
            Filter(rules, HasPriority(other))
  {
    var after := EnsuredRules(rules, priority, needle, body);
    EnsuredRulesShape(rules, priority, needle, body);
    FilterTwice(after, OtherPriority(priority), HasPriority(other), HasPriority(other));
    FilterTwice(rules, OtherPriority(priority), HasPriority(other), HasPriority(other));
  }

  // ---- The FORWARD chain ----

  /** What the token scan of one printed line remembers; the last mention of each flag wins. */
  datatype Scan = Scan(input: TokenOrEmpty, output: TokenOrEmpty, jump: TokenOrEmpty)
  type TokenOrEmpty = s: string | !HasSpace(s) witness ""

  function ScanFrom(tokens: seq<Token>, i: nat, seen: Scan): Scan
    decreases |tokens| - i
  {
    if i >= |tokens| then seen
    else if i + 1 == |tokens| then seen
    else if tokens[i] == INPUT then ScanFrom(tokens, i + 2, seen.(input := tokens[i + 1]))
    else if tokens[i] == OUTPUT then ScanFrom(tokens, i + 2, seen.(output := tokens[i + 1]))
    else if tokens[i] == JUMP then ScanFrom(tokens, i + 2, seen.(jump := tokens[i + 1]))
    else ScanFrom(tokens, i + 1, seen)
  }

  method ScanLine(tokens: seq<Token>) returns (seen: Scan)
    ensures seen == ScanFrom(tokens, 0, Scan("", "", ""))
  {
    var input: TokenOrEmpty, output: TokenOrEmpty, jump: TokenOrEmpty := "", "", "";
    var index := 0;
    while index < |tokens|
      invariant ScanFrom(tokens, 0, Scan("", "", "")) == ScanFrom(tokens, index, Scan(input, output, jump))
    {
      if tokens[index] == INPUT && index + 1 < |tokens| {
        input := tokens[index + 1];
        index := index + 1;
      } else if tokens[index] == OUTPUT && index + 1 < |tokens| {
        output := tokens[index + 1];
        index := index + 1;
      } else if tokens[index] == JUMP && index + 1 < |tokens| {
        jump := tokens[index + 1];
        index := index + 1;
      }
      index := index + 1;
    }
    seen := Scan(input, output, jump);
  }

  /** A rule of the exact form is read back as what it is, whatever its interfaces are called. */
  lemma ScanBridgeAccept(bridge: Token, out: Token)
    ensures ScanFrom([APPEND, FORWARD] + BridgeAccept(bridge, out), 0, Scan("", "", "")) ==
            Scan(bridge, out, ACCEPT)
  {
    var tokens := [APPEND, FORWARD] + BridgeAccept(bridge, out);
    var s0 := Scan("", "", "");
    var s1 := s0.(input := bridge);
    var s2 := s1.(output := out);
    assert ScanFrom(tokens, 0, s0) == ScanFrom(tokens, 1, s0) == ScanFrom(tokens, 2, s0);
    assert ScanFrom(tokens, 2, s0) == ScanFrom(tokens, 4, s1);
    assert ScanFrom(tokens, 4, s1) == ScanFrom(tokens, 6, s2);
    assert ScanFrom(tokens, 6, s2) == ScanFrom(tokens, 8, s2.(jump := ACCEPT));
  }

  function NotBridgeAccept(bridge: Token): Rule -> bool {
    r => !IsBridgeAccept(bridge, r)
  }

  /** Everything except the exact-form rules to one of the outputs collected so far. */
  function NotAcceptedTo(bridge: Token, outs: set<Token>): Rule -> bool {
    r => !(IsBridgeAccept(bridge, r) && r[3] in outs)
  }

  /** Delete one FORWARD specification until the command fails. */
  method DeleteForwardUntilFail(k: Kernel, spec: Rule)
    modifies k`forward
    ensures k.forward == Filter(old(k.forward), IsNot(spec))
  {
    var ok := true;
    while ok
      invariant Filter(k.forward, IsNot(spec)) == Filter(old(k.forward), IsNot(spec))
      invariant !ok ==> spec !in k.forward
      decreases |k.forward|, ok
    {
      ghost var before := k.forward;
      ok := k.DeleteForward(spec);
      FilterAfterRemoveFirst(before, Is(spec), IsNot(spec));
      if !ok {
        NothingRemoved(before, Is(spec));
      }
    }
    FilterAll(k.forward, IsNot(spec));
  }

  /** What `cleanup_bridge_forward_rules` does for one printed line. */
  method CleanupLine(k: Kernel, bridge: Token, line: string, ghost before: seq<Rule>, ghost outs: set<Token>)
    returns (ghost newOuts: set<Token>)
    requires k.forward == Filter(before, NotAcceptedTo(bridge, outs))
    modifies k`forward
    ensures k.forward == Filter(before, NotAcceptedTo(bridge, newOuts))
    ensures outs <= newOuts
    ensures forall out: Token :: LineScan(line) == Some(Scan(bridge, out, ACCEPT)) ==> out in newOuts
  {
    newOuts := outs;
    var tokens := SplitWhitespace(line);
    if |tokens| < 2 || tokens[0] != APPEND || tokens[1] != FORWARD {
      return;
    }
    var seen := ScanLine(tokens);
    if seen.input == bridge && seen.jump == ACCEPT && seen.output != "" {
      var out: Token := seen.output;
      DeleteForwardUntilFail(k, BridgeAccept(bridge, out));
      newOuts := outs + {out};
      FilterTwice(before, NotAcceptedTo(bridge, outs), IsNot(BridgeAccept(bridge, out)),
                  NotAcceptedTo(bridge, newOuts));
    }
  }

  /** What is scanned from a line of the snapshot, if it is an appended FORWARD rule. */
  function LineScan(line: string): Option<Scan> {
    var tokens := SplitWhitespace(line);
    if |tokens| < 2 || tokens[0] != APPEND || tokens[1] != FORWARD then None
    else Some(ScanFrom(tokens, 0, Scan("", "", "")))
  }

  lemma LineScanOfBridgeAccept(bridge: Token, r: Rule)
    requires IsBridgeAccept(bridge, r)
    ensures LineScan(ShowRule(r)) == Some(Scan(bridge, r[3], ACCEPT))
  {
    ShownRule(r);
    ScanBridgeAccept(bridge, r[3]);
  }

  /**
   `cleanup_bridge_forward_rules`: the scan may misread a line that carries further matches, but
   every deletion names an exact form, so exactly the exact-form rules go.
   */
  method CleanupBridgeForwardRules(k: Kernel, bridge: Token)
    modifies k`forward
    ensures k.forward == Filter(old(k.forward), NotBridgeAccept(bridge))
  {
    var lines := k.ListForward();
    ghost var before := k.forward;
    ghost var outs: set<Token> := {};
    NothingCollected(before, bridge);
    for i := 0 to |lines|
      invariant k.forward == Filter(before, NotAcceptedTo(bridge, outs))
      invariant Collected(before, i - 1, bridge, outs)
    {
      ghost var were := outs;
      outs := CleanupLine(k, bridge, lines[i], before, outs);
      if i > 0 {
        LineCollected(before, i - 1, bridge, lines[i], were, outs);
      }
    }
    AllCollected(before, bridge, outs);
  }

  /** The outputs of the exact-form rules among the first `n` are in `outs`. */
  ghost predicate Collected(forward: seq<Rule>, n: int, bridge: Token, outs: set<Token>) {
    forall j :: 0 <= j < n && j < |forward| && IsBridgeAccept(bridge, forward[j]) ==> forward[j][3] in outs
  }

  lemma NothingCollected(forward: seq<Rule>, bridge: Token)
    ensures Filter(forward, NotAcceptedTo(bridge, {})) == forward
  {
    FilterAll(forward, NotAcceptedTo(bridge, {}));
  }

  lemma LineCollected(forward: seq<Rule>, n: nat, bridge: Token, line: string, were: set<Token>, outs: set<Token>)
    requires n < |forward| && line == ShowRule(forward[n])
    requires Collected(forward, n, bridge, were) && were <= outs
    requires forall out: Token :: LineScan(line) == Some(Scan(bridge, out, ACCEPT)) ==> out in outs
    ensures Collected(forward, n + 1, bridge, outs)
  {
    if IsBridgeAccept(bridge, forward[n]) {
      LineScanOfBridgeAccept(bridge, forward[n]);
    }
  }

  lemma AllCollected(forward: seq<Rule>, bridge: Token, outs: set<Token>)
    requires Collected(forward, |forward|, bridge, outs)
    ensures Filter(forward, NotAcceptedTo(bridge, outs)) == Filter(forward, NotBridgeAccept(bridge))
  {
    FilterSame(forward, NotAcceptedTo(bridge, outs), NotBridgeAccept(bridge));
  }

  /** `ensure_rule` on the filter table: delete every copy, then insert at the head. */
  method EnsureForwardRule(k: Kernel, spec: Rule)
    modifies k`forward
    ensures k.forward == [spec] + Filter(old(k.forward), IsNot(spec))
  {
    DeleteForwardUntilFail(k, spec);
    k.InsertForward(spec);
  }

  /** `ensure_rule` on the nat table: delete every copy, then append. */
  method EnsurePostroutingRule(k: Kernel, spec: Rule)
    modifies k`postrouting
    ensures k.postrouting == Filter(old(k.postrouting), IsNot(spec)) + [spec]
  {
    var ok := true;
    while ok
      invariant Filter(k.postrouting, IsNot(spec)) == Filter(old(k.postrouting), IsNot(spec))
      invariant !ok ==> spec !in k.postrouting
      decreases |k.postrouting|, ok
    {
      ghost var before := k.postrouting;
      ok := k.DeletePostrouting(spec);
      FilterAfterRemoveFirst(before, Is(spec), IsNot(spec));
      if !ok {
        NothingRemoved(before, Is(spec));
      }
    }
    FilterAll(k.postrouting, IsNot(spec));
    k.AppendPostrouting(spec);
  }

  // ---- The closed form of one reconcile ----

  /** A FORWARD rule the reconciler does not manage for this bridge. */
  function Unmanaged(bridge: Token): Rule -> bool {
    r => r != ConntrackAccept(bridge) && !IsBridgeAccept(bridge, r)
  }

  function WantedForward(forward: seq<Rule>, bridge: Token, uplink: Token): seq<Rule> {
    [ConntrackAccept(bridge), BridgeAccept(bridge, uplink)] + Filter(forward, Unmanaged(bridge))
  }

  function WantedPostrouting(postrouting: seq<Rule>, bridge: Token, subnet: Token): seq<Rule> {
    Filter(postrouting, IsNot(Masquerade(subnet, bridge))) + [Masquerade(subnet, bridge)]
  }

  function WithReturnRule(cfg: NetConfig, rules: seq<IpRule>, subnet: Token): seq<IpRule> {
    if cfg.policyRules != "1" then rules
    else EnsuredRules(rules, cfg.returnPriority, ReturnNeedle(subnet), ReturnBody(subnet))
  }

  function WithSourceRule(cfg: NetConfig, rules: seq<IpRule>, subnet: Token, uplink: Token): seq<IpRule> {
    if cfg.policyRules != "1" then rules
    else EnsuredRules(rules, cfg.sourcePriority, SourceNeedle(subnet, uplink), SourceNeedle(subnet, uplink))
  }

  /** The tables after a successful reconcile; without an uplink only the return rule is repaired. */
  function Wanted(cfg: NetConfig, t: Tables, subnet: Token, uplink: Option<Token>): Tables {
    var rules := WithReturnRule(cfg, t.rules, subnet);
    match uplink
    case None => t.(rules := rules)
    case Some(u) =>
      Tables(WithSourceRule(cfg, rules, subnet, u),
             WantedForward(t.forward, cfg.bridge, u),
             WantedPostrouting(t.postrouting, cfg.bridge, subnet))
  }

  function ResolveUplink(cfg: NetConfig, env: Env): Option<Token> {
    if cfg.uplink.Some? then cfg.uplink else if env.hasIp then env.detectedUplink else None
  }

  /** `resolve_docker_subnet`: the route first, then the configuration, then the address. */
  function ReconcileSubnet(cfg: NetConfig, env: Env): Option<Token> {
    if env.routeSubnet.Some? then env.routeSubnet
    else if cfg.dockerSubnet.Some? then cfg.dockerSubnet
    else env.addrSubnet
  }

  function Failure(cfg: NetConfig, env: Env): Option<NetError> {
    if !env.hasIp then Some(NoIpCommand)
    else if !env.bridgeUp then Some(NoBridge)
    else if cfg.iptables.None? && !env.hasIptables then Some(NoIptables)
    else if ReconcileSubnet(cfg, env).None? then Some(NoSubnet)
    else None
  }

  /** The tables after one reconcile, successful or not. */
  function Reconciled(cfg: NetConfig, env: Env, t: Tables): Tables {
    if Failure(cfg, env).Some? then t
    else Wanted(cfg, t, ReconcileSubnet(cfg, env).value, ResolveUplink(cfg, env))
  }

  /** `net_reconcile` */
  method Reconcile(cfg: NetConfig, env: Env, k: Kernel) returns (r: Result<(), NetError>)
    modifies k`rules, k`forward, k`postrouting
    ensures k.Value() == Reconciled(cfg, env, old(k.Value()))
    ensures r == match Failure(cfg, env) case None => Ok(()) case Some(e) => Err(e)
  {
    if !env.hasIp {
      return Err(NoIpCommand);
    }
    if !env.bridgeUp {
      return Err(NoBridge);
    }
    if cfg.iptables.None? && !env.hasIptables {
      return Err(NoIptables);
    }
    var maybeSubnet := ReconcileSubnet(cfg, env);
    if maybeSubnet.None? {
      return Err(NoSubnet);
    }
    var subnet := maybeSubnet.value;
    r := Ok(());
    if cfg.policyRules == "1" {
      EnsureIpRule(k, cfg.returnPriority, ReturnNeedle(subnet), ReturnBody(subnet));
    }
    var maybeUplink := ResolveUplink(cfg, env);
    if maybeUplink.None? {
      return;
    }
    var uplink := maybeUplink.value;
    if cfg.policyRules == "1" {
      EnsureIpRule(k, cfg.sourcePriority, SourceNeedle(subnet, uplink), SourceNeedle(subnet, uplink));
    }
    ghost var forward := k.forward;
    CleanupBridgeForwardRules(k, cfg.bridge);
    EnsureForwardRule(k, BridgeAccept(cfg.bridge, uplink));
    EnsureForwardRule(k, ConntrackAccept(cfg.bridge));
    ForwardClosedForm(forward, cfg.bridge, uplink);
    EnsurePostroutingRule(k, Masquerade(subnet, cfg.bridge));
  }

  /** Cleaning up and ensuring both rules, one after the other, is the closed form. */
  lemma ForwardClosedForm(forward: seq<Rule>, bridge: Token, uplink: Token)
    ensures
      var cleaned := Filter(forward, NotBridgeAccept(bridge));
      var first := [BridgeAccept(bridge, uplink)] + Filter(cleaned, IsNot(BridgeAccept(bridge, uplink)));
      [ConntrackAccept(bridge)] + Filter(first, IsNot(ConntrackAccept(bridge))) ==
      WantedForward(forward, bridge, uplink)
  {
    ManagedRulesDiffer(bridge, uplink);
    TwoAtTheHead(forward, NotBridgeAccept(bridge), BridgeAccept(bridge, uplink), ConntrackAccept(bridge),
                 Unmanaged(bridge));
  }

  /** Drop what `keep` refuses, then put `a` and then `c` at the head, each without older copies. */
  lemma TwoAtTheHead<T(!new)>(list: seq<T>, keep: T -> bool, a: T, c: T, rest: T -> bool)
    requires !keep(a) && a != c
    requires forall x :: rest(x) <==> keep(x) && x != c
    ensures [c] + Filter([a] + Filter(Filter(list, keep), IsNot(a)), IsNot(c)) == [c, a] + Filter(list, rest)
  {
    var kept := Filter(list, keep);
    FilterAll(kept, IsNot(a));
    assert ([a] + kept)[1..] == kept;
    FilterTwice(list, keep, IsNot(c), rest);
  }

  lemma ManagedRulesDiffer(bridge: Token, uplink: Token)
    ensures IsBridgeAccept(bridge, BridgeAccept(bridge, uplink))
    ensures BridgeAccept(bridge, uplink) != ConntrackAccept(bridge)
    ensures !IsBridgeAccept(bridge, ConntrackAccept(bridge))
  {
    assert |BridgeAccept(bridge, uplink)| == 6;
    assert |ConntrackAccept(bridge)| == 8;
  }
}

/**
 What one reconcile, and any sequence of reconciles, promises about the kernel tables: the managed
 policy rules, the fixpoint, and which uplink wins.
 */
module NetReconcileLaws {
  import opened Wrappers
  import opened Sequences
  import opened Text
  import opened KernelTables
  import opened NetReconcile

  // ---- Which printed rule carries which needle ----

  function ShownPrefix(priority: nat): string {
    PriorityToken(priority) + "\t"
  }

  lemma ShownIs(r: IpRule)
    ensures ShowIpRule(r) == ShownPrefix(r.priority) + r.body
    ensures forall c :: c in ShownPrefix(r.priority) ==> c != ' '
  {
    assert forall c :: c in Decimal(r.priority) ==> c != ' ';
  }

  lemma TokenHasNoBlank(w: Token)
    ensures ' ' !in w
  {
    assert IsSpace(' ');
  }

  /** An occurrence makes the characters agree, position by position. */
  lemma OccurrenceAgrees(text: string, needle: string, i: int, k: int)
    requires 0 <= i <= |text| - |needle| && 0 <= k < |needle|
    ensures OccursAt(text, needle, i) ==> text[i + k] == needle[k]
  {
    assert text[i..i + |needle|][k] == text[i + k];
  }

  /** The only blanks of a phrase are the three between its words. */
  lemma Blanks(prefix: string, a: Token, b: Token, c: Token, d: Token, k: int)
    requires ' ' !in prefix
    requires 0 <= k < |prefix + Phrase(a, b, c, d)|
    ensures var n := |prefix| + |a|;
            (prefix + Phrase(a, b, c, d))[k] == ' ' <==> k == n || k == n + 1 + |b| || k == n + 2 + |b| + |c|
  {
    TokenHasNoBlank(a);
    TokenHasNoBlank(b);
    TokenHasNoBlank(c);
    TokenHasNoBlank(d);
    var text := prefix + Phrase(a, b, c, d);
    var n := |prefix| + |a|;
    if k < |prefix| {
      assert text[k] == prefix[k];
    } else if k < n {
      assert text[k] == a[k - |prefix|];
    } else if n < k < n + 1 + |b| {
      assert text[k] == b[k - n - 1];
    } else if n + 1 + |b| < k < n + 2 + |b| + |c| {
      assert text[k] == c[k - n - 2 - |b|];
    } else if k > n + 2 + |b| + |c| {
      assert text[k] == d[k - n - 3 - |b| - |c|];
    }
  }

  /** A stretch of the needle is found at the same place of the occurrence. */
  lemma StretchAgrees(text: string, needle: string, i: int, from: int, word: Token)
    requires OccursAt(text, needle, i)
    requires 0 <= from <= |needle| - |word| && needle[from..from + |word|] == word
    ensures text[i + from..i + from + |word|] == word
  {
    forall k | 0 <= k < |word| ensures text[i + from + k] == word[k] {
      OccurrenceAgrees(text, needle, i, from + k);
      assert needle[from..from + |word|][k] == needle[from + k];
    }
  }

  /** The letters of a phrase. */
  lemma WordsAt(a: Token, b: Token, c: Token, d: Token, k: nat)
    ensures
      var text, n := Phrase(a, b, c, d), |a|;
      && |text| == n + 3 + |b| + |c| + |d|
      && text[n - 1] == a[n - 1]
      && (k < |b| ==> text[n + 1 + k] == b[k])
      && (k < |c| ==> text[n + 2 + |b| + k] == c[k])
      && (k < |d| ==> text[n + 3 + |b| + |c| + k] == d[k])
  {
  }

  lemma OccurrenceBehind(prefix: string, text: string, needle: string, i: int, k: int)
    requires OccursAt(prefix + text, needle, i) && 0 <= k < |needle| && i + k >= |prefix|
    ensures i + k - |prefix| < |text| && text[i + k - |prefix|] == needle[k]
  {
    OccurrenceAgrees(prefix + text, needle, i, k);
  }

  /** A phrase occurs in a line that ends with a phrase only word for word. */
  lemma PhraseAligns(prefix: string, a: Token, b: Token, c: Token, d: Token,
                     a': Token, b': Token, c': Token, d': Token, i: int)
    requires ' ' !in prefix
    requires OccursAt(prefix + Phrase(a, b, c, d), Phrase(a', b', c', d'), i)
    ensures i + |a'| == |prefix| + |a|
    ensures b' == b && c' == c && d' <= d
    ensures a'[|a'| - 1] == a[|a| - 1]
  {
    BlanksAlign(prefix, a, b, c, d, a', b', c', d', i);
    forall k | 0 <= k < |b'| ensures b'[k] == b[k] {
      LettersAlign(prefix, a, b, c, d, a', b', c', d', i, k);
    }
    forall k | 0 <= k < |c'| ensures c'[k] == c[k] {
      LettersAlign(prefix, a, b, c, d, a', b', c', d', i, k);
    }
    forall k | 0 <= k < |d'| ensures d'[k] == d[k] {
      LettersAlign(prefix, a, b, c, d, a', b', c', d', i, k);
    }
    LettersAlign(prefix, a, b, c, d, a', b', c', d', i, 0);
  }

  lemma LettersAlign(prefix: string, a: Token, b: Token, c: Token, d: Token,
                     a': Token, b': Token, c': Token, d': Token, i: int, k: nat)
    requires OccursAt(prefix + Phrase(a, b, c, d), Phrase(a', b', c', d'), i)
    requires i + |a'| == |prefix| + |a| && |b'| == |b| && |c'| == |c|
    ensures a'[|a'| - 1] == a[|a| - 1]
    ensures k < |b'| ==> b'[k] == b[k]
    ensures k < |c'| ==> c'[k] == c[k]
    ensures k < |d'| ==> k < |d| && d'[k] == d[k]
  {
    var text, needle := Phrase(a, b, c, d), Phrase(a', b', c', d');
    WordsAt(a, b, c, d, k);
    WordsAt(a', b', c', d', k);
    OccurrenceBehind(prefix, text, needle, i, |a'| - 1);
    if k < |b'| {
      OccurrenceBehind(prefix, text, needle, i, |a'| + 1 + k);
    }
    if k < |c'| {
      OccurrenceBehind(prefix, text, needle, i, |a'| + 2 + |b'| + k);
    }
    if k < |d'| {
      OccurrenceBehind(prefix, text, needle, i, |a'| + 3 + |b'| + |c'| + k);
    }
  }

  lemma BlanksAlign(prefix: string, a: Token, b: Token, c: Token, d: Token,
                    a': Token, b': Token, c': Token, d': Token, i: int)
    requires ' ' !in prefix
    requires OccursAt(prefix + Phrase(a, b, c, d), Phrase(a', b', c', d'), i)
    ensures i + |a'| == |prefix| + |a| && |b'| == |b| && |c'| == |c|
  {
    var text, needle := prefix + Phrase(a, b, c, d), Phrase(a', b', c', d');
    var first, second, third := |a'|, |a'| + 1 + |b'|, |a'| + 2 + |b'| + |c'|;
    assert needle[first] == ' ' && needle[second] == ' ' && needle[third] == ' ';
    OccurrenceAgrees(text, needle, i, first);
    OccurrenceAgrees(text, needle, i, second);
    OccurrenceAgrees(text, needle, i, third);
    Blanks(prefix, a, b, c, d, i + first);
    Blanks(prefix, a, b, c, d, i + second);
    Blanks(prefix, a, b, c, d, i + third);
  }

  lemma ReturnRuleCarriesItsNeedle(priority: nat, subnet: Token)
    ensures Contains(ShowIpRule(IpRule(priority, ReturnBody(subnet))), ReturnNeedle(subnet))
  {
    var shown, needle := ShowIpRule(IpRule(priority, ReturnBody(subnet))), ReturnNeedle(subnet);
    assert shown == PriorityToken(priority) + "\tfrom all " + needle;
    assert OccursAt(shown, needle, |PriorityToken(priority) + "\tfrom all "|);
  }

  /** The substring test takes a source rule for another uplink's exactly when that uplink's name is a prefix. */
  lemma SourceRuleCarries(priority: nat, subnet: Token, uplink: Token, wanted: Token)
    ensures Contains(ShowIpRule(IpRule(priority, SourceNeedle(subnet, uplink))), SourceNeedle(subnet, wanted)) <==>
            wanted <= uplink
  {
    var r := IpRule(priority, SourceNeedle(subnet, uplink));
    var shown, needle := ShowIpRule(r), SourceNeedle(subnet, wanted);
    ShownIs(r);
    var prefix := ShownPrefix(priority);
    if wanted <= uplink {
      assert SourceNeedle(subnet, uplink) == needle + uplink[|wanted|..];
      assert shown == prefix + needle + uplink[|wanted|..];
      assert OccursAt(shown, needle, |prefix|);
    }
    if Contains(shown, needle) {
      var i :| OccursAt(shown, needle, i);
      PhraseAligns(prefix, FROM, subnet, LOOKUP, uplink, FROM, subnet, LOOKUP, wanted, i);
    }
  }

  lemma SourceRuleIsNoReturnRule(priority: nat, subnet: Token, uplink: Token, returnSubnet: Token)
    ensures !Contains(ShowIpRule(IpRule(priority, SourceNeedle(subnet, uplink))), ReturnNeedle(returnSubnet))
  {
    var prefix := ShownPrefix(priority);
    ShownIs(IpRule(priority, SourceNeedle(subnet, uplink)));
    assert TO[1] == 'o' && FROM[3] == 'm';
    forall i ensures !OccursAt(prefix + SourceNeedle(subnet, uplink), ReturnNeedle(returnSubnet), i) {
      if OccursAt(prefix + SourceNeedle(subnet, uplink), ReturnNeedle(returnSubnet), i) {
        PhraseAligns(prefix, FROM, subnet, LOOKUP, uplink, TO, returnSubnet, LOOKUP, MAIN, i);
      }
    }
  }

  /** Where the five blanks of a printed return rule are. */
  lemma ReturnBlanks(prefix: string, subnet: Token, k: int)
    requires ' ' !in prefix
    requires 0 <= k < |prefix + ReturnBody(subnet)|
    ensures
      var n := |prefix|;
      (prefix + ReturnBody(subnet))[k] == ' ' <==>
      k == n + 4 || k == n + 8 || k == n + 11 || k == n + 12 + |subnet| || k == n + 19 + |subnet|
  {
    TokenHasNoBlank(subnet);
    var text, n := prefix + ReturnBody(subnet), |prefix|;
    if k < n {
      assert text[k] == prefix[k];
    } else if n + 12 <= k < n + 12 + |subnet| {
      assert text[k] == subnet[k - n - 12];
    }
  }

  lemma ReturnLetters(prefix: string, subnet: Token)
    ensures
      var text, n := prefix + ReturnBody(subnet), |prefix|;
      && |text| == n + 24 + |subnet|
      && text[n + 5] == 'a' && text[n + 7] == 'l' && text[n + 9] == 't' && text[n + 20 + |subnet|] == 'm'
      && text[n + 12..n + 12 + |subnet|] == subnet
  {
  }

  /** Two blanks with a blank-free word between, the second before an 'l' and the first not after one. */
  lemma BlanksAroundSubnet(prefix: string, subnet: Token, p: int, q: int)
    requires ' ' !in prefix
    requires 0 < p < q && q + 1 < |prefix + ReturnBody(subnet)|
    requires var text := prefix + ReturnBody(subnet);
             && text[p] == ' ' && text[q] == ' ' && text[q + 1] == 'l' && text[p - 1] != 'l'
             && forall k :: p < k < q ==> text[k] != ' '
    ensures p == |prefix| + 11 && q == |prefix| + 12 + |subnet|
  {
    var n := |prefix|;
    ReturnLetters(prefix, subnet);
    ReturnBlanks(prefix, subnet, p);
    ReturnBlanks(prefix, subnet, q);
    ReturnBlanks(prefix, subnet, n + 8);
    ReturnBlanks(prefix, subnet, n + 11);
  }

  /**
   A phrase with "lookup" third occurs in a printed return rule only at its end, with the rule's own
   subnet second, unless its first word ends like "all".
   */
  lemma NeedleInReturnBody(prefix: string, subnet: Token, head: Token, other: Token, tail: Token, i: int)
    requires ' ' !in prefix && head[|head| - 1] != 'l'
    requires OccursAt(prefix + ReturnBody(subnet), Phrase(head, other, LOOKUP, tail), i)
    ensures i + |head| == |prefix| + 11 && other == subnet
  {
    SecondWordFound(prefix + ReturnBody(subnet), head, other, LOOKUP, tail, i);
    BlanksAroundSubnet(prefix, subnet, i + |head|, i + |head| + 1 + |other|);
    ReturnLetters(prefix, subnet);
  }

  /** Around the second word of an occurrence: its blanks, the letters next to them, and no blank inside. */
  lemma SecondWordFound(text: string, a: Token, b: Token, c: Token, d: Token, i: int)
    requires OccursAt(text, Phrase(a, b, c, d), i)
    ensures
      var p, q := i + |a|, i + |a| + 1 + |b|;
      && 0 < p < q && q + 1 < |text|
      && text[p - 1] == a[|a| - 1] && text[p] == ' ' && text[q] == ' ' && text[q + 1] == c[0]
      && text[p + 1..q] == b
      && forall k :: p < k < q ==> text[k] != ' '
  {
    var needle, h := Phrase(a, b, c, d), |a|;
    var p, q := i + h, i + h + 1 + |b|;
    PhraseLetters(a, b, c, d);
    OccurrenceAgrees(text, needle, i, h - 1);
    OccurrenceAgrees(text, needle, i, h);
    OccurrenceAgrees(text, needle, i, h + 1 + |b|);
    OccurrenceAgrees(text, needle, i, h + 2 + |b|);
    StretchAgrees(text, needle, i, h + 1, b);
    TokenHasNoBlank(b);
    forall k | p < k < q ensures text[k] != ' ' {
      assert text[k] == text[p + 1..q][k - p - 1];
    }
  }

  lemma PhraseLetters(a: Token, b: Token, c: Token, d: Token)
    ensures
      var needle, h := Phrase(a, b, c, d), |a|;
      && |needle| == h + 3 + |b| + |c| + |d|
      && needle[h - 1] == a[h - 1] && needle[h] == ' ' && needle[h + 1 + |b|] == ' ' && needle[h + 2 + |b|] == c[0]
      && needle[h + 1..h + 1 + |b|] == b
  {
  }

  lemma ReturnRuleIsNoSourceRule(priority: nat, subnet: Token, uplink: Token)
    ensures !Contains(ShowIpRule(IpRule(priority, ReturnBody(subnet))), SourceNeedle(subnet, uplink))
  {
    var text, needle := ShownPrefix(priority) + ReturnBody(subnet), SourceNeedle(subnet, uplink);
    ShownIs(IpRule(priority, ReturnBody(subnet)));
    ReturnBlanks(ShownPrefix(priority), subnet, 0);
    assert needle[3] == 'm' && FROM[3] == 'm';
    forall i ensures !OccursAt(text, needle, i) {
      if OccursAt(text, needle, i) {
        OccurrenceAgrees(text, needle, i, 3);
        NeedleInReturnBody(ShownPrefix(priority), subnet, FROM, subnet, uplink, i);
      }
    }
  }

  /** A return rule is found under no other subnet's selector. */
  lemma ReturnRuleCarries(priority: nat, subnet: Token, other: Token)
    ensures Contains(ShowIpRule(IpRule(priority, ReturnBody(subnet))), ReturnNeedle(other)) <==> other == subnet
  {
    var shown := ShowIpRule(IpRule(priority, ReturnBody(subnet)));
    ShownIs(IpRule(priority, ReturnBody(subnet)));
    ReturnRuleCarriesItsNeedle(priority, subnet);
    if Contains(shown, ReturnNeedle(other)) {
      var i :| OccursAt(shown, ReturnNeedle(other), i);
      NeedleInReturnBody(ShownPrefix(priority), subnet, TO, other, MAIN, i);
    }
  }

  // ---- Policy rules after a reconcile ----

  function RulesAt(rules: seq<IpRule>, priority: nat): seq<IpRule> {
    Filter(rules, HasPriority(priority))
  }

  function Elsewhere(p: nat, q: nat): IpRule -> bool {
    (r: IpRule) => r.priority != p && r.priority != q
  }

  /**
   Each managed priority ends with exactly one rule carrying the wanted selector: the old one if it
   was already alone and carried it, else the wanted one. Neither step disturbs the other's priority.
   */
  lemma PolicyRulesAfterReconcile(cfg: NetConfig, t: Tables, subnet: Token, uplink: Token)
    requires cfg.policyRules == "1" && cfg.returnPriority != cfg.sourcePriority
    ensures
      var after := Wanted(cfg, t, subnet, Some(uplink)).rules;
      var ret, src := cfg.returnPriority, cfg.sourcePriority;
      && RuleSettled(after, ret, ReturnNeedle(subnet))
      && RuleSettled(after, src, SourceNeedle(subnet, uplink))
      && RulesAt(after, ret) == (if RuleSettled(t.rules, ret, ReturnNeedle(subnet)) then RulesAt(t.rules, ret)
                                 else [IpRule(ret, ReturnBody(subnet))])
      && RulesAt(after, src) == (if RuleSettled(t.rules, src, SourceNeedle(subnet, uplink)) then RulesAt(t.rules, src)
                                 else [IpRule(src, SourceNeedle(subnet, uplink))])
  {
    var ret, src := cfg.returnPriority, cfg.sourcePriority;
    var returnNeedle, sourceNeedle := ReturnNeedle(subnet), SourceNeedle(subnet, uplink);
    var middle := WithReturnRule(cfg, t.rules, subnet);
    ReturnRuleCarriesItsNeedle(ret, subnet);
    SourceRuleCarries(src, subnet, uplink, uplink);
    EnsuredRulesShape(t.rules, ret, returnNeedle, ReturnBody(subnet));
    EnsuredRulesElsewhere(t.rules, ret, returnNeedle, ReturnBody(subnet), src);
    EnsuredRulesShape(middle, src, sourceNeedle, sourceNeedle);
    EnsuredRulesElsewhere(middle, src, sourceNeedle, sourceNeedle, ret);
  }

  /** Rules at other priorities keep their contents and order, and a sorted list stays sorted. */
  lemma OtherRulesUntouched(cfg: NetConfig, t: Tables, subnet: Token, uplink: Option<Token>)
    ensures
      var after := Wanted(cfg, t, subnet, uplink).rules;
      var elsewhere := Elsewhere(cfg.returnPriority, cfg.sourcePriority);
      && Filter(after, elsewhere) == Filter(t.rules, elsewhere)
      && (Sorted(t.rules) ==> Sorted(after))
  {
    var ret, src := cfg.returnPriority, cfg.sourcePriority;
    if cfg.policyRules == "1" {
      ReturnRuleCarriesItsNeedle(ret, subnet);
      EnsuredElsewhere(t.rules, ret, ReturnNeedle(subnet), ReturnBody(subnet), Elsewhere(ret, src));
      if uplink.Some? {
        var needle := SourceNeedle(subnet, uplink.value);
        SourceRuleCarries(src, subnet, uplink.value, uplink.value);
        EnsuredElsewhere(WithReturnRule(cfg, t.rules, subnet), src, needle, needle, Elsewhere(ret, src));
      }
    }
  }

  lemma EnsuredElsewhere(rules: seq<IpRule>, priority: nat, needle: string, body: string, q: IpRule -> bool)
    requires Contains(ShowIpRule(IpRule(priority, body)), needle)
    requires forall r :: q(r) ==> r.priority != priority
    ensures Filter(EnsuredRules(rules, priority, needle, body), q) == Filter(rules, q)
    ensures Sorted(rules) ==> Sorted(EnsuredRules(rules, priority, needle, body))
  {
    var after := EnsuredRules(rules, priority, needle, body);
    EnsuredRulesShape(rules, priority, needle, body);
    FilterTwice(rules, OtherPriority(priority), q, q);
    FilterTwice(after, OtherPriority(priority), q, q);
  }

  lemma OnlyRuleDecides(rules: seq<IpRule>, priority: nat, needle: string)
    requires |RulesAt(rules, priority)| == 1
    ensures RulePresent(rules, priority, needle) <==> Contains(ShowIpRule(RulesAt(rules, priority)[0]), needle)
    ensures RulePresent(rules, priority, needle) <==> RuleSettled(rules, priority, needle)
  {
    var r := RulesAt(rules, priority)[0];
    assert r in RulesAt(rules, priority) && HasPriority(priority)(r);
    assert HasPriorityAndText(priority, needle)(r) <==> Contains(ShowIpRule(r), needle);
    assert forall x :: x in rules && HasPriority(priority)(x) ==> x in RulesAt(rules, priority) && x == r;
  }

  /**
   The return rule is there after a reconcile exactly when the two priorities differ, or a single rule
   that carries both selectors was there before.
   */
  lemma PrioritiesMustDiffer(cfg: NetConfig, t: Tables, subnet: Token, uplink: Token)
    requires cfg.policyRules == "1"
    ensures RulePresent(Wanted(cfg, t, subnet, Some(uplink)).rules, cfg.returnPriority, ReturnNeedle(subnet)) <==>
            || cfg.returnPriority != cfg.sourcePriority
            || (&& RuleSettled(t.rules, cfg.returnPriority, ReturnNeedle(subnet))
                && RuleSettled(t.rules, cfg.returnPriority, SourceNeedle(subnet, uplink)))
  {
    var ret, src := cfg.returnPriority, cfg.sourcePriority;
    var after := Wanted(cfg, t, subnet, Some(uplink)).rules;
    if ret != src {
      PolicyRulesAfterReconcile(cfg, t, subnet, uplink);
    } else {
      OnePriority(t.rules, ret, subnet, uplink);
    }
    OnlyRuleDecides(after, ret, ReturnNeedle(subnet));
  }

  /** Both rules at one priority: what the second step leaves there. */
  lemma OnePriority(rules: seq<IpRule>, priority: nat, subnet: Token, uplink: Token)
    ensures
      var ret, src := ReturnNeedle(subnet), SourceNeedle(subnet, uplink);
      var middle := EnsuredRules(rules, priority, ret, ReturnBody(subnet));
      var after := EnsuredRules(middle, priority, src, src);
      && |RulesAt(after, priority)| == 1
      && (Contains(ShowIpRule(RulesAt(after, priority)[0]), ret) <==>
          RuleSettled(rules, priority, ret) && RuleSettled(rules, priority, src))
  {
    hide EnsuredRules;
    var ret, src := ReturnNeedle(subnet), SourceNeedle(subnet, uplink);
    var middle := EnsuredRules(rules, priority, ret, ReturnBody(subnet));
    ReturnRuleCarriesItsNeedle(priority, subnet);
    ReturnRuleIsNoSourceRule(priority, subnet, uplink);
    SourceRuleIsNoReturnRule(priority, subnet, uplink, subnet);
    SourceRuleCarries(priority, subnet, uplink, uplink);
    EnsuredRulesShape(rules, priority, ret, ReturnBody(subnet));
    EnsuredRulesShape(middle, priority, src, src);
    OnlyRuleDecides(middle, priority, src);
    OnlyRuleDecides(middle, priority, ret);
    if RuleSettled(rules, priority, ret) {
      OnlyRuleDecides(rules, priority, src);
    }
  }

  // ---- One reconcile, from what the host shows ----

  /** The first source that answers. */
  function FirstOf(sources: seq<Option<Token>>): Option<Token> {
    if sources == [] then None else if sources[0].Some? then sources[0] else FirstOf(sources[1..])
  }

  /** It fails exactly if something is missing, names the first missing thing, and then changes nothing. */
  lemma ReconcileFailsIff(cfg: NetConfig, env: Env, t: Tables)
    ensures
      var subnet := FirstOf([env.routeSubnet, cfg.dockerSubnet, env.addrSubnet]);
      var iptables := cfg.iptables.Some? || env.hasIptables;
      var failure := Failure(cfg, env);
      && (failure.None? <==> env.hasIp && env.bridgeUp && iptables && subnet.Some?)
      && (failure == Some(NoIpCommand) <==> !env.hasIp)
      && (failure == Some(NoBridge) <==> env.hasIp && !env.bridgeUp)
      && (failure == Some(NoIptables) <==> env.hasIp && env.bridgeUp && !iptables)
      && (failure == Some(NoSubnet) <==> env.hasIp && env.bridgeUp && iptables && subnet.None?)
      && (failure.Some? ==> Reconciled(cfg, env, t) == t)
  {
    SourcesInOrder(env.routeSubnet, cfg.dockerSubnet, env.addrSubnet);
  }

  lemma SourcesInOrder(a: Option<Token>, b: Option<Token>, c: Option<Token>)
    ensures FirstOf([a, b, c]) == if a.Some? then a else if b.Some? then b else c
    ensures FirstOf([a, b]) == if a.Some? then a else b
  {
    assert [a, b, c][1..] == [b, c] && [b, c][1..] == [c] && [a, b][1..] == [b];
    OneSource(b);
    OneSource(c);
  }

  lemma OneSource(a: Option<Token>)
    ensures FirstOf([a]) == a
  {
    assert [a][1..] == [];
  }

  /**
   What a successful reconcile leaves: with policy rules, one return rule for the first subnet found,
   also if no uplink is; with an uplink, configured before detected, the whole wanted shape for both,
   and without one both chains and every other rule as they were.
   */
  lemma ReconcileOutcome(cfg: NetConfig, env: Env, t: Tables)
    requires Failure(cfg, env).None?
    ensures
      var subnet := FirstOf([env.routeSubnet, cfg.dockerSubnet, env.addrSubnet]);
      var uplink := FirstOf([cfg.uplink, env.detectedUplink]);
      var after := Reconciled(cfg, env, t);
      var ret, src := cfg.returnPriority, cfg.sourcePriority;
      && subnet.Some?
      && (cfg.policyRules != "1" ==> after.rules == t.rules)
      && (cfg.policyRules == "1" && (uplink.None? || ret != src) ==>
            RuleSettled(after.rules, ret, ReturnNeedle(subnet.value)))
      && (uplink.None? ==>
            && after.forward == t.forward && after.postrouting == t.postrouting
            && Filter(after.rules, OtherPriority(ret)) == Filter(t.rules, OtherPriority(ret)))
      && (uplink.Some? && ret != src ==> Settled(cfg, after, subnet.value, uplink.value))
  {
    SourcesInOrder(env.routeSubnet, cfg.dockerSubnet, env.addrSubnet);
    SourcesInOrder(cfg.uplink, env.detectedUplink, None);
    var subnet := ReconcileSubnet(cfg, env).value;
    ReturnRuleCarriesItsNeedle(cfg.returnPriority, subnet);
    EnsuredRulesShape(t.rules, cfg.returnPriority, ReturnNeedle(subnet), ReturnBody(subnet));
    if ResolveUplink(cfg, env).Some? && cfg.returnPriority != cfg.sourcePriority {
      ReconcileFixpoint(cfg, t, subnet, ResolveUplink(cfg, env).value);
    }
  }

  /** The managed rules, word by word. */
  lemma ManagedRules(bridge: Token, uplink: Token, subnet: Token)
    ensures BridgeAccept(bridge, uplink) == ["-i", bridge, "-o", uplink, "-j", "ACCEPT"]
    ensures ConntrackAccept(bridge) ==
            ["-o", bridge, "-m", "conntrack", "--ctstate", "RELATED,ESTABLISHED", "-j", "ACCEPT"]
    ensures Masquerade(subnet, bridge) == ["-s", subnet, "!", "-o", bridge, "-j", "MASQUERADE"]
  {
  }

  /** The two policy rules. */
  lemma ReturnRuleText(subnet: Token)
    ensures ReturnBody(subnet) == "from all to " + (subnet + " lookup main")
  {
    var tail := subnet + " lookup main";
    assert ReturnNeedle(subnet) == "to " + tail;
    assert "from all " + ("to " + tail) == ("from all " + "to ") + tail;
    assert "from all " + "to " == "from all to ";
  }

  lemma SourceRuleText(subnet: Token, uplink: Token)
    ensures SourceNeedle(subnet, uplink) == "from " + (subnet + (" lookup " + uplink))
  {
    var tail := " lookup " + uplink;
    assert " " + LOOKUP + " " == " lookup ";
    assert "from" + " " == "from ";
    assert SourceNeedle(subnet, uplink) == "from" + " " + subnet + tail;
  }

  // ---- The fixpoint ----

  predicate ForwardSettled(forward: seq<Rule>, bridge: Token, uplink: Token) {
    && |forward| >= 2
    && forward[0] == ConntrackAccept(bridge)
    && forward[1] == BridgeAccept(bridge, uplink)
    && forall r :: r in forward[2..] ==> Unmanaged(bridge)(r)
  }

  predicate PostroutingSettled(postrouting: seq<Rule>, bridge: Token, subnet: Token) {
    && postrouting != []
    && postrouting[|postrouting| - 1] == Masquerade(subnet, bridge)
    && Masquerade(subnet, bridge) !in postrouting[..|postrouting| - 1]
  }

  /** The wanted shape, said about the tables alone. */
  predicate Settled(cfg: NetConfig, t: Tables, subnet: Token, uplink: Token) {
    && (cfg.policyRules == "1" ==>
          && RuleSettled(t.rules, cfg.returnPriority, ReturnNeedle(subnet))
          && RuleSettled(t.rules, cfg.sourcePriority, SourceNeedle(subnet, uplink)))
    && ForwardSettled(t.forward, cfg.bridge, uplink)
    && PostroutingSettled(t.postrouting, cfg.bridge, subnet)
  }

  lemma ForwardFixpoint(forward: seq<Rule>, bridge: Token, uplink: Token)
    ensures WantedForward(forward, bridge, uplink) == forward <==> ForwardSettled(forward, bridge, uplink)
    ensures ForwardSettled(WantedForward(forward, bridge, uplink), bridge, uplink)
  {
    ManagedRulesDiffer(bridge, uplink);
    var p := Unmanaged(bridge);
    var wanted := WantedForward(forward, bridge, uplink);
    assert wanted[2..] == Filter(forward, p);
    if ForwardSettled(forward, bridge, uplink) {
      assert forward == [forward[0]] + ([forward[1]] + forward[2..]);
      assert forward[1..][1..] == forward[2..];
      FilterAll(forward[2..], p);
    }
  }

  lemma PostroutingFixpoint(postrouting: seq<Rule>, bridge: Token, subnet: Token)
    ensures WantedPostrouting(postrouting, bridge, subnet) == postrouting <==>
            PostroutingSettled(postrouting, bridge, subnet)
    ensures PostroutingSettled(WantedPostrouting(postrouting, bridge, subnet), bridge, subnet)
  {
    OnceAtTheEnd(postrouting, Masquerade(subnet, bridge));
  }

  lemma OnceAtTheEnd<T(!new)>(list: seq<T>, x: T)
    ensures
      var wanted := Filter(list, IsNot(x)) + [x];
      && (wanted == list <==> list != [] && list[|list| - 1] == x && x !in list[..|list| - 1])
      && x !in wanted[..|wanted| - 1] && wanted[|wanted| - 1] == x
  {
    var kept := Filter(list, IsNot(x));
    assert (kept + [x])[..|kept|] == kept;
    assert x !in kept by {
      assert !IsNot(x)(x);
    }
    if list != [] && list[|list| - 1] == x && x !in list[..|list| - 1] {
      OnceAlready(list[..|list| - 1], x);
      assert list == list[..|list| - 1] + [x];
    }
  }

  lemma OnceAlready<T(!new)>(init: seq<T>, x: T)
    requires x !in init
    ensures Filter(init + [x], IsNot(x)) == init
  {
    FilterConcat(init, [x], IsNot(x));
    FilterAll(init, IsNot(x));
    FilterNone([x], IsNot(x));
  }

  /** A reconcile leaves the tables alone exactly when they have the wanted shape, and always produces it. */
  lemma ReconcileFixpoint(cfg: NetConfig, t: Tables, subnet: Token, uplink: Token)
    requires cfg.returnPriority != cfg.sourcePriority
    ensures Wanted(cfg, t, subnet, Some(uplink)) == t <==> Settled(cfg, t, subnet, uplink)
    ensures Settled(cfg, Wanted(cfg, t, subnet, Some(uplink)), subnet, uplink)
  {
    ForwardFixpoint(t.forward, cfg.bridge, uplink);
    PostroutingFixpoint(t.postrouting, cfg.bridge, subnet);
    if cfg.policyRules == "1" {
      PolicyRulesAfterReconcile(cfg, t, subnet, uplink);
    }
  }

  /** Reconciling twice is reconciling once, with or without an uplink. */
  lemma ReconcileIdempotent(cfg: NetConfig, t: Tables, subnet: Token, uplink: Option<Token>)
    requires cfg.returnPriority != cfg.sourcePriority
    ensures var once := Wanted(cfg, t, subnet, uplink); Wanted(cfg, once, subnet, uplink) == once
  {
    match uplink
    case Some(u) =>
      ReconcileFixpoint(cfg, t, subnet, u);
      ReconcileFixpoint(cfg, Wanted(cfg, t, subnet, uplink), subnet, u);
    case None =>
      ReturnRuleCarriesItsNeedle(cfg.returnPriority, subnet);
      EnsuredRulesShape(t.rules, cfg.returnPriority, ReturnNeedle(subnet), ReturnBody(subnet));
  }

  // ---- Whole runs: the last uplink wins ----

  /** The tables after a sequence of reconciles; some of them may find no uplink. */
  function RunReconciles(cfg: NetConfig, t: Tables, subnet: Token, uplinks: seq<Option<Token>>): Tables {
    if uplinks == [] then t
    else
      var n := |uplinks| - 1;
      Wanted(cfg, RunReconciles(cfg, t, subnet, uplinks[..n]), subnet, uplinks[n])
  }

  function LastPresent(uplinks: seq<Option<Token>>): Option<Token> {
    if uplinks == [] then None
    else
      var n := |uplinks| - 1;
      if uplinks[n].Some? then uplinks[n] else LastPresent(uplinks[..n])
  }

  lemma WantedForwardTwice(forward: seq<Rule>, bridge: Token, u: Token, v: Token)
    ensures WantedForward(WantedForward(forward, bridge, u), bridge, v) == WantedForward(forward, bridge, v)
  {
    ManagedRulesDiffer(bridge, u);
    HeadDropped(ConntrackAccept(bridge), BridgeAccept(bridge, u), forward, Unmanaged(bridge));
  }

  lemma HeadDropped<T(!new)>(a: T, b: T, list: seq<T>, p: T -> bool)
    requires !p(a) && !p(b)
    ensures Filter([a, b] + Filter(list, p), p) == Filter(list, p)
  {
    FilterConcat([a, b], Filter(list, p), p);
    FilterNone([a, b], p);
    FilterAll(Filter(list, p), p);
  }

  lemma WantedPostroutingTwice(postrouting: seq<Rule>, bridge: Token, subnet: Token)
    ensures var once := WantedPostrouting(postrouting, bridge, subnet);
            WantedPostrouting(once, bridge, subnet) == once
  {
    PostroutingFixpoint(postrouting, bridge, subnet);
    PostroutingFixpoint(WantedPostrouting(postrouting, bridge, subnet), bridge, subnet);
  }

  /** Whatever uplinks came before, the chains are those of one reconcile with the last uplink found. */
  lemma {:induction false} LastUplinkWinsChains(cfg: NetConfig, t: Tables, subnet: Token, uplinks: seq<Option<Token>>)
    ensures
      var after := RunReconciles(cfg, t, subnet, uplinks);
      match LastPresent(uplinks)
      case None => after.forward == t.forward && after.postrouting == t.postrouting
      case Some(u) =>
        var once := Wanted(cfg, t, subnet, Some(u));
        after.forward == once.forward && after.postrouting == once.postrouting
  {
    if uplinks != [] {
      var n := |uplinks| - 1;
      LastUplinkWinsChains(cfg, t, subnet, uplinks[..n]);
      if uplinks[n].Some? && LastPresent(uplinks[..n]).Some? {
        WantedForwardTwice(t.forward, cfg.bridge, LastPresent(uplinks[..n]).value, uplinks[n].value);
        WantedPostroutingTwice(t.postrouting, cfg.bridge, subnet);
      }
    }
  }

  function SourceRule(cfg: NetConfig, subnet: Token, uplink: Token): IpRule {
    IpRule(cfg.sourcePriority, SourceNeedle(subnet, uplink))
  }

  /** The rules `list` at the source priority already serve `uplink`. */
  predicate Serves(list: seq<IpRule>, subnet: Token, uplink: Token) {
    |list| == 1 && Contains(ShowIpRule(list[0]), SourceNeedle(subnet, uplink))
  }

  predicate ServesAll(list: seq<IpRule>, subnet: Token, uplinks: seq<Option<Token>>) {
    forall i :: 0 <= i < |uplinks| && uplinks[i].Some? ==> Serves(list, subnet, uplinks[i].value)
  }

  /** No uplink name is a proper prefix of another. */
  predicate PrefixFree(uplinks: seq<Option<Token>>) {
    forall i, j :: 0 <= i < |uplinks| && 0 <= j < |uplinks| && uplinks[i].Some? && uplinks[j].Some? ==>
      uplinks[i].value <= uplinks[j].value ==> uplinks[i] == uplinks[j]
  }

  /** One reconcile changes the rules at the source priority only for an uplink they do not serve. */
  lemma SourceStep(cfg: NetConfig, t: Tables, subnet: Token, uplink: Option<Token>)
    requires cfg.policyRules == "1" && cfg.returnPriority != cfg.sourcePriority
    ensures
      var list := RulesAt(t.rules, cfg.sourcePriority);
      RulesAt(Wanted(cfg, t, subnet, uplink).rules, cfg.sourcePriority) ==
      if uplink.None? || Serves(list, subnet, uplink.value) then list
      else [SourceRule(cfg, subnet, uplink.value)]
  {
    if uplink.Some? {
      PolicyRulesAfterReconcile(cfg, t, subnet, uplink.value);
    } else {
      ReturnRuleCarriesItsNeedle(cfg.returnPriority, subnet);
      EnsuredRulesElsewhere(t.rules, cfg.returnPriority, ReturnNeedle(subnet), ReturnBody(subnet), cfg.sourcePriority);
    }
  }

  /** The rules at the source priority after a run that started with `list` there. */
  function SourceRulesOfRun(cfg: NetConfig, list: seq<IpRule>, subnet: Token, uplinks: seq<Option<Token>>): seq<IpRule>
  {
    if ServesAll(list, subnet, uplinks) then list
    else
      assert LastPresent(uplinks).Some? by { SomePresent(uplinks); }
      [SourceRule(cfg, subnet, LastPresent(uplinks).value)]
  }

  lemma {:induction false} SomePresent(uplinks: seq<Option<Token>>)
    ensures LastPresent(uplinks).None? ==> forall i :: 0 <= i < |uplinks| ==> uplinks[i].None?
  {
    if uplinks != [] {
      SomePresent(uplinks[..|uplinks| - 1]);
    }
  }

  lemma SourceRulesOfRunStep(cfg: NetConfig, list: seq<IpRule>, subnet: Token, uplinks: seq<Option<Token>>)
    requires uplinks != [] && PrefixFree(uplinks)
    ensures
      var n := |uplinks| - 1;
      var before := SourceRulesOfRun(cfg, list, subnet, uplinks[..n]);
      && PrefixFree(uplinks[..n])
      && SourceRulesOfRun(cfg, list, subnet, uplinks) ==
         if uplinks[n].None? || Serves(before, subnet, uplinks[n].value) then before
         else [SourceRule(cfg, subnet, uplinks[n].value)]
  {
    var n := |uplinks| - 1;
    var init, last := uplinks[..n], uplinks[n];
    assert forall i :: 0 <= i < n ==> init[i] == uplinks[i];
    if !ServesAll(list, subnet, init) {
      SomePresent(init);
      LastPresentIsOne(init);
      if last.Some? {
        SourceRuleCarries(cfg.sourcePriority, subnet, LastPresent(init).value, last.value);
      }
    }
  }

  /** The source rule of a whole run, in closed form. */
  lemma {:induction false} SourceRuleOfRun(cfg: NetConfig, t: Tables, subnet: Token, uplinks: seq<Option<Token>>)
    requires cfg.policyRules == "1" && cfg.returnPriority != cfg.sourcePriority
    requires PrefixFree(uplinks)
    ensures RulesAt(RunReconciles(cfg, t, subnet, uplinks).rules, cfg.sourcePriority) ==
            SourceRulesOfRun(cfg, RulesAt(t.rules, cfg.sourcePriority), subnet, uplinks)
  {
    if uplinks != [] {
      var n := |uplinks| - 1;
      SourceRulesOfRunStep(cfg, RulesAt(t.rules, cfg.sourcePriority), subnet, uplinks);
      SourceRuleOfRun(cfg, t, subnet, uplinks[..n]);
      SourceStep(cfg, RunReconciles(cfg, t, subnet, uplinks[..n]), subnet, uplinks[n]);
    }
  }

  lemma {:induction false} LastPresentIsOne(uplinks: seq<Option<Token>>)
    ensures LastPresent(uplinks).Some? ==> LastPresent(uplinks) in uplinks
  {
    if uplinks != [] && uplinks[|uplinks| - 1].None? {
      LastPresentIsOne(uplinks[..|uplinks| - 1]);
    }
  }

  /**
   The run leaves the source rule that one reconcile with the last uplink would leave, exactly when
   the starting rule did not serve the last uplink by accident while failing an earlier one.
   */
  lemma LastUplinkWinsSource(cfg: NetConfig, t: Tables, subnet: Token, uplinks: seq<Option<Token>>)
    requires cfg.policyRules == "1" && cfg.returnPriority != cfg.sourcePriority
    requires PrefixFree(uplinks) && LastPresent(uplinks).Some?
    ensures
      var list := RulesAt(t.rules, cfg.sourcePriority);
      var last := LastPresent(uplinks).value;
      RulesAt(RunReconciles(cfg, t, subnet, uplinks).rules, cfg.sourcePriority) ==
      RulesAt(Wanted(cfg, t, subnet, Some(last)).rules, cfg.sourcePriority)
      <==> ServesAll(list, subnet, uplinks) || !Serves(list, subnet, last) || list == [SourceRule(cfg, subnet, last)]
  {
    SourceRuleOfRun(cfg, t, subnet, uplinks);
    SourceStep(cfg, t, subnet, LastPresent(uplinks));
    LastPresentIsOne(uplinks);
  }

  /**
   Without prefix-freeness the last uplink loses: after `u` and then `v`, from rules that do not serve `u`,
   the rule is the wanted one for `v` exactly when `v` is not a proper prefix of `u`; rules that serve `u`
   stay through its reconcile, and go in the next exactly when they do not serve `v`.
   */
  lemma PrefixUplinkLoses(cfg: NetConfig, t: Tables, subnet: Token, u: Token, v: Token)
    requires cfg.policyRules == "1" && cfg.returnPriority != cfg.sourcePriority
    ensures var start := RulesAt(t.rules, cfg.sourcePriority);
            var list := RulesAt(RunReconciles(cfg, t, subnet, [Some(u), Some(v)]).rules, cfg.sourcePriority);
            list == [SourceRule(cfg, subnet, v)] <==>
            if Serves(start, subnet, u) then !Serves(start, subnet, v) || start == [SourceRule(cfg, subnet, v)]
            else !(v < u)
  {
    var two: seq<Option<Token>> := [Some(u), Some(v)];
    var once := Wanted(cfg, t, subnet, Some(u));
    assert two[..1] == [Some(u)];
    assert RunReconciles(cfg, t, subnet, two[..1]) == once;
    assert RunReconciles(cfg, t, subnet, two) == Wanted(cfg, once, subnet, Some(v));
    SourceStep(cfg, t, subnet, Some(u));
    SourceStep(cfg, once, subnet, Some(v));
    SourceRuleCarries(cfg.sourcePriority, subnet, u, v);
    SourceRuleCarries(cfg.sourcePriority, subnet, v, u);
    SourceRuleCarries(cfg.sourcePriority, subnet, v, v);
    if SourceRule(cfg, subnet, u) == SourceRule(cfg, subnet, v) {
      assert u == v by {
        assert u <= v && v <= u;
      }
    }
  }
}

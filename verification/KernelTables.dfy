/**
 The kernel state that the network reconciler drives, and the `ip` and `iptables` commands it uses.
 Only the shape of the commands is available to the programs: list as text, insert at the head,
 append, delete the first match.
 */
module KernelTables {
  import opened Wrappers
  import opened Sequences
  import opened Text

  /** A policy routing rule; `body` is what `ip rule show` prints after the priority. */
  datatype IpRule = IpRule(priority: nat, body: string)

  /** An iptables rule, as the tokens of its printed specification. */
  type Rule = seq<Token>

  /** The value of the three lists. */
  datatype Tables = Tables(rules: seq<IpRule>, forward: seq<Rule>, postrouting: seq<Rule>)

  // ---- Printing ----

  const APPEND: Token := "-A"
  const FORWARD: Token := "FORWARD"

  function PriorityToken(priority: nat): string {
    Decimal(priority) + ":"
  }

  function ShowIpRule(r: IpRule): string {
    PriorityToken(r.priority) + ("\t" + r.body)
  }

  function PolicyLine(policy: Token): string {
    "-P FORWARD " + policy
  }

  function ShowRule(r: Rule): string {
    APPEND + Spaced([FORWARD] + r)
  }

  /** The first token of a printed policy rule identifies its priority. */
  lemma ShownPriority(r: IpRule, priority: nat)
    ensures FirstToken(ShowIpRule(r)) == Some(PriorityToken(priority)) <==> r.priority == priority
  {
    var w := PriorityToken(r.priority);
    assert forall c :: c in w ==> IsDigit(c) || c == ':';
    SplitTokenThen(w, "\t" + r.body);
    if w == PriorityToken(priority) {
      assert w[..|w| - 1] == Decimal(r.priority);
      assert PriorityToken(priority)[..|w| - 1] == Decimal(priority);
      DecimalInjective(r.priority, priority);
    }
  }

  /** The tokens of a printed FORWARD rule are `-A FORWARD` and its specification. */
  lemma ShownRule(r: Rule)
    ensures SplitWhitespace(ShowRule(r)) == [APPEND, FORWARD] + r
  {
    SplitTokenThen(APPEND, Spaced([FORWARD] + r));
    SplitSpaced([FORWARD] + r);
    assert [APPEND] + ([FORWARD] + r) == [APPEND, FORWARD] + r;
  }

  // ---- List operations behind the commands ----

  /** `list` without its first element satisfying `p`, if there is one. */
  function RemoveFirst<T(!new)>(list: seq<T>, p: T -> bool): (r: seq<T>)
    ensures |r| == if exists x :: x in list && p(x) then |list| - 1 else |list|
  {
    if list == [] then []
    else if p(list[0]) then list[1..]
    else [list[0]] + RemoveFirst(list[1..], p)
  }

  /** Where `ip rule add` puts a rule: before the first rule of larger priority. */
  function InsertByPriority(rules: seq<IpRule>, r: IpRule): seq<IpRule> {
    if rules == [] || r.priority < rules[0].priority then [r] + rules
    else [rules[0]] + InsertByPriority(rules[1..], r)
  }

  function Is<T(==)>(x: T): T -> bool {
    y => y == x
  }

  function IsNot<T(==)>(x: T): T -> bool {
    y => y != x
  }

  function HasPriority(priority: nat): IpRule -> bool {
    (r: IpRule) => r.priority == priority
  }

  function OtherPriority(priority: nat): IpRule -> bool {
    (r: IpRule) => r.priority != priority
  }

  /** Deleting one match does not change what remains once all matches are gone. */
  lemma {:induction false} FilterAfterRemoveFirst<T(!new)>(list: seq<T>, p: T -> bool, q: T -> bool)
    requires forall x :: p(x) ==> !q(x)
    ensures Filter(RemoveFirst(list, p), q) == Filter(list, q)
  {
    if list != [] && !p(list[0]) {
      var rest := RemoveFirst(list[1..], p);
      assert RemoveFirst(list, p) == [list[0]] + rest;
      FilterAfterRemoveFirst(list[1..], p, q);
    }
  }

  /** An insertion is seen by a filter exactly when the filter keeps the new rule. */
  lemma {:induction false} FilterInsert(rules: seq<IpRule>, r: IpRule, q: IpRule -> bool)
    requires forall x :: x in rules ==> !q(x) || !q(r)
    ensures Filter(InsertByPriority(rules, r), q) == if q(r) then [r] else Filter(rules, q)
  {
    if rules == [] || r.priority < rules[0].priority {
      assert ([r] + rules)[1..] == rules;
      if q(r) {
        FilterNone(rules, q);
      }
    } else {
      FilterInsert(rules[1..], r, q);
    }
  }

  predicate Sorted(rules: seq<IpRule>) {
    forall i, j :: 0 <= i < j < |rules| ==> rules[i].priority <= rules[j].priority
  }

  lemma {:induction false} InsertSorted(rules: seq<IpRule>, r: IpRule)
    requires Sorted(rules)
    ensures Sorted(InsertByPriority(rules, r))
    ensures forall x :: x in InsertByPriority(rules, r) <==> x in rules || x == r
  {
    if !(rules == [] || r.priority < rules[0].priority) {
      var rest := InsertByPriority(rules[1..], r);
      InsertSorted(rules[1..], r);
      forall x | x in rest ensures rules[0].priority <= x.priority {
      }
      var all := [rules[0]] + rest;
      forall i, j | 0 <= i < j < |all| ensures all[i].priority <= all[j].priority {
        assert all[j] in rest;
        if i > 0 {
          assert all[i] == rest[i - 1] && all[j] == rest[j - 1];
        }
      }
    }
  }

  lemma {:induction false} FilterSorted(rules: seq<IpRule>, q: IpRule -> bool)
    requires Sorted(rules)
    ensures Sorted(Filter(rules, q))
  {
    if rules != [] {
      var rest := Filter(rules[1..], q);
      FilterSorted(rules[1..], q);
      forall x | x in rest ensures rules[0].priority <= x.priority {
      }
      assert Filter(rules, q) == (if q(rules[0]) then [rules[0]] else []) + rest;
    }
  }

  // ---- The kernel ----

  class Kernel {
    var rules: seq<IpRule>
    var forward: seq<Rule>
    var postrouting: seq<Rule>
    var policy: Token  // the default policy of FORWARD, printed first

    constructor (tables: Tables, policy: Token)
      ensures Value() == tables && this.policy == policy
    {
      rules, forward, postrouting := tables.rules, tables.forward, tables.postrouting;
      this.policy := policy;
    }

    function Value(): Tables
      reads this
    {
      Tables(rules, forward, postrouting)
    }

    /** Another program rewrites all lists, as Android's netd may. */
    method Overwrite(tables: Tables)
      modifies this
      ensures Value() == tables
    {
      rules, forward, postrouting := tables.rules, tables.forward, tables.postrouting;
    }

    /** `ip rule show`, as lines. */
    method IpRuleShow() returns (lines: seq<string>)
      ensures |lines| == |rules|
      ensures forall i :: 0 <= i < |rules| ==> lines[i] == ShowIpRule(rules[i])
    {
      lines := seq(|rules|, i requires 0 <= i < |rules| reads this => ShowIpRule(rules[i]));
    }

    /** `ip rule del priority P` */
    method IpRuleDel(priority: nat) returns (ok: bool)
      modifies this`rules
      ensures ok == exists r :: r in old(rules) && HasPriority(priority)(r)
      ensures rules == RemoveFirst(old(rules), HasPriority(priority))
    {
      var before := |rules|;
      rules := RemoveFirst(rules, HasPriority(priority));
      ok := |rules| < before;
      if !ok {
        NothingRemoved(old(rules), HasPriority(priority));
      }
    }

    /** `ip rule add BODY priority P` */
    method IpRuleAdd(priority: nat, body: string)
      modifies this`rules
      ensures rules == InsertByPriority(old(rules), IpRule(priority, body))
    {
      rules := InsertByPriority(rules, IpRule(priority, body));
    }

    /** `iptables -S FORWARD`, as lines: the policy and then the rules. */
    method ListForward() returns (lines: seq<string>)
      ensures |lines| == |forward| + 1
      ensures lines[0] == PolicyLine(policy)
      ensures forall i :: 0 <= i < |forward| ==> lines[i + 1] == ShowRule(forward[i])
    {
      var shown := seq(|forward|, i requires 0 <= i < |forward| reads this => ShowRule(forward[i]));
      lines := [PolicyLine(policy)] + shown;
    }

    /** `iptables -D FORWARD SPEC` */
    method DeleteForward(spec: Rule) returns (ok: bool)
      modifies this`forward
      ensures ok == (spec in old(forward))
      ensures forward == RemoveFirst(old(forward), Is(spec))
    {
      ok := spec in forward;
      forward := RemoveFirst(forward, Is(spec));
    }

    /** `iptables -I FORWARD SPEC` */
    method InsertForward(spec: Rule)
      modifies this`forward
      ensures forward == [spec] + old(forward)
    {
      forward := [spec] + forward;
    }

    /** `iptables -t nat -D POSTROUTING SPEC` */
    method DeletePostrouting(spec: Rule) returns (ok: bool)
      modifies this`postrouting
      ensures ok == (spec in old(postrouting))
      ensures postrouting == RemoveFirst(old(postrouting), Is(spec))
    {
      ok := spec in postrouting;
      postrouting := RemoveFirst(postrouting, Is(spec));
    }

    /** `iptables -t nat -A POSTROUTING SPEC` */
    method AppendPostrouting(spec: Rule)
      modifies this`postrouting
      ensures postrouting == old(postrouting) + [spec]
    {
      postrouting := postrouting + [spec];
    }
  }

  lemma {:induction false} NothingRemoved<T(!new)>(list: seq<T>, p: T -> bool)
    requires forall x :: x in list ==> !p(x)
    ensures RemoveFirst(list, p) == list
  {
    if list != [] {
      NothingRemoved(list[1..], p);
    }
  }
}

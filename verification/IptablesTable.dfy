/** `IptablesTable`: the in-memory rules and chains of one table of one component,
    and the floating-address rules that are added to and removed from it. */
module IptablesTable {
  import opened Lists
  import opened Text
  import opened SaveText

  /** `_wrap_target_chain` on every space-separated word: `$name` is this
      component's chain `name`. */
  function WrapTargetChain(binary: string, word: string): string {
    if StartsWith(word, "$") then binary + "-" + word[1..] else word
  }

  function WrapWords(binary: string, words: seq<string>): seq<string> {
    seq(|words|, i requires 0 <= i < |words| => WrapTargetChain(binary, words[i]))
  }

  function WrapTargets(binary: string, rule: string): string {
    if '$' in rule then Join(WrapWords(binary, Split(rule, ' ')), ' ') else rule
  }

  function JumpSnippet(binary: string, name: string, wrap: bool): string {
    if wrap then "-j " + binary + "-" + name else "-j " + name
  }

  /** Exactly when, word by word and with no word added or lost, the `$` targets and
      nothing else are replaced: unless a component's name with a space meets a target. */
  lemma WrapTargetsWordsIff(binary: string, rule: string)
    ensures Split(WrapTargets(binary, rule), ' ') == WrapWords(binary, Split(rule, ' ')) <==>
      ' ' !in binary || forall w :: w in Split(rule, ' ') ==> !StartsWith(w, "$")
  {
    var words := Split(rule, ' ');
    if forall w :: w in words ==> !StartsWith(w, "$") {
      assert WrapWords(binary, words) == words;
      JoinSplit(rule, ' ');
    } else if ' ' !in binary {
      WrapTargetsWords(binary, rule);
    } else {
      var w :| w in words && StartsWith(w, "$");
      var i :| 0 <= i < |words| && words[i] == w;
      SplitParts(WrapTargets(binary, rule), ' ');
      assert ' ' in WrapWords(binary, words)[i];
      assert WrapWords(binary, words)[i] in WrapWords(binary, words);
    }
  }

  /** Each word that starts with `$` becomes the component's name, a dash and the rest of
      the word; all others stay. */
  lemma WrapTargetsWords(binary: string, rule: string)
    requires ' ' !in binary
    ensures Split(WrapTargets(binary, rule), ' ') == WrapWords(binary, Split(rule, ' '))
    ensures var words, wrapped := Split(rule, ' '), Split(WrapTargets(binary, rule), ' ');
      && |wrapped| == |words|
      && forall i :: 0 <= i < |words| ==>
           wrapped[i] == if words[i] != "" && words[i][0] == '$' then binary + "-" + words[i][1..] else words[i]
  {
    var words := Split(rule, ' ');
    SplitParts(rule, ' ');
    forall i | 0 <= i < |words| ensures ' ' !in WrapTargetChain(binary, words[i]) {
      assert words[i] in words;
    }
    if '$' in rule {
      SplitJoin(WrapWords(binary, words), ' ');
    } else {
      forall i | 0 <= i < |words| ensures !StartsWith(words[i], "$") {
        if StartsWith(words[i], "$") {
          assert words[i][0] in words[i];
          SplitCharacters(rule, ' ', i);
        }
      }
      assert WrapWords(binary, words) == words;
    }
  }

  lemma {:induction false} SplitCharacters(s: string, c: char, i: nat)
    requires i < |Split(s, c)|
    ensures forall x :: x in Split(s, c)[i] ==> x in s
  {
    if s != [] {
      if s[0] == c {
        if i > 0 { SplitCharacters(s[1..], c, i - 1); }
      } else {
        SplitCharacters(s[1..], c, i);
      }
    }
  }

  /** The table after a run of `remove_rule` calls. */
  function RemoveEach(rules: seq<IptablesRule>, gone: seq<IptablesRule>): seq<IptablesRule>
    decreases |gone|
  {
    if gone == [] then rules else RemoveEach(RemoveFirst(rules, gone[0]), gone[1..])
  }

  /** Rules that were appended and are then removed leave the rules that were there
      before, as a multiset; and as a list when none of them was there before. */
  lemma {:induction false} AddThenRemove(rules: seq<IptablesRule>, added: seq<IptablesRule>)
    ensures multiset(RemoveEach(rules + added, added)) == multiset(rules)
    ensures (forall r :: r in added ==> r !in rules) ==> RemoveEach(rules + added, added) == rules
    decreases |added|
  {
    if added == [] {
      assert rules + added == rules;
    } else {
      var x, rest := added[0], added[1..];
      assert added == [x] + rest;
      RemoveFirstAppend(rules, added, x);
      if x in rules {
        // the older copy goes, and the newer one takes part in the rest of the run
        var older := RemoveFirst(rules, x);
        assert multiset(older + [x]) == multiset(rules) by { RemoveFirstMultiset(rules, x); }
        assert RemoveFirst(rules + added, x) == older + [x] + rest;
        AddThenRemove(older + [x], rest);
      } else {
        assert RemoveFirst(rules + added, x) == rules + rest;
        AddThenRemove(rules, rest);
      }
    }
  }

  lemma {:induction false} RemoveEachMultiset(rules: seq<IptablesRule>, gone: seq<IptablesRule>)
    ensures multiset(RemoveEach(rules, gone)) == multiset(rules) - multiset(gone)
    decreases |gone|
  {
    if gone != [] {
      RemoveFirstMultiset(rules, gone[0]);
      RemoveEachMultiset(RemoveFirst(rules, gone[0]), gone[1..]);
      assert gone == [gone[0]] + gone[1..];
    }
  }

  /** When only the first `n` rules were appended and all are removed, the rules are
      what they were, as a multiset, exactly if none of the others was there before. */
  lemma PartlyAdded(rules: seq<IptablesRule>, added: seq<IptablesRule>, n: nat)
    requires n <= |added|
    ensures multiset(RemoveEach(rules + added[..n], added)) == multiset(rules) <==>
      forall r :: r in added[n..] ==> r !in rules
  {
    RemoveEachMultiset(rules + added[..n], added);
    assert added == added[..n] + added[n..];
    assert multiset(RemoveEach(rules + added[..n], added)) == multiset(rules) - multiset(added[n..]);
    if r :| r in added[n..] && r in rules {
      assert r in multiset(added[n..]) && r in multiset(rules);
      assert (multiset(rules) - multiset(added[n..]))[r] < multiset(rules)[r];
    } else {
      forall r | r in multiset(added[n..]) ensures r !in multiset(rules) { assert r in added[n..]; }
      assert multiset(rules) - multiset(added[n..]) == multiset(rules);
    }
  }

  /** `floating_forward_rules`: the chain and the rule text of each. */
  function FloatingForwardRules(floatingIp: string, fixedIp: string): seq<(string, string)> {
    [("PREROUTING", "-d " + floatingIp + " -j DNAT --to " + fixedIp),
     ("OUTPUT", "-d " + floatingIp + " -j DNAT --to " + fixedIp),
     ("floating-snat", "-s " + fixedIp + " -j SNAT --to " + floatingIp)]
  }

  function FloatingRules(floatingIp: string, fixedIp: string): (rules: seq<IptablesRule>)
    ensures |rules| == 3
  {
    var pairs := FloatingForwardRules(floatingIp, fixedIp);
    seq(|pairs|, i requires 0 <= i < |pairs| => IptablesRule(pairs[i].0, pairs[i].1, true, false))
  }

  /** The forwarding, word by word: what is sent to the floating address goes to the fixed
      one, and what the fixed one sends comes from the floating one. */
  lemma FloatingWords(floatingIp: string, fixedIp: string)
    requires ' ' !in floatingIp && ' ' !in fixedIp
    ensures var all := FloatingRules(floatingIp, fixedIp);
      && all[0].chain == "PREROUTING" && all[1].chain == "OUTPUT" && all[2].chain == "floating-snat"
      && Split(all[0].rule, ' ') == ["-d", floatingIp, "-j", "DNAT", "--to", fixedIp]
      && Split(all[1].rule, ' ') == ["-d", floatingIp, "-j", "DNAT", "--to", fixedIp]
      && Split(all[2].rule, ' ') == ["-s", fixedIp, "-j", "SNAT", "--to", floatingIp]
      && forall r :: r in all ==> r.wrap && !r.top
  {
    hide Split;
    SixWords("-d", floatingIp, "DNAT", fixedIp);
    SixWords("-s", fixedIp, "SNAT", floatingIp);
    SameText("-d", floatingIp, "DNAT", fixedIp);
    SameText("-s", fixedIp, "SNAT", floatingIp);
    assert "-d" + " " == "-d " && "-s" + " " == "-s ";
    assert " -j " + "DNAT" + " --to " == " -j DNAT --to " && " -j " + "SNAT" + " --to " == " -j SNAT --to ";
  }

  lemma SameText(flag: string, a: string, jump: string, b: string)
    ensures flag + " " + a + " -j " + jump + " --to " + b == (flag + " ") + a + (" -j " + jump + " --to ") + b
  {}

  lemma SixWords(flag: string, a: string, jump: string, b: string)
    requires ' ' !in flag && ' ' !in a && ' ' !in jump && ' ' !in b
    ensures Split(flag + " " + a + " -j " + jump + " --to " + b, ' ') == [flag, a, "-j", jump, "--to", b]
  {
    hide Split;
    var words := [flag, a, "-j", jump, "--to", b];
    assert flag + " " + a + " -j " + jump + " --to " + b
      == flag + [' '] + (a + [' '] + ("-j" + [' '] + (jump + [' '] + ("--to" + [' '] + b))));
    SplitPlain(b, ' ');
    SplitAt("--to", b, ' ');
    SplitAt(jump, "--to" + [' '] + b, ' ');
    SplitAt("-j", jump + [' '] + ("--to" + [' '] + b), ' ');
    SplitAt(a, "-j" + [' '] + (jump + [' '] + ("--to" + [' '] + b)), ' ');
    SplitAt(flag, a + [' '] + ("-j" + [' '] + (jump + [' '] + ("--to" + [' '] + b))), ' ');
  }

  lemma NoTargets(binary: string, floatingIp: string, fixedIp: string, i: nat)
    requires '$' !in floatingIp && '$' !in fixedIp && i < 3
    ensures var text := FloatingForwardRules(floatingIp, fixedIp)[i].1; WrapTargets(binary, text) == text
  {
    assert '$' !in FloatingForwardRules(floatingIp, fixedIp)[i].1;
  }

  /** The rules as `add_rule` stores them. */
  function Wrapped(binary: string, rules: seq<IptablesRule>): seq<IptablesRule> {
    seq(|rules|, i requires 0 <= i < |rules| => rules[i].(rule := WrapTargets(binary, rules[i].rule)))
  }

  /** Addresses without `$` are stored as they are, and found again when removed. */
  lemma StoredAsGiven(binary: string, floatingIp: string, fixedIp: string)
    requires '$' !in floatingIp && '$' !in fixedIp
    ensures Wrapped(binary, FloatingRules(floatingIp, fixedIp)) == FloatingRules(floatingIp, fixedIp)
  {
    hide WrapTargets;
    var all := FloatingRules(floatingIp, fixedIp);
    forall i | 0 <= i < |all| ensures Wrapped(binary, all)[i] == all[i] {
      NoTargets(binary, floatingIp, fixedIp, i);
    }
  }

  /** How many of the leading rules are for declared chains. */
  function Accepted(rules: seq<IptablesRule>, chains: set<string>): (n: nat)
    ensures n <= |rules|
    ensures forall i :: 0 <= i < n ==> rules[i].chain in chains
    ensures n < |rules| ==> rules[n].chain !in chains
  {
    if rules == [] || rules[0].chain !in chains then 0 else 1 + Accepted(rules[1..], chains)
  }

  class Table {
    const binary: string
    var rules: seq<IptablesRule>
    var chains: set<string>
    var unwrappedChains: set<string>

    /** Every wrapped rule is in a declared chain. */
    ghost predicate Valid()
      reads this
    {
      forall r :: r in rules && r.wrap ==> r.chain in chains
    }

    constructor (binary: string)
      ensures Valid() && this.binary == binary
      ensures rules == [] && chains == {} && unwrappedChains == {}
    {
      this.binary := binary;
      rules, chains, unwrappedChains := [], {}, {};
    }

    method AddChain(name: string, wrap: bool)
      requires Valid()
      modifies this`chains, this`unwrappedChains
      ensures Valid()
      ensures chains == if wrap then old(chains) + {name} else old(chains)
      ensures unwrappedChains == if wrap then old(unwrappedChains) else old(unwrappedChains) + {name}
    {
      if wrap {
        chains := chains + {name};
      } else {
        unwrappedChains := unwrappedChains + {name};
      }
    }

    /** The chain goes, with every rule in a chain of that name and every rule
        that jumps to it; an unknown chain changes nothing. */
    method RemoveChain(name: string, wrap: bool)
      requires Valid()
      modifies this
      ensures Valid()
      ensures name !in (if wrap then old(chains) else old(unwrappedChains)) ==>
        rules == old(rules) && chains == old(chains) && unwrappedChains == old(unwrappedChains)
      ensures name in (if wrap then old(chains) else old(unwrappedChains)) ==>
        && chains == (if wrap then old(chains) - {name} else old(chains))
        && unwrappedChains == (if wrap then old(unwrappedChains) else old(unwrappedChains) - {name})
        && rules == Filter(old(rules), (r: IptablesRule) =>
             r.chain != name && !Contains(r.rule, if wrap then "-j " + binary + "-" + name else "-j " + name))
    {
      var chainSet := if wrap then chains else unwrappedChains;
      if name !in chainSet {
        return;
      }
      if wrap {
        chains := chains - {name};
      } else {
        unwrappedChains := unwrappedChains - {name};
      }
      var stays := (r: IptablesRule) => r.chain != name;
      var jumpSnippet := JumpSnippet(binary, name, wrap);
      var noJump := (r: IptablesRule) => !Contains(r.rule, jumpSnippet);
      FilterFilter(rules, stays, noJump, (r: IptablesRule) =>
        r.chain != name && !Contains(r.rule, if wrap then "-j " + binary + "-" + name else "-j " + name));
      forall r ensures r in Filter(Filter(rules, stays), noJump) ==> r in rules && r.chain != name {
        FilterMember(rules, stays, r);
        FilterMember(Filter(rules, stays), noJump, r);
      }
      rules := Filter(rules, stays);
      rules := Filter(rules, noJump);
    }

    /** `ok` is false when the source raises: a wrapped rule for an unknown chain. */
    method AddRule(chain: string, rule: string, wrap: bool, top: bool) returns (ok: bool)
      requires Valid()
      modifies this`rules
      ensures Valid()
      ensures ok <==> !wrap || chain in chains
      ensures rules == if ok then old(rules) + [IptablesRule(chain, WrapTargets(binary, rule), wrap, top)]
                       else old(rules)
    {
      if wrap && chain !in chains {
        return false;
      }
      rules := rules + [IptablesRule(chain, WrapTargets(binary, rule), wrap, top)];
      return true;
    }

    /** A rule that is not there is merely logged. */
    method RemoveRule(chain: string, rule: string, wrap: bool, top: bool)
      requires Valid()
      modifies this`rules
      ensures Valid()
      ensures rules == RemoveFirst(old(rules), IptablesRule(chain, rule, wrap, top))
    {
      RemoveFirstMembers(rules, IptablesRule(chain, rule, wrap, top));
      rules := RemoveFirst(rules, IptablesRule(chain, rule, wrap, top));
    }

    /** One removal of the first equal rule for each rule of the chain amounts to
        filtering the chain's rules out. */
    method EmptyChain(chain: string, wrap: bool)
      requires Valid()
      modifies this`rules
      ensures Valid()
      ensures rules == Filter(old(rules), (r: IptablesRule) => !(r.chain == chain && r.wrap == wrap))
    {
      var here := (r: IptablesRule) => r.chain == chain && r.wrap == wrap;
      ghost var elsewhere := (r: IptablesRule) => !(r.chain == chain && r.wrap == wrap);
      var chainedRules := Filter(rules, here);
      for i := 0 to |chainedRules|
        invariant Filter(rules, here) == chainedRules[i..]
        invariant Filter(rules, elsewhere) == Filter(old(rules), elsewhere)
      {
        assert chainedRules[i] in chainedRules;
        FilterMember(old(rules), here, chainedRules[i]);
        RemoveFirstFilter(rules, chainedRules[i], here);
        RemoveFirstFilter(rules, chainedRules[i], elsewhere);
        rules := RemoveFirst(rules, chainedRules[i]);
      }
      forall r | r in rules ensures elsewhere(r) { FilterMember(rules, here, r); }
      FilterAll(rules, elsewhere);
      forall r ensures r in rules ==> r in old(rules) { FilterMember(old(rules), elsewhere, r); }
    }

    /** Stops at the first rule whose chain is unknown. */
    method EnsureFloatingForward(floatingIp: string, fixedIp: string) returns (ok: bool)
      requires Valid()
      modifies this`rules
      ensures Valid()
      ensures ok <==> Accepted(FloatingRules(floatingIp, fixedIp), chains) == 3
      ensures rules == old(rules)
        + Wrapped(binary, FloatingRules(floatingIp, fixedIp))[..Accepted(FloatingRules(floatingIp, fixedIp), chains)]
    {
      var pairs := FloatingForwardRules(floatingIp, fixedIp);
      ghost var all := FloatingRules(floatingIp, fixedIp);
      ghost var stored := Wrapped(binary, all);
      hide WrapTargets;
      for i := 0 to |pairs|
        invariant Valid()
        invariant rules == old(rules) + stored[..i]
        invariant i <= Accepted(all, chains)
      {
        assert all[i].chain == pairs[i].0;
        ok := AddRule(pairs[i].0, pairs[i].1, true, false);
        if !ok { return; }
        assert stored[..i + 1] == stored[..i] + [stored[i]];
      }
      return true;
    }

    method RemoveFloatingForward(floatingIp: string, fixedIp: string)
      requires Valid()
      modifies this`rules
      ensures Valid()
      ensures rules == RemoveEach(old(rules), FloatingRules(floatingIp, fixedIp))
    {
      var pairs := FloatingForwardRules(floatingIp, fixedIp);
      ghost var all := FloatingRules(floatingIp, fixedIp);
      for i := 0 to |pairs|
        invariant Valid()
        invariant RemoveEach(rules, all[i..]) == RemoveEach(old(rules), all)
      {
        assert all[i..][1..] == all[i + 1..];
        RemoveRule(pairs[i].0, pairs[i].1, true, false);
      }
    }

    /** An address is forwarded and the forwarding removed again. When every chain is
        known, the rules are what they were, as a list if none of the three was there
        before; in any case, as a multiset, exactly if none of the rules that were not
        added was there before. */
    method ForwardAndBack(floatingIp: string, fixedIp: string) returns (ok: bool)
      requires Valid()
      modifies this`rules
      ensures Valid()
      ensures ok <==> Accepted(FloatingRules(floatingIp, fixedIp), chains) == 3
      ensures var all := FloatingRules(floatingIp, fixedIp);
        rules == RemoveEach(old(rules) + Wrapped(binary, all)[..Accepted(all, chains)], all)
      ensures '$' !in floatingIp + fixedIp ==> var all := FloatingRules(floatingIp, fixedIp);
        && (ok ==> multiset(rules) == multiset(old(rules)))
        && (ok && (forall r :: r in all ==> r !in old(rules)) ==> rules == old(rules))
        && (multiset(rules) == multiset(old(rules)) <==>
              forall r :: r in all[Accepted(all, chains)..] ==> r !in old(rules))
    {
      ghost var all := FloatingRules(floatingIp, fixedIp);
      hide RemoveEach, Accepted, FloatingRules, Wrapped, WrapTargets;
      ok := EnsureFloatingForward(floatingIp, fixedIp);
      RemoveFloatingForward(floatingIp, fixedIp);
      if '$' !in floatingIp + fixedIp {
        StoredAsGiven(binary, floatingIp, fixedIp);
        PartlyAdded(old(rules), all, Accepted(all, chains));
        assert |all| == 3 && all[..3] == all;
        AddThenRemove(old(rules), all);
      }
    }
  }

  /** A forwarding that fails for want of a chain, and is then removed, can take a rule
      that was there before. */
  lemma RemovalTakesOlderRule(floatingIp: string, fixedIp: string)
    ensures var all := FloatingRules(floatingIp, fixedIp);
      && Accepted(all, {"PREROUTING", "floating-snat"}) == 1
      && multiset(RemoveEach([all[2]] + all[..1], all)) != multiset([all[2]])
  {
    var all := FloatingRules(floatingIp, fixedIp);
    assert all[1].chain == "OUTPUT";
    assert all[1..][1] == all[2] && all[2] in all[1..];
    PartlyAdded([all[2]], all, 1);
  }
}

/** `IptablesManager._modify_rules`: rewriting `iptables-save` text so that this
    component's chains and rules, and no others of its own, are in it. */
module SaveText {
  import opened Lists
  import opened Text

  datatype IptablesRule = IptablesRule(chain: string, rule: string, wrap: bool, top: bool)

  type Line = string

  /** `str(rule)`; `binary` is the name of the component's executable. */
  function RuleLine(binary: string, r: IptablesRule): Line {
    "-A " + (if r.wrap then binary + "-" + r.chain else r.chain) + " " + r.rule
  }

  function WrappedDeclaration(binary: string, name: string): Line {
    ":" + binary + "-" + name + " - [0:0]"
  }

  function Declaration(name: string): Line {
    ":" + name + " - [0:0]"
  }

  /** A table as `_modify_rules` sees it: the name of the component's executable,
      the two chain sets in the order in which they are enumerated, the rules. */
  datatype TableView = TableView(binary: string, chains: seq<string>, unwrapped: seq<string>, rules: seq<IptablesRule>)

  function WrappedDeclarations(binary: string, names: seq<string>): seq<Line> {
    seq(|names|, i requires 0 <= i < |names| => WrappedDeclaration(binary, names[i]))
  }

  function Declarations(names: seq<string>): seq<Line> {
    seq(|names|, i requires 0 <= i < |names| => Declaration(names[i]))
  }

  function RuleLines(binary: string, rules: seq<IptablesRule>): seq<Line> {
    seq(|rules|, i requires 0 <= i < |rules| => RuleLine(binary, rules[i]))
  }

  /** The stripped lines of the rules that are to be at the top. */
  function TopKeys(binary: string, rules: seq<IptablesRule>): set<string> {
    if rules == [] then {}
    else
      var r := rules[|rules| - 1];
      TopKeys(binary, rules[..|rules| - 1]) + if r.top then {Strip(RuleLine(binary, r))} else {}
  }

  function Keys(s: seq<Line>): set<string> {
    set l | l in s :: Strip(l)
  }

  /** The lines without those whose stripped form is in `ks`. */
  function Drop(s: seq<Line>, ks: set<string>): seq<Line> {
    Filter(s, l => Strip(l) !in ks)
  }

  function Foreign(binary: string, s: seq<Line>): seq<Line> {
    Filter(s, l => !Contains(l, binary))
  }

  /** Of lines with the same stripped form, only the last. */
  function KeepLast(s: seq<Line>): seq<Line> {
    if s == [] then []
    else if Strip(s[0]) in Keys(s[1..]) then KeepLast(s[1..])
    else [s[0]] + KeepLast(s[1..])
  }

  lemma KeysAppend(a: seq<Line>, b: seq<Line>)
    ensures Keys(a + b) == Keys(a) + Keys(b)
  {
    forall k | k in Keys(a) + Keys(b) ensures k in Keys(a + b) {
      if k in Keys(a) {
        var l :| l in a && Strip(l) == k;
        assert l in a + b;
      } else {
        var l :| l in b && Strip(l) == k;
        assert l in a + b;
      }
    }
  }

  lemma DropDrop(s: seq<Line>, ks: set<string>, more: set<string>)
    ensures Drop(Drop(s, ks), more) == Drop(s, ks + more)
  {
    FilterFilter(s, l => Strip(l) !in ks, l => Strip(l) !in more, l => Strip(l) !in ks + more);
  }

  lemma {:induction false} DropOne(s: seq<Line>, key: string)
    ensures Filter(s, l => Strip(l) != key) == Drop(s, {key})
  {
    if s != [] { DropOne(s[1..], key); }
  }

  predicate IsChain(l: Line) {
    StartsWith(l, ":")
  }

  function Run(s: seq<Line>, chains: bool): nat {
    if s != [] && IsChain(s[0]) == chains then 1 + Run(s[1..], chains) else 0
  }

  lemma {:induction false} RunBound(s: seq<Line>, chains: bool)
    ensures Run(s, chains) <= |s|
    ensures forall i :: 0 <= i < Run(s, chains) ==> IsChain(s[i]) == chains
    ensures Run(s, chains) < |s| ==> IsChain(s[Run(s, chains)]) != chains
  {
    if s != [] && IsChain(s[0]) == chains { RunBound(s[1..], chains); }
  }

  /** The first line after the first run of chain declarations; when the text ends
      before it, the index of the last line. */
  function RulesIndex(s: seq<Line>): nat {
    RunBound(s, false);
    var start := Run(s, false);
    var end := start + Run(s[start..], true);
    if end < |s| then end else if s == [] then 0 else |s| - 1
  }

  /** `s[at:at] = inserted`. */
  function Splice(s: seq<Line>, at: nat, inserted: seq<Line>): seq<Line> {
    if at <= |s| then s[..at] + inserted + s[at..] else s + inserted
  }

  /** The text that `_modify_rules` returns. */
  function Modified(v: TableView, lines: seq<Line>): seq<Line> {
    KeepLast(Spliced(v, Foreign(v.binary, lines)))
  }

  function Spliced(v: TableView, kept: seq<Line>): seq<Line> {
    var at := RulesIndex(kept);
    var withRules := Splice(Drop(kept, TopKeys(v.binary, v.rules)), at, RuleLines(v.binary, v.rules));
    Splice(Splice(withRules, at, Declarations(v.unwrapped)), at, WrappedDeclarations(v.binary, v.chains))
  }

  method ModifyRules(v: TableView, currentLines: seq<Line>) returns (newFilter: seq<Line>)
    ensures newFilter == Modified(v, currentLines)
  {
    var kept := Foreign(v.binary, currentLines);
    var rulesIndex := FindRulesIndex(kept);
    newFilter := kept;
    var ourRules := [];
    FilterAll(kept, l => Strip(l) !in TopKeys(v.binary, []));
    for i := 0 to |v.rules|
      invariant newFilter == Drop(kept, TopKeys(v.binary, v.rules[..i]))
      invariant ourRules == RuleLines(v.binary, v.rules[..i])
    {
      var rule := v.rules[i];
      var ruleStr := RuleLine(v.binary, rule);
      assert v.rules[..i + 1][..i] == v.rules[..i];
      assert !rule.top ==> TopKeys(v.binary, v.rules[..i + 1]) == TopKeys(v.binary, v.rules[..i]);
      if rule.top {
        var key := Strip(ruleStr);
        DropDrop(kept, TopKeys(v.binary, v.rules[..i]), {key});
        DropOne(newFilter, key);
        newFilter := Filter(newFilter, l => Strip(l) != key);
      }
      ourRules := ourRules + [ruleStr];
    }
    assert v.rules[..|v.rules|] == v.rules;
    newFilter := Splice(newFilter, rulesIndex, ourRules);
    newFilter := Splice(newFilter, rulesIndex, Declarations(v.unwrapped));
    newFilter := Splice(newFilter, rulesIndex, WrappedDeclarations(v.binary, v.chains));
    newFilter := WeedOutDuplicates(newFilter);
  }

  /** The first loop of `_modify_rules`. */
  method FindRulesIndex(kept: seq<Line>) returns (rulesIndex: nat)
    ensures rulesIndex == RulesIndex(kept)
  {
    ghost var start := Run(kept, false);
    RunBound(kept, false);
    ghost var end := start + Run(kept[start..], true);
    RunBound(kept[start..], true);
    var seenChains := false;
    rulesIndex := 0;
    for i := 0 to |kept|
      invariant rulesIndex == if i == 0 then 0 else i - 1
      invariant if seenChains then start < i <= end else i <= start
    {
      rulesIndex := i;
      assert start <= i < end ==> kept[i] == kept[start..][i - start];
      assert i == end < |kept| ==> kept[i] == kept[start..][end - start];
      if !seenChains {
        if IsChain(kept[i]) { seenChains := true; }
      } else if !IsChain(kept[i]) {
        break;
      }
    }
  }

  lemma WeedStep(reversed: seq<Line>, i: nat, kept: seq<Line>)
    requires i < |reversed| && Reverse(kept) == KeepLast(Reverse(reversed[..i]))
    ensures var later := Reverse(reversed[..i]); var next := Reverse(reversed[..i + 1]);
      && Keys(next) == Keys(later) + {Strip(reversed[i])}
      && KeepLast(next) == if Strip(reversed[i]) in Keys(later) then Reverse(kept) else Reverse(kept + [reversed[i]])
  {
    hide Strip;
    var x, later := reversed[i], Reverse(reversed[..i]);
    assert reversed[..i + 1][..i] == reversed[..i];
    assert Reverse(reversed[..i + 1]) == [x] + later;
    KeysAppend([x], later);
    assert ([x] + later)[1..] == later;
    assert (kept + [x])[..|kept|] == kept;
  }

  /** Reverse, keep each line the first time it is seen, and reverse again. */
  method WeedOutDuplicates(lines: seq<Line>) returns (weeded: seq<Line>)
    ensures weeded == KeepLast(lines)
  {
    var reversed := Reverse(lines);
    var seenLines: set<string> := {};
    var kept := [];
    for i := 0 to |reversed|
      invariant seenLines == Keys(Reverse(reversed[..i]))
      invariant Reverse(kept) == KeepLast(Reverse(reversed[..i]))
    {
      WeedStep(reversed, i, kept);
      if Strip(reversed[i]) !in seenLines {
        seenLines := seenLines + {Strip(reversed[i])};
        kept := kept + [reversed[i]];
      }
    }
    assert reversed[..|reversed|] == reversed;
    ReverseReverse(lines);
    weeded := Reverse(kept);
  }
}

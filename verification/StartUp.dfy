/** The chains and rules that `IptablesManager` sets up, and whether rewriting save text
    with them settles at once. */
module StartUp {
  import opened IptablesTable
  import opened Lists
  import opened SaveText
  import opened SaveTextLaws
  import opened Text

  /** An unwrapped rule of a built-in chain that jumps to this component's chain. */
  function Jump(binary: string, chain: string, target: string): IptablesRule {
    IptablesRule(chain, "-j " + binary + "-" + target, false, false)
  }

  function Jumps(binary: string, chains: seq<string>): seq<IptablesRule> {
    seq(|chains|, i requires 0 <= i < |chains| => Jump(binary, chains[i], chains[i]))
  }

  function TopRules(binary: string): seq<IptablesRule> {
    [IptablesRule("FORWARD", "-j nova-filter-top", false, true),
     IptablesRule("OUTPUT", "-j nova-filter-top", false, true),
     Jump(binary, "nova-filter-top", "local")]
  }

  const FILTER_CHAINS := ["INPUT", "OUTPUT", "FORWARD"]

  const NAT_CHAINS := ["PREROUTING", "OUTPUT", "POSTROUTING"]

  function FilterRules(binary: string): seq<IptablesRule> {
    TopRules(binary) + Jumps(binary, FILTER_CHAINS)
  }

  const BOTTOM := IptablesRule("POSTROUTING", "-j nova-postrouting-bottom", false, false)

  function SnatRules(binary: string): seq<IptablesRule> {
    [Jump(binary, "nova-postrouting-bottom", "snat"), Jump(binary, "snat", "floating-snat").(wrap := true)]
  }

  function NatRules(binary: string): seq<IptablesRule> {
    Jumps(binary, NAT_CHAINS) + [BOTTOM] + SnatRules(binary)
  }

  // ---------- setting the tables up ----------

  /** A jump to `$target` is stored as one to the component's chain. */
  lemma JumpStored(binary: string, target: string)
    requires PlainName(target)
    ensures WrapTargets(binary, "-j " + "$" + target) == "-j " + binary + "-" + target
  {
    var rule, word := "-j " + "$" + target, "$" + target;
    assert rule == "-j" + [' '] + word && rule[3] == '$';
    SplitAt("-j", word, ' ');
    SplitPlain(word, ' ');
    var words := Split(rule, ' ');
    assert words == ["-j", word];
    assert WrapWords(binary, words) == ["-j", binary + "-" + target] by { assert word[1..] == target; }
    JoinHead("-j", [binary + "-" + target], ' ');
    assert Join([binary + "-" + target], ' ') == binary + "-" + target;
    assert "-j" + [' '] + (binary + "-" + target) == "-j " + binary + "-" + target;
  }

  method AddJump(t: Table, chain: string, target: string, wrap: bool) returns (ok: bool)
    requires t.Valid() && PlainName(target)
    modifies t`rules
    ensures t.Valid() && (ok <==> !wrap || chain in t.chains)
    ensures t.rules == if ok then old(t.rules) + [Jump(t.binary, chain, target).(wrap := wrap)] else old(t.rules)
  {
    JumpStored(t.binary, target);
    ok := t.AddRule(chain, "-j " + "$" + target, wrap, false);
  }

  lemma PlainRules(binary: string)
    ensures WrapTargets(binary, "-j nova-filter-top") == "-j nova-filter-top"
    ensures WrapTargets(binary, "-j nova-postrouting-bottom") == "-j nova-postrouting-bottom"
  {
    assert '$' !in "-j nova-filter-top" && '$' !in "-j nova-postrouting-bottom";
  }

  predicate PlainName(name: string) {
    ' ' !in name && '$' !in name
  }

  /** Wraps the built-in chains. */
  method WrapChains(t: Table, names: seq<string>)
    requires t.Valid() && forall n :: n in names ==> PlainName(n)
    modifies t`rules, t`chains, t`unwrappedChains
    ensures t.Valid() && t.unwrappedChains == old(t.unwrappedChains)
    ensures t.chains == old(t.chains) + set n | n in names
    ensures t.rules == old(t.rules) + Jumps(t.binary, names)
  {
    for i := 0 to |names|
      invariant t.Valid() && t.unwrappedChains == old(t.unwrappedChains)
      invariant t.chains == old(t.chains) + set n | n in names[..i]
      invariant t.rules == old(t.rules) + Jumps(t.binary, names[..i])
    {
      assert names[..i + 1] == names[..i] + [names[i]] && PlainName(names[i]);
      assert Jumps(t.binary, names[..i + 1]) == Jumps(t.binary, names[..i]) + [Jump(t.binary, names[i], names[i])];
      t.AddChain(names[i], true);
      var ok := AddJump(t, names[i], names[i], false);
    }
    assert names[..|names|] == names;
  }

  lemma PlainNames()
    ensures PlainName("local") && PlainName("snat") && PlainName("floating-snat")
    ensures forall n :: n in FILTER_CHAINS || n in NAT_CHAINS ==> PlainName(n)
  {}

  lemma JumpIs(binary: string, chain: string, target: string, suffix: string)
    requires suffix == "-" + target
    ensures Jump(binary, chain, target) == IptablesRule(chain, "-j " + binary + suffix, false, false)
  {
    assert "-j " + binary + "-" + target == "-j " + binary + suffix;
  }

  /** The start-up rules of the filter table. */
  lemma FilterRulesAre(binary: string)
    ensures FilterRules(binary) == [
      IptablesRule("FORWARD", "-j nova-filter-top", false, true),
      IptablesRule("OUTPUT", "-j nova-filter-top", false, true),
      IptablesRule("nova-filter-top", "-j " + binary + "-local", false, false),
      IptablesRule("INPUT", "-j " + binary + "-INPUT", false, false),
      IptablesRule("OUTPUT", "-j " + binary + "-OUTPUT", false, false),
      IptablesRule("FORWARD", "-j " + binary + "-FORWARD", false, false)]
  {
    JumpIs(binary, "nova-filter-top", "local", "-local");
    JumpIs(binary, "INPUT", "INPUT", "-INPUT");
    JumpIs(binary, "OUTPUT", "OUTPUT", "-OUTPUT");
    JumpIs(binary, "FORWARD", "FORWARD", "-FORWARD");
  }

  /** The start-up rules of the nat table. */
  lemma NatRulesAre(binary: string)
    ensures NatRules(binary) == [
      IptablesRule("PREROUTING", "-j " + binary + "-PREROUTING", false, false),
      IptablesRule("OUTPUT", "-j " + binary + "-OUTPUT", false, false),
      IptablesRule("POSTROUTING", "-j " + binary + "-POSTROUTING", false, false),
      IptablesRule("POSTROUTING", "-j nova-postrouting-bottom", false, false),
      IptablesRule("nova-postrouting-bottom", "-j " + binary + "-snat", false, false),
      IptablesRule("snat", "-j " + binary + "-floating-snat", true, false)]
  {
    JumpIs(binary, "PREROUTING", "PREROUTING", "-PREROUTING");
    JumpIs(binary, "OUTPUT", "OUTPUT", "-OUTPUT");
    JumpIs(binary, "POSTROUTING", "POSTROUTING", "-POSTROUTING");
    JumpIs(binary, "nova-postrouting-bottom", "snat", "-snat");
    JumpIs(binary, "snat", "floating-snat", "-floating-snat");
  }

  /** The filter table, of either protocol. */
  method SetUpFilter(binary: string) returns (t: Table)
    ensures fresh(t) && t.Valid() && t.binary == binary
    ensures t.rules == FilterRules(binary)
    ensures t.chains == {"local", "INPUT", "OUTPUT", "FORWARD"}
    ensures t.unwrappedChains == {"nova-filter-top"}
  {
    hide WrapTargets, PlainName, Jumps;
    PlainRules(binary);
    PlainNames();
    t := new Table(binary);
    t.AddChain("nova-filter-top", false);
    var ok := t.AddRule("FORWARD", "-j nova-filter-top", false, true);
    ok := t.AddRule("OUTPUT", "-j nova-filter-top", false, true);
    t.AddChain("local", true);
    ok := AddJump(t, "nova-filter-top", "local", false);
    assert t.rules == TopRules(binary);
    WrapChains(t, FILTER_CHAINS);
  }

  /** The nat table, of the first protocol only. */
  method SetUpNat(binary: string) returns (t: Table)
    ensures fresh(t) && t.Valid() && t.binary == binary
    ensures t.rules == NatRules(binary)
    ensures t.chains == {"PREROUTING", "OUTPUT", "POSTROUTING", "snat", "floating-snat"}
    ensures t.unwrappedChains == {"nova-postrouting-bottom"}
  {
    hide WrapTargets, PlainName, Jumps;
    PlainRules(binary);
    PlainNames();
    t := new Table(binary);
    WrapChains(t, NAT_CHAINS);
    t.AddChain("nova-postrouting-bottom", false);
    var ok := t.AddRule("POSTROUTING", "-j nova-postrouting-bottom", false, false);
    ghost var before := t.rules;
    assert before == Jumps(binary, NAT_CHAINS) + [BOTTOM];
    t.AddChain("snat", true);
    ok := AddJump(t, "nova-postrouting-bottom", "snat", false);
    t.AddChain("floating-snat", true);
    ok := AddJump(t, "snat", "floating-snat", true);
    assert t.rules == before + SnatRules(binary);
  }

  // ---------- rewriting save text with them ----------

  lemma JumpMentions(binary: string, r: IptablesRule, target: string)
    requires !r.wrap && r.rule == "-j " + binary + "-" + target
    ensures Contains(RuleLine(binary, r), binary)
  {
    var before, behind := "-A " + r.chain + " -j ", "-" + target;
    assert RuleLine(binary, r) == before + binary + behind;
    ContainsMiddle(before, binary, behind);
  }

  /** The filter table settles at once, whatever the text and whatever other components
      have put into it. */
  lemma FilterSettlesAtOnce(binary: string, chains: seq<string>, unwrapped: seq<string>, s: Save)
    requires WellFormed(binary, s)
    ensures var v := TableView(binary, chains, unwrapped, FilterRules(binary));
      Modified(v, Modified(v, s.Text())) == Modified(v, s.Text())
  {
    hide Contains, RuleLine, WellFormed, Modified;
    var rs := FilterRules(binary);
    forall r | r in rs ensures r.top || Contains(RuleLine(binary, r), binary) {
      if r in TopRules(binary) {
        JumpMentions(binary, Jump(binary, "nova-filter-top", "local"), "local");
      } else {
        var i :| 0 <= i < |FILTER_CHAINS| && r == Jump(binary, FILTER_CHAINS[i], FILTER_CHAINS[i]);
        JumpMentions(binary, r, FILTER_CHAINS[i]);
      }
    }
    ClaimedSettlesAtOnce(TableView(binary, chains, unwrapped, rs), s);
  }

  function BottomLine(binary: string): Line {
    RuleLine(binary, BOTTOM)
  }

  lemma LinesAppend(binary: string, a: seq<IptablesRule>, b: seq<IptablesRule>)
    ensures RuleLines(binary, a + b) == RuleLines(binary, a) + RuleLines(binary, b)
  {}

  lemma NatHasNoTops(binary: string)
    ensures TopKeys(binary, NatRules(binary)) == {}
  {
    NoTops(binary, NatRules(binary));
  }

  lemma {:induction false} NoTops(binary: string, rules: seq<IptablesRule>)
    requires forall r :: r in rules ==> !r.top
    ensures TopKeys(binary, rules) == {}
  {
    if rules != [] { NoTops(binary, rules[..|rules| - 1]); }
  }

  lemma SnatLines(binary: string)
    ensures var b := RuleLines(binary, SnatRules(binary));
      && |b| == 2 && Contains(b[0], binary) && Contains(b[1], binary)
      && Strip(b[0]) == b[0] && Strip(b[1]) == b[1]
      && Strip(BottomLine(binary)) == BottomLine(binary) && BottomLine(binary) !in b
  {
    var rs := SnatRules(binary);
    var b := RuleLines(binary, rs);
    JumpMentions(binary, rs[0], "snat");
    WrappedMentions(binary, rs[1]);
    hide Contains, Strip;
    assert b[0][0] == '-' && b[0][|b[0]| - 1] == 't';
    assert b[1][0] == '-' && b[1][|b[1]| - 1] == 't';
    var bottom := BottomLine(binary);
    assert bottom[0] == '-' && bottom[|bottom| - 1] == 'm';
    StripVisible(b[0]);
    StripVisible(b[1]);
    StripVisible(bottom);
  }

  /** A line that mentions the component is none that others have left. */
  lemma NotForeign(binary: string, s: seq<Line>, l: Line)
    requires Contains(l, binary) && Strip(l) == l
    ensures l !in Keys(Foreign(binary, s))
  {
    hide Contains, Strip;
    forall f | f in Foreign(binary, s) ensures Strip(f) != l {
      FilterMember(s, x => !Contains(x, binary), f);
      if Contains(Strip(f), binary) { ContainsStripped(f, binary); }
    }
  }

  /** For the nat table: exactly when another component has put the jump to the shared
      bottom chain there already, or that line happens to mention the component. */
  lemma NatSettlesAtOnceIff(binary: string, chains: seq<string>, unwrapped: seq<string>, s: Save)
    requires WellFormed(binary, s)
    ensures var v := TableView(binary, chains, unwrapped, NatRules(binary));
      var bottom := "-A POSTROUTING -j nova-postrouting-bottom";
      Modified(v, Modified(v, s.Text())) == Modified(v, s.Text()) <==>
        Contains(bottom, binary) || exists l :: l in s.rest && !Contains(l, binary) && Strip(l) == bottom
  {
    hide *;
    BottomIs(binary, s.rest);
    NatSettlesIff(binary, chains, unwrapped, s);
  }

  lemma NatSettlesIff(binary: string, chains: seq<string>, unwrapped: seq<string>, s: Save)
    requires WellFormed(binary, s)
    ensures var v := TableView(binary, chains, unwrapped, NatRules(binary));
      Modified(v, Modified(v, s.Text())) == Modified(v, s.Text()) <==>
        Contains(BottomLine(binary), binary) || BottomLine(binary) in Keys(Foreign(binary, s.rest))
  {
    var v := TableView(binary, chains, unwrapped, NatRules(binary));
    NatHasNoTops(binary);
    SnatLines(binary);
    TwiceIsOnceIff(v, s);
    hide *;
    if Contains(BottomLine(binary), binary) || BottomLine(binary) in Keys(Foreign(binary, s.rest)) {
      NatAllClaimed(v, s);
    } else {
      NatBottomInFront(v, s);
    }
  }

  lemma BottomText(binary: string)
    ensures BottomLine(binary) == "-A POSTROUTING -j nova-postrouting-bottom"
  {
    assert BottomLine(binary) == "-A " + "POSTROUTING" + " " + "-j nova-postrouting-bottom";
    assert "-A " + "POSTROUTING" == "-A POSTROUTING";
    assert "-A POSTROUTING" + " " == "-A POSTROUTING ";
    assert "-A POSTROUTING " + "-j nova-postrouting-bottom" == "-A POSTROUTING -j nova-postrouting-bottom";
  }

  lemma BottomIs(binary: string, rest: seq<Line>)
    ensures BottomLine(binary) == "-A POSTROUTING -j nova-postrouting-bottom"
    ensures BottomLine(binary) in Keys(Foreign(binary, rest)) <==>
      exists l :: l in rest && !Contains(l, binary) && Strip(l) == "-A POSTROUTING -j nova-postrouting-bottom"
  {
    hide Contains, Strip;
    BottomText(binary);
    forall l ensures l in Foreign(binary, rest) <==> l in rest && !Contains(l, binary) {
      FilterMember(rest, x => !Contains(x, binary), l);
    }
  }

  lemma NatRest(v: TableView, s: Save)
    requires TopKeys(v.binary, v.rules) == {}
    ensures Trim(v, s).rest == Foreign(v.binary, s.rest) && Tops(v) == {}
  {
    FilterAll(Foreign(v.binary, s.rest), l => Strip(l) !in Tops(v));
  }

  lemma NatLineMentions(binary: string, l: Line)
    requires l in RuleLines(binary, NatRules(binary))
    ensures Contains(l, binary) || l == BottomLine(binary)
  {
    NatLines(binary);
    SnatLines(binary);
    hide Contains, RuleLine, NatRules, SnatRules, Strip;
    if l in RuleLines(binary, Jumps(binary, NAT_CHAINS)) {
      var i :| 0 <= i < |NAT_CHAINS| && l == RuleLine(binary, Jump(binary, NAT_CHAINS[i], NAT_CHAINS[i]));
      JumpMentions(binary, Jump(binary, NAT_CHAINS[i], NAT_CHAINS[i]), NAT_CHAINS[i]);
    }
  }

  lemma NatAllClaimed(v: TableView, s: Save)
    requires v.rules == NatRules(v.binary)
    requires Contains(BottomLine(v.binary), v.binary) || BottomLine(v.binary) in Keys(Foreign(v.binary, s.rest))
    ensures forall l :: l in Inserted(v, s) ==> !Unclaimed(v, l)
  {
    hide Contains, Strip, KeepLast, Foreign, Trim, Tops, RuleLine, NatRules, BottomLine, RuleLines;
    var lines := RuleLines(v.binary, v.rules);
    NatHasNoTops(v.binary);
    NatRest(v, s);
    SnatLines(v.binary);
    KeepLastMembers(lines);
    forall l | l in Inserted(v, s) ensures Contains(l, v.binary) {
      DropMember(KeepLast(lines), Keys(Trim(v, s).rest), l);
      NatLineMentions(v.binary, l);
    }
  }

  lemma NatParts(v: TableView, s: Save)
    requires v.rules == NatRules(v.binary) && !Contains(BottomLine(v.binary), v.binary)
    ensures var a := RuleLines(v.binary, Jumps(v.binary, NAT_CHAINS)) + [BottomLine(v.binary)];
      var b := RuleLines(v.binary, SnatRules(v.binary));
      && Inserted(v, s) == Drop(KeepLast(a + b), Keys(Foreign(v.binary, s.rest)))
      && |b| == 2 && Unclaimed(v, BottomLine(v.binary)) && !Unclaimed(v, b[1])
  {
    hide Contains, Strip, KeepLast, Foreign, Drop, RuleLine, Jumps, Keys, Trim;
    NatHasNoTops(v.binary);
    NatRest(v, s);
    SnatLines(v.binary);
    NatLines(v.binary);
  }

  lemma BothIn(first: seq<Line>, second: seq<Line>, x: Line, y: Line) returns (i: nat, j: nat)
    requires x in first && y in second
    ensures i < j < |first + second| && (first + second)[i] == x && (first + second)[j] == y
  {
    i :| 0 <= i < |first| && first[i] == x;
    var k :| 0 <= k < |second| && second[k] == y;
    j := |first| + k;
  }

  lemma NatBottomInFront(v: TableView, s: Save)
    requires v.rules == NatRules(v.binary)
    requires !Contains(BottomLine(v.binary), v.binary) && BottomLine(v.binary) !in Keys(Foreign(v.binary, s.rest))
    ensures var first := Inserted(v, s);
      exists i, j :: 0 <= i < j < |first| && Unclaimed(v, first[i]) && !Unclaimed(v, first[j])
  {
    hide *;
    var bin, bottom, ks := v.binary, BottomLine(v.binary), Keys(Foreign(v.binary, s.rest));
    var a, b := RuleLines(bin, Jumps(bin, NAT_CHAINS)) + [bottom], RuleLines(bin, SnatRules(bin));
    NatParts(v, s);
    SnatLines(bin);
    NotForeign(bin, s.rest, b[1]);
    TwoKept(a, b, ks, bottom);
    var first, second := Drop(Drop(KeepLast(a), Keys(b)), ks), Drop(KeepLast(b), ks);
    var i, j := BothIn(first, second, bottom, b[1]);
    assert Inserted(v, s)[i] == bottom && Inserted(v, s)[j] == b[1];
  }

  lemma NatLines(binary: string)
    ensures RuleLines(binary, NatRules(binary))
      == RuleLines(binary, Jumps(binary, NAT_CHAINS)) + [BottomLine(binary)] + RuleLines(binary, SnatRules(binary))
  {
    LinesAppend(binary, Jumps(binary, NAT_CHAINS) + [BOTTOM], SnatRules(binary));
    LinesAppend(binary, Jumps(binary, NAT_CHAINS), [BOTTOM]);
  }

  /** The bottom line is kept in the first part, and the last line in the second. */
  lemma TwoKept(a: seq<Line>, b: seq<Line>, ks: set<string>, bottom: Line)
    requires a != [] && a[|a| - 1] == bottom && |b| == 2
    requires Strip(bottom) == bottom && Strip(b[0]) == b[0] && Strip(b[1]) == b[1]
    requires bottom !in b && bottom !in ks && b[1] !in ks
    ensures Drop(KeepLast(a + b), ks) == Drop(Drop(KeepLast(a), Keys(b)), ks) + Drop(KeepLast(b), ks)
    ensures bottom in Drop(Drop(KeepLast(a), Keys(b)), ks)
    ensures b[1] in Drop(KeepLast(b), ks)
  {
    hide Strip;
    KeepLastAppend(a, b);
    DropAppend(Drop(KeepLast(a), Keys(b)), KeepLast(b), ks);
    LastStays(a);
    LastStays(b);
    DropMember(KeepLast(a), Keys(b), bottom);
    DropMember(Drop(KeepLast(a), Keys(b)), ks, bottom);
    DropMember(KeepLast(b), ks, b[1]);
    assert forall l :: l in b ==> l == b[0] || l == b[1];
  }

  lemma {:induction false} LastStays(s: seq<Line>)
    requires s != []
    ensures s[|s| - 1] in KeepLast(s)
  {
    if |s| > 1 {
      LastStays(s[1..]);
    }
  }

  lemma CharactersOf(s: string, sub: string, c: char)
    requires Contains(s, sub) && c in sub
    ensures c in s
  {
    var i :| 0 <= i <= |s| - |sub| && OccursAt(s, sub, i);
    var k :| 0 <= k < |sub| && sub[k] == c;
    assert s[i..i + |sub|][k] == s[i + k];
  }

  lemma Lacks(s: string, sub: string, c: char)
    requires c in sub && c !in s
    ensures !Contains(s, sub)
  {
    if Contains(s, sub) { CharactersOf(s, sub, c); }
  }

  /** On an empty nat table, the first component to come does not settle at once. */
  lemma NatDoesNotSettleAtOnce(chains: seq<string>, unwrapped: seq<string>)
    ensures var s := Save(["*nat"], [":POSTROUTING ACCEPT"], ["COMMIT"]);
      var v := TableView("nova-network", chains, unwrapped, NatRules("nova-network"));
      WellFormed("nova-network", s) && Modified(v, Modified(v, s.Text())) != Modified(v, s.Text())
  {
    hide *;
    var s := Save(["*nat"], [":POSTROUTING ACCEPT"], ["COMMIT"]);
    EmptyNat(s);
    BottomLacks();
    NatSettlesIff("nova-network", chains, unwrapped, s);
  }

  lemma BottomLacks()
    ensures !Contains(BottomLine("nova-network"), "nova-network")
    ensures BottomLine("nova-network") != "COMMIT"
  {
    hide Contains;
    var bottom, binary := BottomLine("nova-network"), "nova-network";
    assert 'w' !in "-A " && 'w' !in "POSTROUTING" && 'w' !in " " && 'w' !in "-j nova-postrouting-bottom";
    assert bottom == "-A " + "POSTROUTING" + " " + "-j nova-postrouting-bottom";
    assert binary[8] == 'w' && bottom[0] == '-' && "COMMIT"[0] == 'C';
    Lacks(bottom, binary, 'w');
  }

  lemma EmptyNat(s: Save)
    requires s == Save(["*nat"], [":POSTROUTING ACCEPT"], ["COMMIT"])
    ensures WellFormed("nova-network", s)
    ensures Keys(Foreign("nova-network", s.rest)) <= {"COMMIT"}
  {
    var binary := "nova-network";
    assert binary[0] == 'n';
    hide Strip, Contains;
    StripVisible("COMMIT");
    StripVisible("*nat");
    assert "COMMIT"[0] == 'C' && "*nat"[0] == '*';
    Lacks(":POSTROUTING ACCEPT", binary, 'n');
    Lacks("COMMIT", binary, 'n');
    assert s.chains[0] in s.chains && s.rest[0] in s.rest;
    forall l | l in Foreign(binary, s.rest) ensures l == "COMMIT" {
      FilterMember(s.rest, x => !Contains(x, binary), l);
    }
  }
}

/** What `_modify_rules` returns, line by line and in the lines' own words. */
module SaveTextContents {
  import Lists
  import opened SaveText
  import opened SaveTextLaws
  import opened Text

  /** A line that somebody else has put into the text. */
  ghost predicate FromOthers(binary: string, lines: seq<Line>, k: string) {
    exists l :: l in lines && !Contains(l, binary) && k == Strip(l)
  }

  /** The declaration of one of the component's chains, or of a shared one. */
  ghost predicate OwnDeclaration(v: TableView, k: string) {
    || (exists n :: n in v.chains && k == ":" + v.binary + "-" + n + " - [0:0]")
    || (exists n :: n in v.unwrapped && k == ":" + n + " - [0:0]")
  }

  /** One of the rules, appended to its chain: to the component's own one if it is
      wrapped. */
  ghost predicate OwnRule(v: TableView, k: string) {
    exists r :: r in v.rules && k == Strip("-A " + ActualChain(v, r) + " " + r.rule)
  }

  function ActualChain(v: TableView, r: IptablesRule): string {
    if r.wrap then v.binary + "-" + r.chain else r.chain
  }

  ghost predicate Present(s: seq<Line>, k: string) {
    exists l :: l in s && Strip(l) == k
  }

  lemma PresentIff(s: seq<Line>, k: string)
    ensures Present(s, k) <==> k in Keys(s)
  {}

  lemma OthersKeys(binary: string, lines: seq<Line>, k: string)
    ensures k in Keys(Foreign(binary, lines)) <==> FromOthers(binary, lines, k)
  {
    forall l ensures l in Foreign(binary, lines) <==> l in lines && !Contains(l, binary) {
      FilterIn(binary, lines, l);
    }
  }

  lemma FilterIn(binary: string, lines: seq<Line>, l: Line)
    ensures l in Foreign(binary, lines) <==> l in lines && !Contains(l, binary)
  {
    Lists.FilterMember(lines, x => !Contains(x, binary), l);
  }

  lemma DeclarationKeys(v: TableView, k: string)
    ensures k in Keys(Decls(v)) <==> OwnDeclaration(v, k)
  {
    hide Strip;
    DeclarationLines(v);
    var ws, us := WrappedDeclarations(v.binary, v.chains), Declarations(v.unwrapped);
    KeysAppend(ws, us);
    if k in Keys(ws) {
      var l :| l in ws && Strip(l) == k;
      assert l in Decls(v);
      var i :| 0 <= i < |ws| && ws[i] == l;
      assert v.chains[i] in v.chains;
    }
    if k in Keys(us) {
      var l :| l in us && Strip(l) == k;
      assert l in Decls(v);
      var i :| 0 <= i < |us| && us[i] == l;
      assert v.unwrapped[i] in v.unwrapped;
    }
    if n :| n in v.chains && k == ":" + v.binary + "-" + n + " - [0:0]" {
      var i :| 0 <= i < |v.chains| && v.chains[i] == n;
      assert ws[i] == k && k in ws && k in Decls(v);
    }
    if n :| n in v.unwrapped && k == ":" + n + " - [0:0]" {
      var i :| 0 <= i < |v.unwrapped| && v.unwrapped[i] == n;
      assert us[i] == k && k in us && k in Decls(v);
    }
  }

  lemma OwnRuleKeys(v: TableView, k: string)
    ensures k in Keys(RuleLines(v.binary, v.rules)) <==> OwnRule(v, k)
  {
    hide Strip;
    var rs := RuleLines(v.binary, v.rules);
    if k in Keys(rs) {
      var l :| l in rs && Strip(l) == k;
      var i :| 0 <= i < |rs| && rs[i] == l;
      assert v.rules[i] in v.rules;
    }
    if r :| r in v.rules && k == Strip("-A " + ActualChain(v, r) + " " + r.rule) {
      var i :| 0 <= i < |v.rules| && v.rules[i] == r;
      assert rs[i] in rs;
    }
  }

  /** Stripped, the result has exactly the lines of others, the declarations of the
      table's chains and its rules. */
  lemma ModifiedExactly(v: TableView, lines: seq<Line>, k: string)
    ensures Present(Modified(v, lines), k) <==> FromOthers(v.binary, lines, k) || OwnDeclaration(v, k) || OwnRule(v, k)
  {
    hide Modified, FromOthers, OwnDeclaration, OwnRule, Present, Strip;
    ModifiedContents(v, lines);
    PresentIff(Modified(v, lines), k);
    OthersKeys(v.binary, lines, k);
    DeclarationKeys(v, k);
    OwnRuleKeys(v, k);
    KeysAppend(Decls(v), RuleLines(v.binary, v.rules));
    KeysAppend(RuleLines(v.binary, v.rules), Decls(v));
    OursKeys(v);
  }

  lemma OursKeys(v: TableView)
    ensures Keys(Ours(v)) == Keys(Decls(v)) + Keys(RuleLines(v.binary, v.rules))
  {
    KeysAppend(Decls(v), RuleLines(v.binary, v.rules));
  }

  /** So a rule for a chain of the table is appended to the very chain that is declared. */
  lemma RuleReachesItsChain(v: TableView, lines: seq<Line>, r: IptablesRule)
    requires r in v.rules && r.chain in (if r.wrap then v.chains else v.unwrapped)
    ensures var c := if r.wrap then v.binary + "-" + r.chain else r.chain;
      && Present(Modified(v, lines), ":" + c + " - [0:0]")
      && Present(Modified(v, lines), Strip("-A " + c + " " + r.rule))
  {
    hide Modified, Present, Strip;
    var c := if r.wrap then v.binary + "-" + r.chain else r.chain;
    if r.wrap {
      assert ":" + v.binary + "-" + r.chain + " - [0:0]" == ":" + (v.binary + "-" + r.chain) + " - [0:0]";
    }
    assert OwnDeclaration(v, ":" + c + " - [0:0]") && OwnRule(v, Strip("-A " + c + " " + r.rule));
    ModifiedExactly(v, lines, ":" + c + " - [0:0]");
    ModifiedExactly(v, lines, Strip("-A " + c + " " + r.rule));
  }

  // ---------- which copy stays ----------

  /** The position of the last line with this stripped form. */
  function LastAt(s: seq<Line>, k: string): (i: int)
    ensures -1 <= i < |s|
    ensures i >= 0 ==> Strip(s[i]) == k
    ensures forall j :: i < j < |s| ==> Strip(s[j]) != k
  {
    if s == [] then -1 else if Strip(s[|s| - 1]) == k then |s| - 1 else LastAt(s[..|s| - 1], k)
  }

  lemma LastAtHead(x: Line, s: seq<Line>, k: string)
    ensures LastAt([x] + s, k) == if LastAt(s, k) >= 0 then LastAt(s, k) + 1 else if Strip(x) == k then 0 else -1
  {
    hide *;
    var t := [x] + s;
    LastAtFinds(t, k);
    LastAtFinds(s, k);
    var i, j := LastAt(t, k), LastAt(s, k);
    if j >= 0 {
      assert t[j + 1] == s[j];
      assert i >= j + 1;
    }
    if i > 0 {
      assert t[i] == s[i - 1];
      assert i - 1 <= j;
    }
    assert t[0] == x;
  }

  lemma LastAtFinds(s: seq<Line>, k: string)
    ensures -1 <= LastAt(s, k) < |s|
    ensures LastAt(s, k) >= 0 ==> Strip(s[LastAt(s, k)]) == k
    ensures forall j :: LastAt(s, k) < j < |s| ==> Strip(s[j]) != k
  {}

  /** Each line is the last one of its stripped form, and they are in the old order. */
  ghost predicate LastOnes(s: seq<Line>, w: seq<Line>) {
    && (forall i :: 0 <= i < |w| ==> LastAt(s, Strip(w[i])) >= 0 && w[i] == s[LastAt(s, Strip(w[i]))])
    && (forall i, j :: 0 <= i < j < |w| ==> LastAt(s, Strip(w[i])) < LastAt(s, Strip(w[j])))
  }

  /** Weeding keeps, of equal stripped lines, the last one, in its place among the other
      lines that are kept. */
  lemma {:induction false} WeedingKeepsLast(s: seq<Line>)
    ensures LastOnes(s, KeepLast(s))
  {
    hide Strip, LastOnes;
    if s == [] {
      NoneLeft();
    } else {
      assert s == [s[0]] + s[1..];
      WeedingKeepsLast(s[1..]);
      LastOnesHead(s[0], s[1..], KeepLast(s[1..]));
    }
  }

  lemma NoneLeft()
    ensures LastOnes([], [])
  {}

  lemma LastOnesHead(x: Line, t: seq<Line>, w: seq<Line>)
    requires LastOnes(t, w)
    ensures LastOnes([x] + t, w)
    ensures Strip(x) !in Keys(t) ==> LastOnes([x] + t, [x] + w)
  {
    hide Strip, LastAt, Keys;
    forall i | 0 <= i < |w| ensures LastAt([x] + t, Strip(w[i])) == LastAt(t, Strip(w[i])) + 1 {
      LastAtHead(x, t, Strip(w[i]));
    }
    if Strip(x) !in Keys(t) {
      LastAtHead(x, t, Strip(x));
      NotLater(t, Strip(x));
    }
  }

  lemma NotLater(s: seq<Line>, k: string)
    requires k !in Keys(s)
    ensures LastAt(s, k) == -1
  {
    hide Strip;
    if LastAt(s, k) >= 0 { KeysMember(s, s[LastAt(s, k)]); }
  }

  // ---------- one text and its result ----------

  /** Save text, a table, and the text it becomes. */
  lemma SampleResult(v: TableView, s: Save)
    requires v == TableView("nova", ["local"], [],
      [IptablesRule("OUTPUT", "-j A", false, false), IptablesRule("local", "-j B", true, false)])
    requires s == Save(["*filter"], [":OUTPUT A"], ["COMMIT"])
    ensures Modified(v, ["*filter", ":OUTPUT A", "COMMIT"]) ==
      ["*filter", ":OUTPUT A", ":nova-local - [0:0]", "-A OUTPUT -j A", "-A nova-local -j B", "COMMIT"]
  {
    var plain, own := RuleLine("nova", v.rules[0]), RuleLine("nova", v.rules[1]);
    PlainText();
    OwnText();
    SampleText(s);
    hide *;
    SampleTable(v);
    SampleLines(plain, own);
    SampleWellFormed(s);
    SampleSections(v, s, plain, own);
    ModifiedSections(v, s);
    SixLines(Result(v, s));
  }

  lemma PlainText()
    ensures RuleLine("nova", IptablesRule("OUTPUT", "-j A", false, false)) == "-A OUTPUT -j A"
    ensures StartsWith("-A OUTPUT -j A", "-")
  {}

  lemma OwnText()
    ensures RuleLine("nova", IptablesRule("local", "-j B", true, false)) == "-A nova-local -j B"
    ensures StartsWith("-A nova-local -j B", "-")
  {}

  lemma DeclarationText()
    ensures WrappedDeclaration("nova", "local") == ":nova-local - [0:0]"
  {}

  lemma SampleText(s: Save)
    requires s == Save(["*filter"], [":OUTPUT A"], ["COMMIT"])
    ensures s.Text() == ["*filter", ":OUTPUT A", "COMMIT"]
  {}

  lemma SixLines(r: Save)
    requires r == Save(["*filter"], [":OUTPUT A", ":nova-local - [0:0]"],
      ["-A OUTPUT -j A", "-A nova-local -j B", "COMMIT"])
    ensures r.Text() ==
      ["*filter", ":OUTPUT A", ":nova-local - [0:0]", "-A OUTPUT -j A", "-A nova-local -j B", "COMMIT"]
  {}

  lemma SampleSections(v: TableView, s: Save, plain: Line, own: Line)
    requires v.binary == "nova" && v.chains == ["local"] && v.unwrapped == [] && Tops(v) == {}
    requires s == Save(["*filter"], [":OUTPUT A"], ["COMMIT"])
    requires RuleLines(v.binary, v.rules) == [plain, own]
    requires Strip(plain) == plain != own == Strip(own) && plain != "COMMIT" && own != "COMMIT"
    requires StartsWith(plain, "-") && StartsWith(own, "-")
    ensures Result(v, s) == Save(["*filter"], [":OUTPUT A", ":nova-local - [0:0]"], [plain, own, "COMMIT"])
  {
    hide Strip, Contains;
    assert "COMMIT"[0] == 'C' && "*filter"[0] == '*' && ":OUTPUT A"[1] == 'O' && ":nova-local - [0:0]"[1] == 'n';
    StripVisible("COMMIT");
    StripVisible("*filter");
    StripVisible(":OUTPUT A");
    StripVisible(":nova-local - [0:0]");
    PlainLines();
    SampleTrim(v, s);
    DeclarationText();
    assert Decls(v) == [WrappedDeclaration("nova", "local")];
    var rest := [plain, own, "COMMIT"];
    assert [plain, own] + ["COMMIT"] == rest;
    assert [":OUTPUT A"] + [":nova-local - [0:0]"] == [":OUTPUT A", ":nova-local - [0:0]"];
    KeepLastOfDistinct(rest);
    KeepLastOfDistinct([":OUTPUT A", ":nova-local - [0:0]"]);
    KeepLastOfDistinct(["*filter"]);
    DropNone(["*filter"], Keys(rest));
  }

  lemma SampleTrim(v: TableView, s: Save)
    requires v.binary == "nova" && Tops(v) == {}
    requires s == Save(["*filter"], [":OUTPUT A"], ["COMMIT"])
    ensures Trim(v, s) == s
  {
    hide Strip, Contains;
    PlainLines();
    assert "*filter"[0] == '*';
    NotContains("*filter", "nova");
    Lists.FilterAll(s.header, x => !Contains(x, "nova"));
    Lists.FilterAll(s.chains, x => !Contains(x, "nova"));
    Lists.FilterAll(s.rest, x => !Contains(x, "nova"));
    DropNone(s.rest, {});
  }
}

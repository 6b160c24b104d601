/** `filterServices`: comments out the definitions of a Nagios resource file whose
    host does not exist. */
module NagiosPurge {
  import opened Text
  import opened Wrappers

  predicate Opens(l: string) {
    StartsWith(Strip(l), "define ")
  }

  predicate Closes(l: string) {
    StartsWith(Strip(l), "}")
  }

  predicate NamesHost(l: string) {
    StartsWith(Strip(l), "host_name")
  }

  function FirstWord(s: string): string {
    if s == [] || IsSpace(s[0]) then [] else [s[0]] + FirstWord(s[1..])
  }

  lemma {:induction false} FirstWordPrefix(s: string)
    ensures |FirstWord(s)| <= |s|
  {
    if s != [] { FirstWordPrefix(s[1..]); }
  }

  /** `strippedLine.split(None, 2)[1]`; `None` when there is no second word. */
  function SecondWord(stripped: string): Option<string> {
    FirstWordPrefix(stripped);
    var word := FirstWord(StripLeft(stripped[|FirstWord(stripped)|..]));
    if word == [] then None else Some(word)
  }

  predicate HostMissing(l: string, hosts: set<string>) {
    var host := SecondWord(Strip(l));
    host.None? || host.value !in hosts
  }

  // ---------- which line is which ----------

  ghost predicate Blank(s: string) {
    forall c :: c in s ==> c in {' ', '\t', '\n', '\r', 11 as char, 12 as char}
  }

  /** A text without blanks. */
  ghost predicate Word(s: string) {
    s != "" && forall c :: c in s ==> c !in {' ', '\t', '\n', '\r', 11 as char, 12 as char}
  }

  lemma WordVisible(s: string)
    requires Word(s)
    ensures forall i :: 0 <= i < |s| ==> !IsSpace(s[i])
  {
    forall i | 0 <= i < |s| ensures !IsSpace(s[i]) {
      assert s[i] in s;
      IsSpaceIff(s[i]);
    }
  }

  lemma BlankHead(s: string)
    requires Blank(s) && s != ""
    ensures IsSpace(s[0])
  {
    assert s[0] in s;
    IsSpaceIff(s[0]);
  }

  lemma {:induction false} FirstWordIs(w: string, rest: string)
    requires forall i :: 0 <= i < |w| ==> !IsSpace(w[i])
    requires rest != "" ==> IsSpace(rest[0])
    ensures FirstWord(w + rest) == w
  {
    if w == "" {
      assert w + rest == rest;
    } else {
      assert w + rest == [w[0]] + (w[1..] + rest);
      FirstWordIs(w[1..], rest);
    }
  }

  /** The host is the second word of the line, whatever follows it. */
  lemma SecondWordIs(first: string, gap: string, second: string, rest: string)
    requires Word(first) && Word(second) && Blank(gap) && gap != "" && (rest != "" ==> Blank(rest[..1]))
    ensures SecondWord(first + gap + second + rest) == Some(second)
  {
    var line, behind := first + gap + second + rest, gap + second + rest;
    WordVisible(first);
    WordVisible(second);
    BlankHead(gap);
    if rest != "" { BlankHead(rest[..1]); }
    assert line == first + behind;
    FirstWordIs(first, behind);
    assert line[|first|..] == behind == gap + (second + rest);
    forall c | c in gap ensures IsSpace(c) { IsSpaceIff(c); }
    StripLeftPadded(gap, second + rest);
    FirstWordIs(second, rest);
  }

  /** There is none in a line of one word. */
  lemma NoSecondWord(first: string, gap: string)
    requires Word(first) && Blank(gap)
    ensures SecondWord(first + gap) == None
  {
    WordVisible(first);
    if gap != "" { BlankHead(gap); }
    FirstWordIs(first, gap);
    assert (first + gap)[|first|..] == gap == gap + "";
    forall c | c in gap ensures IsSpace(c) { IsSpaceIff(c); }
    StripLeftPadded(gap, "");
  }

  /** What a line is, by the text between the blanks around it. */
  lemma LineIs(pad: string, text: string, end: string)
    requires Blank(pad) && Blank(end) && text != "" && Word([text[0]]) && Word([text[|text| - 1]])
    ensures Opens(pad + text + end) <==> exists x :: text == "define " + x
    ensures Closes(pad + text + end) <==> text[0] == '}'
    ensures NamesHost(pad + text + end) <==> exists x :: text == "host_name" + x
    ensures Strip(pad + text + end) == text
  {
    IsSpaceIff(text[0]);
    IsSpaceIff(text[|text| - 1]);
    assert text[0] in [text[0]] && text[|text| - 1] in [text[|text| - 1]];
    StripPadded(pad, text, end);
    StartsWithIff(text, "define ");
    StartsWithIff(text, "host_name");
    assert StartsWith(text, "}") <==> text[0] == '}' by {
      if text[0] == '}' { assert text == "}" + text[1..]; }
    }
  }

  /** A host is missing if the word behind `host_name` is none of the hosts. */
  lemma HostMissingIff(pad: string, gap: string, host: string, end: string, hosts: set<string>)
    requires Blank(pad) && Blank(gap) && gap != "" && Blank(end) && Word(host)
    ensures NamesHost(pad + ("host_name" + gap + host) + end)
    ensures HostMissing(pad + ("host_name" + gap + host) + end, hosts) <==> host !in hosts
  {
    var text := "host_name" + gap + host;
    assert text == "host_name" + (gap + host);
    assert text[0] == 'h' && text[|text| - 1] == host[|host| - 1] && host[|host| - 1] in host;
    LineIs(pad, text, end);
    assert text == "host_name" + gap + host + "";
    SecondWordIs("host_name", gap, host, "");
  }

  // ---------- the block-level specification ----------

  /** A definition opened before line `i` is still open there. */
  predicate InDefinition(lines: seq<string>, i: nat)
    requires i <= |lines|
  {
    exists c :: 0 <= c < i && Opens(lines[c]) && OpenFrom(lines, c, i)
  }

  predicate OpenFrom(lines: seq<string>, c: nat, i: nat)
    requires c <= i <= |lines|
  {
    forall k :: c <= k < i ==> !Closes(lines[k])
  }

  /** Every `host_name` line in a definition names a host. */
  predicate Readable(lines: seq<string>) {
    ReadableTo(lines, |lines|)
  }

  /** Every definition is closed. */
  predicate AllClosed(lines: seq<string>) {
    !InDefinition(lines, |lines|)
  }

  /** Line `h` is the last one before line `e` to name a host in its definition. */
  predicate LastHostName(lines: seq<string>, h: nat, e: nat)
    requires h < e <= |lines|
  {
    && InDefinition(lines, h) && NamesHost(lines[h]) && OpenFrom(lines, h, e)
    && forall k :: h < k < e ==> !NamesHost(lines[k])
  }

  /** Line `i` is in a definition, closing at line `e`, whose last host is missing. */
  predicate Condemned(lines: seq<string>, i: nat, e: nat, hosts: set<string>)
    requires i <= e < |lines|
  {
    && (InDefinition(lines, i) || Opens(lines[i]))
    && OpenFrom(lines, i, e) && Closes(lines[e])
    && Decided(lines, e, hosts)
  }

  function Comment(lines: seq<string>): seq<string> {
    seq(|lines|, i requires 0 <= i < |lines| => "#" + lines[i])
  }

  // ---------- the program ----------

  /** What the rest of the file adds to the output once a definition is open, with
      the lines of the definition so far and whether its host is missing. */
  function Resumed(buffer: seq<string>, purge: bool, rest: seq<string>, hosts: set<string>): seq<string>
    decreases |rest|
  {
    if rest == [] then []
    else if Closes(rest[0]) then
      var block := buffer + [rest[0]];
      (if purge then Comment(block) else block) + Filtered(rest[1..], hosts)
    else
      Resumed(buffer + [rest[0]], if NamesHost(rest[0]) then HostMissing(rest[0], hosts) else purge, rest[1..], hosts)
  }

  function Filtered(lines: seq<string>, hosts: set<string>): seq<string>
    decreases |lines|
  {
    if lines == [] then []
    else if Opens(lines[0]) then Resumed([lines[0]], false, lines[1..], hosts)
    else [lines[0]] + Filtered(lines[1..], hosts)
  }

  lemma OpeningLine(l: string)
    requires Opens(l)
    ensures !Closes(l) && !NamesHost(l)
  {
    assert Strip(l)[0] == "define "[0] == 'd';
    assert "}"[0] == '}' && "host_name"[0] == 'h';
  }

  /** What the remaining lines add to the output. */
  function Pending(inDefinition: bool, buffer: seq<string>, purge: bool, rest: seq<string>,
      hosts: set<string>): seq<string> {
    if inDefinition then Resumed(buffer, purge, rest, hosts) else Filtered(rest, hosts)
  }

  lemma OutsideLine(written: seq<string>, line: string, rest: seq<string>, hosts: set<string>)
    requires !Opens(line)
    ensures written + Pending(false, [], false, [line] + rest, hosts)
      == written + [line] + Pending(false, [], false, rest, hosts)
  {
    hide Opens;
    assert ([line] + rest)[1..] == rest;
  }

  lemma OpeningStep(line: string, rest: seq<string>, hosts: set<string>)
    requires Opens(line)
    ensures Pending(false, [], false, [line] + rest, hosts) == Pending(true, [], false, [line] + rest, hosts)
  {
    OpeningLine(line);
    assert ([line] + rest)[1..] == rest;
    assert [] + [line] == [line];
  }

  lemma ClosingStep(written: seq<string>, buffer: seq<string>, purge: bool, line: string, rest: seq<string>,
      hosts: set<string>)
    requires Closes(line)
    ensures var block := buffer + [line];
      written + Pending(true, buffer, purge, [line] + rest, hosts)
        == written + (if purge then Comment(block) else block) + Pending(false, [], false, rest, hosts)
  {
    hide Closes, Comment;
    assert ([line] + rest)[1..] == rest;
  }

  lemma InsideStep(buffer: seq<string>, purge: bool, line: string, rest: seq<string>, hosts: set<string>)
    requires !Closes(line)
    ensures Pending(true, buffer, purge, [line] + rest, hosts)
      == Pending(true, buffer + [line], if NamesHost(line) then HostMissing(line, hosts) else purge, rest, hosts)
  {
    hide Closes, NamesHost, HostMissing;
    assert ([line] + rest)[1..] == rest;
  }

  predicate ReadableTo(lines: seq<string>, n: nat)
    requires n <= |lines|
  {
    forall i :: 0 <= i < n && InDefinition(lines, i) && !Closes(lines[i]) && NamesHost(lines[i]) ==>
      SecondWord(Strip(lines[i])).Some?
  }

  lemma InDefinitionStep(lines: seq<string>, i: nat)
    requires i < |lines|
    ensures InDefinition(lines, i + 1) <==> (InDefinition(lines, i) || Opens(lines[i])) && !Closes(lines[i])
  {
    if Opens(lines[i]) {
      OpeningLine(lines[i]);
      assert OpenFrom(lines, i, i + 1);
    }
    if InDefinition(lines, i) && !Closes(lines[i]) {
      var c :| 0 <= c < i && Opens(lines[c]) && OpenFrom(lines, c, i);
      assert OpenFrom(lines, c, i + 1);
    }
    if InDefinition(lines, i + 1) {
      var c :| 0 <= c < i + 1 && Opens(lines[c]) && OpenFrom(lines, c, i + 1);
      assert c < i ==> OpenFrom(lines, c, i);
    }
  }

  /** `None` when a `host_name` line without a value makes the program fail. */
  method FilterServices(source: seq<string>, hosts: set<string>) returns (newFile: Option<seq<string>>)
    ensures newFile.Some? <==> Readable(source)
    ensures newFile.Some? ==> newFile.value == Filtered(source, hosts)
  {
    hide Filtered, Resumed, Pending, InDefinition, SecondWord, Strip, StartsWith, Comment;
    var written := [];
    var inDefinition, purgeResource := false, false;
    var buffer := [];
    Boundaries(source, buffer, purgeResource, hosts);
    for i := 0 to |source|
      invariant inDefinition <==> InDefinition(source, i)
      invariant !inDefinition ==> buffer == [] && !purgeResource
      invariant Filtered(source, hosts) == written + Pending(inDefinition, buffer, purgeResource, source[i..], hosts)
      invariant ReadableTo(source, i)
    {
      var line := source[i];
      ghost var rest := source[i + 1..];
      var strippedLine := Strip(line);
      InDefinitionStep(source, i);
      assert source[i..] == [line] + rest;
      if !inDefinition && StartsWith(strippedLine, "define ") {
        OpeningLine(line);
        OpeningStep(line, rest, hosts);
        inDefinition := true;
      }
      if inDefinition {
        ghost var before := buffer;
        buffer := buffer + [line];
        if StartsWith(strippedLine, "}") {
          ClosingStep(written, before, purgeResource, line, rest, hosts);
          inDefinition := false;
          if purgeResource {
            buffer := Comment(buffer);
          }
          written := written + buffer;
          buffer := [];
          purgeResource := false;
        } else {
          InsideStep(before, purgeResource, line, rest, hosts);
          if StartsWith(strippedLine, "host_name") {
            var host := SecondWord(strippedLine);
            if host.None? {
              return None;
            }
            purgeResource := host.value !in hosts;
          }
        }
      } else {
        OutsideLine(written, line, rest, hosts);
        written := written + [line];
      }
    }
    assert source[|source|..] == [];
    Boundaries(source, buffer, purgeResource, hosts);
    return Some(written);
  }

  lemma Boundaries(lines: seq<string>, buffer: seq<string>, purge: bool, hosts: set<string>)
    ensures !InDefinition(lines, 0)
    ensures lines[0..] == lines && Pending(false, [], false, lines, hosts) == Filtered(lines, hosts)
    ensures forall open :: Pending(open, buffer, purge, [], hosts) == []
  {}

  // ---------- the program against the block-level specification ----------

  /** Past a stretch whose definitions are closed, everything is as in a new file. */
  lemma InDefinitionShift(a: seq<string>, t: seq<string>, j: nat)
    requires AllClosed(a) && j <= |t|
    ensures InDefinition(a + t, |a| + j) <==> InDefinition(t, j)
  {
    var all := a + t;
    if InDefinition(all, |a| + j) {
      var c :| 0 <= c < |a| + j && Opens(all[c]) && OpenFrom(all, c, |a| + j);
      ClosedOff(a, t, c, |a| + j);
      assert OpenFrom(t, c - |a|, j) by {
        assert forall k :: c - |a| <= k < j ==> t[k] == all[|a| + k];
      }
    }
    if InDefinition(t, j) {
      var c :| 0 <= c < j && Opens(t[c]) && OpenFrom(t, c, j);
      assert all[|a| + c] == t[c];
      assert OpenFrom(all, |a| + c, |a| + j);
    }
  }

  lemma ReachesOver(a: seq<string>, t: seq<string>, c: nat, i: nat)
    requires c < |a| <= i <= |a + t|
    requires (Opens((a + t)[c]) || InDefinition(a + t, c)) && OpenFrom(a + t, c, i)
    ensures InDefinition(a, |a|)
  {
    var all := a + t;
    var d := c;
    if !Opens(all[c]) {
      d :| 0 <= d < c && Opens(all[d]) && OpenFrom(all, d, c);
    }
    assert forall k :: 0 <= k < |a| ==> a[k] == all[k];
    assert OpenFrom(a, d, |a|);
  }

  /** No definition reaches over the end of such a stretch. */
  lemma ClosedOff(a: seq<string>, t: seq<string>, c: nat, i: nat)
    requires AllClosed(a) && c < |a + t| && |a| <= i <= |a + t| && c <= i
    requires (Opens((a + t)[c]) || InDefinition(a + t, c)) && OpenFrom(a + t, c, i)
    ensures |a| <= c
  {
    if c < |a| { ReachesOver(a, t, c, i); }
  }

  lemma InDefinitionPrefix(a: seq<string>, t: seq<string>, i: nat)
    requires i <= |a|
    ensures InDefinition(a + t, i) <==> InDefinition(a, i)
  {
    assert forall k :: 0 <= k < i ==> (a + t)[k] == a[k];
    forall c | 0 <= c < i ensures OpenFrom(a + t, c, i) <==> OpenFrom(a, c, i) {}
  }

  lemma OpenFromShift(a: seq<string>, t: seq<string>, i: nat, e: nat)
    requires i <= e <= |t|
    ensures OpenFrom(a + t, |a| + i, |a| + e) <==> OpenFrom(t, i, e)
  {
    var all := a + t;
    if OpenFrom(all, |a| + i, |a| + e) {
      forall k | i <= k < e ensures !Closes(t[k]) { assert all[|a| + k] == t[k]; }
    }
    if OpenFrom(t, i, e) {
      forall k | |a| + i <= k < |a| + e ensures !Closes(all[k]) { assert all[k] == t[k - |a|]; }
    }
  }

  lemma LastHostNameShift(a: seq<string>, t: seq<string>, h: nat, e: nat)
    requires AllClosed(a) && h < e <= |t|
    ensures LastHostName(a + t, |a| + h, |a| + e) <==> LastHostName(t, h, e)
  {
    var all := a + t;
    InDefinitionShift(a, t, h);
    OpenFromShift(a, t, h, e);
    assert all[|a| + h] == t[h];
    if LastHostName(all, |a| + h, |a| + e) {
      forall k | h < k < e ensures !NamesHost(t[k]) { assert all[|a| + k] == t[k]; }
    }
    if LastHostName(t, h, e) {
      forall k | |a| + h < k < |a| + e ensures !NamesHost(all[k]) { assert all[k] == t[k - |a|]; }
    }
  }

  /** Some line before the closing line decides that the host is missing. */
  predicate Decided(lines: seq<string>, e: nat, hosts: set<string>)
    requires e <= |lines|
  {
    exists h :: 0 <= h < e && LastHostName(lines, h, e) && HostMissing(lines[h], hosts)
  }

  lemma DecidedShift(a: seq<string>, t: seq<string>, e: nat, hosts: set<string>)
    requires AllClosed(a) && e <= |t|
    ensures Decided(a + t, |a| + e, hosts) <==> Decided(t, e, hosts)
  {
    hide HostMissing, AllClosed, InDefinition, OpenFrom, NamesHost, Opens, Closes;
    var all := a + t;
    if Decided(all, |a| + e, hosts) {
      var h :| 0 <= h < |a| + e && LastHostName(all, h, |a| + e) && HostMissing(all[h], hosts);
      ClosedOff(a, t, h, |a| + e);
      LastHostNameShift(a, t, h - |a|, e);
      assert all[h] == t[h - |a|];
    }
    if Decided(t, e, hosts) {
      var h :| 0 <= h < e && LastHostName(t, h, e) && HostMissing(t[h], hosts);
      LastHostNameShift(a, t, h, e);
      assert all[|a| + h] == t[h];
    }
  }

  lemma CondemnedShift(a: seq<string>, t: seq<string>, i: nat, e: nat, hosts: set<string>)
    requires AllClosed(a) && i <= e < |t|
    ensures Condemned(a + t, |a| + i, |a| + e, hosts) <==> Condemned(t, i, e, hosts)
  {
    hide Decided, InDefinition, OpenFrom, AllClosed, Closes, Opens;
    InDefinitionShift(a, t, i);
    OpenFromShift(a, t, i, e);
    DecidedShift(a, t, e, hosts);
    assert (a + t)[|a| + i] == t[i] && (a + t)[|a| + e] == t[e];
  }

  lemma CondemnedPrefix(a: seq<string>, t: seq<string>, i: nat, e: nat, hosts: set<string>)
    requires AllClosed(a) && i < |a| && i <= e < |a + t|
    ensures Condemned(a + t, i, e, hosts) <==> e < |a| && Condemned(a, i, e, hosts)
  {
    var all := a + t;
    assert forall k :: 0 <= k < |a| ==> all[k] == a[k];
    InDefinitionPrefix(a, t, i);
    if Condemned(all, i, e, hosts) && |a| <= e {
      ClosedOff(a, t, i, e);
    }
    if e < |a| {
      forall h | 0 <= h < e ensures LastHostName(all, h, e) <==> LastHostName(a, h, e) { InDefinitionPrefix(a, t, h); }
    }
  }

  // ---------- one definition ----------

  /** A definition as a stretch of its own: opened by its first line, closed by its
      last and by no other. */
  predicate Block(a: seq<string>) {
    |a| >= 2 && Opens(a[0]) && Closes(a[|a| - 1]) && OpenFrom(a, 0, |a| - 1)
  }

  function LastNamed(ls: seq<string>): (h: int)
    ensures -1 <= h < |ls|
    ensures h >= 0 ==> NamesHost(ls[h])
    ensures forall k :: h < k < |ls| ==> !NamesHost(ls[k])
  {
    if ls == [] then -1
    else if NamesHost(ls[|ls| - 1]) then |ls| - 1
    else LastNamed(ls[..|ls| - 1])
  }

  predicate PurgeAfter(purge: bool, ls: seq<string>, hosts: set<string>) {
    if LastNamed(ls) >= 0 then HostMissing(ls[LastNamed(ls)], hosts) else purge
  }

  lemma PurgeAfterHead(purge: bool, l: string, ls: seq<string>, hosts: set<string>)
    ensures PurgeAfter(purge, [l] + ls, hosts) ==
      PurgeAfter(if NamesHost(l) then HostMissing(l, hosts) else purge, ls, hosts)
  {
    var all := [l] + ls;
    var h, g := LastNamed(all), LastNamed(ls);
    assert all[0] == l;
    if g >= 0 { assert all[g + 1] == ls[g]; }
    if h > 0 { assert all[h] == ls[h - 1]; }
  }

  lemma ResumedClose(buffer: seq<string>, purge: bool, close: string, rest: seq<string>, hosts: set<string>)
    requires Closes(close)
    ensures var block := buffer + [close];
      Resumed(buffer, purge, [close] + rest, hosts) == (if purge then Comment(block) else block) + Filtered(rest, hosts)
  {
    hide Closes, Comment, Filtered;
    assert ([close] + rest)[1..] == rest;
  }

  lemma NoneNamed(purge: bool, hosts: set<string>)
    ensures PurgeAfter(purge, [], hosts) == purge
  {}

  lemma {:induction false} ResumedBlock(buffer: seq<string>, purge: bool, inner: seq<string>, close: string,
      rest: seq<string>, hosts: set<string>)
    requires Closes(close) && forall l :: l in inner ==> !Closes(l)
    ensures var block := buffer + inner + [close];
      Resumed(buffer, purge, inner + [close] + rest, hosts)
        == (if PurgeAfter(purge, inner, hosts) then Comment(block) else block) + Filtered(rest, hosts)
    decreases |inner|
  {
    hide Closes, NamesHost, HostMissing, Resumed, Filtered, Comment, PurgeAfter;
    if inner == [] {
      NoneNamed(purge, hosts);
      assert inner + [close] + rest == [close] + rest;
      assert buffer + inner == buffer;
      ResumedClose(buffer, purge, close, rest, hosts);
    } else {
      var l, ls := inner[0], inner[1..];
      var purge' := if NamesHost(l) then HostMissing(l, hosts) else purge;
      assert inner == [l] + ls;
      assert inner + [close] + rest == [l] + (ls + [close] + rest);
      InsideStep(buffer, purge, l, ls + [close] + rest, hosts);
      PurgeAfterHead(purge, l, ls, hosts);
      ResumedBlock(buffer + [l], purge', ls, close, rest, hosts);
      assert buffer + [l] + ls + [close] == buffer + inner + [close];
    }
  }

  /** The program on a file that starts with a definition. */
  lemma FilteredBlock(a: seq<string>, t: seq<string>, hosts: set<string>)
    requires Block(a)
    ensures Filtered(a + t, hosts)
      == (if PurgeAfter(false, a[..|a| - 1], hosts) then Comment(a) else a) + Filtered(t, hosts)
  {
    var n := |a| - 1;
    var inner := a[1..n];
    assert a + t == [a[0]] + (inner + [a[n]] + t);
    assert a == [a[0]] + inner + [a[n]];
    assert a[..n] == [a[0]] + inner;
    OpeningLine(a[0]);
    PurgeAfterHead(false, a[0], inner, hosts);
    OpeningStep(a[0], inner + [a[n]] + t, hosts);
    InsideStep([], false, a[0], inner + [a[n]] + t, hosts);
    assert [] + [a[0]] == [a[0]];
    forall l | l in inner ensures !Closes(l) {
      var k :| 0 <= k < n - 1 && inner[k] == l;
      assert l == a[k + 1];
    }
    ResumedBlock([a[0]], false, inner, a[n], t, hosts);
  }

  lemma BlockClosed(a: seq<string>)
    requires Block(a)
    ensures AllClosed(a)
    ensures forall i :: 0 < i < |a| ==> InDefinition(a, i)
  {
    InDefinitionStep(a, |a| - 1);
    forall i | 0 < i < |a| ensures InDefinition(a, i) { assert OpenFrom(a, 0, i); }
  }

  lemma BlockDecided(a: seq<string>, hosts: set<string>)
    requires Block(a)
    ensures Decided(a, |a| - 1, hosts) <==> PurgeAfter(false, a[..|a| - 1], hosts)
  {
    hide HostMissing, NamesHost, Closes, Opens;
    var n := |a| - 1;
    var h := LastNamed(a[..n]);
    BlockClosed(a);
    OpeningLine(a[0]);
    assert forall k :: 0 <= k < n ==> a[..n][k] == a[k];
    if h >= 0 {
      assert NamesHost(a[h]) && h > 0;
      assert LastHostName(a, h, n);
    }
    if Decided(a, n, hosts) {
      var g :| 0 <= g < n && LastHostName(a, g, n) && HostMissing(a[g], hosts);
      assert NamesHost(a[..n][g]);
      assert g == h;
    }
  }

  /** In a definition, all lines are condemned, up to its closing line, or none. */
  lemma BlockCondemned(a: seq<string>, i: nat, hosts: set<string>)
    requires Block(a) && i < |a|
    ensures (exists e :: i <= e < |a| && Condemned(a, i, e, hosts)) <==> PurgeAfter(false, a[..|a| - 1], hosts)
  {
    hide Decided, PurgeAfter, InDefinition, HostMissing;
    BlockClosed(a);
    BlockDecided(a, hosts);
    if PurgeAfter(false, a[..|a| - 1], hosts) {
      assert Condemned(a, i, |a| - 1, hosts);
    }
  }

  // ---------- the whole file ----------

  /** Line `i` is in a definition whose last host is missing. */
  predicate Marked(lines: seq<string>, i: nat, hosts: set<string>) {
    exists e :: i <= e < |lines| && Condemned(lines, i, e, hosts)
  }

  function FirstClose(ls: seq<string>): (k: nat)
    ensures k <= |ls|
    ensures k < |ls| ==> Closes(ls[k])
    ensures OpenFrom(ls, 0, k)
  {
    if ls == [] || Closes(ls[0]) then 0 else 1 + FirstClose(ls[1..])
  }

  /** A line outside definitions, or a definition. */
  predicate Stretch(a: seq<string>) {
    (|a| == 1 && !Opens(a[0])) || Block(a)
  }

  lemma StretchClosed(a: seq<string>)
    requires Stretch(a)
    ensures a != [] && AllClosed(a)
  {
    if Block(a) { BlockClosed(a); }
  }

  /** A file whose definitions are all closed starts with a stretch, and the rest is
      such a file again. */
  lemma SplitFirst(lines: seq<string>) returns (a: seq<string>, t: seq<string>)
    requires lines != [] && AllClosed(lines)
    ensures lines == a + t && Stretch(a) && AllClosed(t) && |t| < |lines|
  {
    if !Opens(lines[0]) {
      a, t := lines[..1], lines[1..];
    } else {
      OpeningLine(lines[0]);
      var k := FirstClose(lines);
      assert !OpenFrom(lines, 0, |lines|);
      a, t := lines[..k + 1], lines[k + 1..];
      assert forall i :: 0 <= i < k ==> a[i] == lines[i];
    }
    assert lines == a + t;
    StretchClosed(a);
    InDefinitionShift(a, t, |t|);
  }

  function MarkedLine(lines: seq<string>, i: nat, hosts: set<string>): string
    requires i < |lines|
  {
    if Marked(lines, i, hosts) then "#" + lines[i] else lines[i]
  }

  lemma MarkedSplit(a: seq<string>, t: seq<string>, i: nat, hosts: set<string>)
    requires AllClosed(a) && i < |a + t|
    ensures MarkedLine(a + t, i, hosts) == if i < |a| then MarkedLine(a, i, hosts) else MarkedLine(t, i - |a|, hosts)
  {
    hide Condemned, AllClosed;
    var all := a + t;
    if i < |a| {
      forall e | i <= e < |all| ensures Condemned(all, i, e, hosts) <==> e < |a| && Condemned(a, i, e, hosts) {
        CondemnedPrefix(a, t, i, e, hosts);
      }
    } else {
      var j := i - |a|;
      forall e | j <= e < |t| ensures Condemned(all, i, |a| + e, hosts) <==> Condemned(t, j, e, hosts) {
        CondemnedShift(a, t, j, e, hosts);
      }
      if Marked(all, i, hosts) {
        var e :| i <= e < |all| && Condemned(all, i, e, hosts);
        assert Condemned(all, i, |a| + (e - |a|), hosts);
        assert Condemned(t, j, e - |a|, hosts);
      }
    }
  }

  /** The output for one stretch. */
  function StretchOut(a: seq<string>, hosts: set<string>): seq<string>
    requires Stretch(a)
  {
    if Block(a) && PurgeAfter(false, a[..|a| - 1], hosts) then Comment(a) else a
  }

  lemma FilteredStretch(a: seq<string>, t: seq<string>, hosts: set<string>)
    requires Stretch(a)
    ensures Filtered(a + t, hosts) == StretchOut(a, hosts) + Filtered(t, hosts)
  {
    if Block(a) {
      FilteredBlock(a, t, hosts);
    } else {
      assert a == [a[0]];
      OutsideLine([], a[0], t, hosts);
    }
  }

  lemma StretchLines(a: seq<string>, i: nat, hosts: set<string>)
    requires Stretch(a) && i < |a|
    ensures |StretchOut(a, hosts)| == |a| && StretchOut(a, hosts)[i] == MarkedLine(a, i, hosts)
  {
    if Block(a) {
      BlockCondemned(a, i, hosts);
    } else {
      NothingOpenYet(a);
    }
  }

  lemma NothingOpenYet(lines: seq<string>)
    ensures !InDefinition(lines, 0)
  {}

  /** With all definitions closed, every line comes out in its place, unchanged or
      prefixed with `#`, and prefixed exactly if it is in a definition whose last
      `host_name` is not among the hosts. */
  lemma EveryLineInPlace(lines: seq<string>, hosts: set<string>)
    requires AllClosed(lines)
    ensures |Filtered(lines, hosts)| == |lines|
    ensures forall i :: 0 <= i < |lines| ==>
      Filtered(lines, hosts)[i] == if Marked(lines, i, hosts) then "#" + lines[i] else lines[i]
  {
    LinesInPlace(lines, hosts);
    hide Filtered, AllClosed, Marked;
    forall i | 0 <= i < |lines|
      ensures MarkedLine(lines, i, hosts) == if Marked(lines, i, hosts) then "#" + lines[i] else lines[i] {}
  }

  lemma {:induction false} LinesInPlace(lines: seq<string>, hosts: set<string>)
    requires AllClosed(lines)
    ensures |Filtered(lines, hosts)| == |lines|
    ensures forall i :: 0 <= i < |lines| ==> Filtered(lines, hosts)[i] == MarkedLine(lines, i, hosts)
    decreases |lines|
  {
    hide AllClosed, Stretch, StretchOut, MarkedLine;
    if lines != [] {
      var a, t := SplitFirst(lines);
      hide Filtered;
      StretchClosed(a);
      LinesInPlace(t, hosts);
      FilteredStretch(a, t, hosts);
      StretchLines(a, 0, hosts);
      forall i | 0 <= i < |lines| ensures Filtered(lines, hosts)[i] == MarkedLine(lines, i, hosts) {
        MarkedSplit(a, t, i, hosts);
        if i < |a| { StretchLines(a, i, hosts); }
      }
    }
  }

  /** A file that ends inside a definition loses that definition: the output has as
      many lines as the input exactly if all definitions are closed. */
  lemma {:induction false} LosesLinesIff(lines: seq<string>, hosts: set<string>)
    ensures |Filtered(lines, hosts)| == |lines| <==> AllClosed(lines)
  {
    if AllClosed(lines) {
      EveryLineInPlace(lines, hosts);
    } else {
      UnclosedLoses(lines, hosts);
    }
  }

  lemma {:induction false} FilteredAtMost(buffer: seq<string>, purge: bool, lines: seq<string>, hosts: set<string>)
    ensures |Filtered(lines, hosts)| <= |lines|
    ensures |Resumed(buffer, purge, lines, hosts)| <= |buffer| + |lines|
    decreases |lines|
  {
    if lines != [] {
      var purge' := if NamesHost(lines[0]) then HostMissing(lines[0], hosts) else purge;
      FilteredAtMost(buffer + [lines[0]], purge', lines[1..], hosts);
      FilteredAtMost([lines[0]], false, lines[1..], hosts);
    }
  }

  lemma {:induction false} UnclosedLoses(lines: seq<string>, hosts: set<string>)
    requires !AllClosed(lines)
    ensures |Filtered(lines, hosts)| < |lines|
    decreases |lines|
  {
    assert lines == [lines[0]] + lines[1..];
    if !Opens(lines[0]) {
      InDefinitionShift([lines[0]], lines[1..], |lines| - 1);
      UnclosedLoses(lines[1..], hosts);
    } else {
      ResumedUnclosed([lines[0]], false, lines[1..], lines, 1, hosts);
    }
  }

  /** Inside a definition at line `n` of a file that is not closed at its end. */
  lemma {:induction false} ResumedUnclosed(buffer: seq<string>, purge: bool, rest: seq<string>, lines: seq<string>,
      n: nat, hosts: set<string>)
    requires 0 < n <= |lines| && rest == lines[n..] && |buffer| == n
    requires !AllClosed(lines)
    ensures |Resumed(buffer, purge, rest, hosts)| < |lines|
    decreases |rest|
  {
    if rest != [] {
      assert rest[1..] == lines[n + 1..];
      if Closes(rest[0]) {
        var a := lines[..n + 1];
        assert lines == a + rest[1..] && a[n] == rest[0];
        InDefinitionStep(a, n);
        InDefinitionShift(a, rest[1..], |rest| - 1);
        UnclosedLoses(rest[1..], hosts);
      } else {
        var purge' := if NamesHost(rest[0]) then HostMissing(rest[0], hosts) else purge;
        ResumedUnclosed(buffer + [rest[0]], purge', rest[1..], lines, n + 1, hosts);
      }
    }
  }

  /** A commented line neither opens nor closes a definition nor names a host. */
  lemma CommentIsInert(l: string)
    ensures !Opens("#" + l) && !Closes("#" + l) && !NamesHost("#" + l)
  {
    StripVisible("#" + l);
    assert "define "[0] == 'd' && "}"[0] == '}' && "host_name"[0] == 'h';
  }

  lemma {:induction false} FilteredInert(a: seq<string>, t: seq<string>, hosts: set<string>)
    requires forall l :: l in a ==> !Opens(l)
    ensures Filtered(a + t, hosts) == a + Filtered(t, hosts)
  {
    if a == [] {
      assert a + t == t;
    } else {
      hide Opens;
      assert a + t == [a[0]] + (a[1..] + t);
      FilteredInert(a[1..], t, hosts);
      OutsideLine([], a[0], a[1..] + t, hosts);
    }
  }

  lemma StretchAgain(a: seq<string>, t: seq<string>, hosts: set<string>)
    requires Stretch(a)
    ensures Filtered(StretchOut(a, hosts) + t, hosts) == StretchOut(a, hosts) + Filtered(t, hosts)
  {
    if Block(a) && PurgeAfter(false, a[..|a| - 1], hosts) {
      forall l | l in Comment(a) ensures !Opens(l) {
        var i :| 0 <= i < |a| && l == Comment(a)[i];
        CommentIsInert(a[i]);
      }
      FilteredInert(Comment(a), t, hosts);
    } else {
      FilteredStretch(a, t, hosts);
    }
  }

  lemma {:induction false} ClosedAgain(lines: seq<string>, hosts: set<string>)
    requires AllClosed(lines)
    ensures Filtered(Filtered(lines, hosts), hosts) == Filtered(lines, hosts)
    decreases |lines|
  {
    if lines == [] {
      assert Filtered(lines, hosts) == [];
    } else {
      hide *;
      var a, t := SplitFirst(lines);
      FilteredStretch(a, t, hosts);
      StretchAgain(a, Filtered(t, hosts), hosts);
      ClosedAgain(t, hosts);
    }
  }

  lemma {:induction false} ResumedOpen(buffer: seq<string>, purge: bool, rest: seq<string>, hosts: set<string>)
    requires OpenFrom(rest, 0, |rest|)
    ensures Resumed(buffer, purge, rest, hosts) == []
    decreases |rest|
  {
    if rest != [] {
      assert forall k :: 0 <= k < |rest| - 1 ==> rest[1..][k] == rest[k + 1];
      var purge' := if NamesHost(rest[0]) then HostMissing(rest[0], hosts) else purge;
      ResumedOpen(buffer + [rest[0]], purge', rest[1..], hosts);
    }
  }

  /** Up to the definition that is left open, if any. */
  lemma {:induction false} ClosedPart(lines: seq<string>, hosts: set<string>) returns (a: seq<string>)
    ensures AllClosed(a) && a <= lines
    ensures Filtered(a, hosts) == Filtered(lines, hosts)
    decreases |lines|
  {
    NothingOpenYet(lines);
    var k := FirstClose(lines);
    if lines == [] || (Opens(lines[0]) && k == |lines|) {
      a := [];
      NothingOpenYet(a);
      if lines != [] {
        assert forall j :: 0 <= j < |lines| - 1 ==> lines[1..][j] == lines[j + 1];
        ResumedOpen([lines[0]], false, lines[1..], hosts);
      }
    } else {
      if Opens(lines[0]) { OpeningLine(lines[0]); }
      var n := if Opens(lines[0]) then k + 1 else 1;
      var first, t := lines[..n], lines[n..];
      assert lines == first + t && forall i :: 0 <= i < n ==> first[i] == lines[i];
      assert Stretch(first);
      var b := ClosedPart(t, hosts);
      a := first + b;
      hide *;
      StretchClosed(first);
      InDefinitionShift(first, b, |b|);
      ClosedSum(first, b);
      FilteredStretch(first, t, hosts);
      FilteredStretch(first, b, hosts);
      PrefixSum(first, b, t);
    }
  }

  lemma ClosedSum(a: seq<string>, b: seq<string>)
    requires AllClosed(a) && AllClosed(b)
    ensures AllClosed(a + b)
  {
    InDefinitionShift(a, b, |b|);
  }

  lemma PrefixSum(a: seq<string>, b: seq<string>, t: seq<string>)
    requires b <= t
    ensures a + b <= a + t
  {
    assert a + t == a + b + t[|b|..];
  }

  lemma {:induction false} NextClose(lines: seq<string>, c: nat, i: nat) returns (k: nat)
    requires c <= i <= |lines|
    ensures c <= k <= i && OpenFrom(lines, c, k)
    ensures k < i ==> Closes(lines[k])
    decreases i - c
  {
    if c == i || Closes(lines[c]) {
      k := c;
    } else {
      k := NextClose(lines, c + 1, i);
    }
  }

  /** A line of the output that is not inert has not been commented out. */
  lemma OutLine(lines: seq<string>, i: nat, hosts: set<string>)
    requires AllClosed(lines) && i < |lines|
    ensures i < |Filtered(lines, hosts)|
    ensures var l := Filtered(lines, hosts)[i];
      (Opens(l) || Closes(l) || NamesHost(l) ==> l == lines[i] && !Marked(lines, i, hosts))
      && (!Marked(lines, i, hosts) ==> l == lines[i])
  {
    EveryLineInPlace(lines, hosts);
    CommentIsInert(lines[i]);
  }

  /** What opens a definition in the output does so in the input, and the definition
      is not closed earlier there. */
  lemma DefinitionsStay(lines: seq<string>, i: nat, hosts: set<string>)
    requires AllClosed(lines) && i <= |lines| && |Filtered(lines, hosts)| == |lines|
    requires InDefinition(Filtered(lines, hosts), i)
    ensures InDefinition(lines, i)
  {
    hide Filtered, Opens, Closes, AllClosed, Marked, NamesHost;
    var out := Filtered(lines, hosts);
    var c :| 0 <= c < i && Opens(out[c]) && OpenFrom(out, c, i);
    OutLine(lines, c, hosts);
    var k := NextClose(lines, c, i);
    if k < i {
      OutLine(lines, k, hosts);
      SameFate(lines, c, k, hosts);
    }
  }

  /** The closing line of a definition shares the fate of the opening one. */
  lemma SameFate(lines: seq<string>, c: nat, k: nat, hosts: set<string>)
    requires c <= k < |lines| && Opens(lines[c]) && OpenFrom(lines, c, k) && Closes(lines[k])
    ensures Marked(lines, k, hosts) ==> Marked(lines, c, hosts)
  {
    hide Decided, Opens, Closes;
    if Marked(lines, k, hosts) {
      var e :| k <= e < |lines| && Condemned(lines, k, e, hosts);
      assert e == k by { assert OpenFrom(lines, k, e); }
      assert Condemned(lines, c, k, hosts);
    }
  }

  lemma ReadableAgain(lines: seq<string>, hosts: set<string>)
    requires AllClosed(lines) && Readable(lines)
    ensures Readable(Filtered(lines, hosts))
  {
    var out := Filtered(lines, hosts);
    EveryLineInPlace(lines, hosts);
    hide Filtered, SecondWord, Strip, Closes, NamesHost;
    forall i | 0 <= i < |out| && InDefinition(out, i) && !Closes(out[i]) && NamesHost(out[i])
      ensures SecondWord(Strip(out[i])).Some?
    {
      DefinitionsStay(lines, i, hosts);
      CommentIsInert(lines[i]);
      assert out[i] == lines[i];
    }
  }

  /** Running the program again with the same hosts does not fail and changes nothing,
      whether or not the last definition was closed. */
  lemma SecondRunChangesNothing(lines: seq<string>, hosts: set<string>)
    ensures Filtered(Filtered(lines, hosts), hosts) == Filtered(lines, hosts)
    ensures Readable(lines) ==> Readable(Filtered(lines, hosts))
    ensures AllClosed(Filtered(lines, hosts))
  {
    var a := ClosedPart(lines, hosts);
    ClosedAgain(a, hosts);
    LosesLinesIff(Filtered(a, hosts), hosts);
    if Readable(lines) {
      ReadablePrefix(a, lines);
      ReadableAgain(a, hosts);
    }
  }

  lemma ReadablePrefix(a: seq<string>, lines: seq<string>)
    requires a <= lines && Readable(lines)
    ensures Readable(a)
  {
    hide SecondWord, Strip, Closes, NamesHost, Opens;
    var t := lines[|a|..];
    assert lines == a + t;
    forall i | 0 <= i < |a| && InDefinition(a, i) && !Closes(a[i]) && NamesHost(a[i])
      ensures SecondWord(Strip(a[i])).Some?
    {
      InDefinitionPrefix(a, t, i);
      assert lines[i] == a[i];
    }
  }

  /** A service of a host: it stays if the host exists, and is commented out line by line
      if not. */
  lemma ServiceFiltered(host: string, hosts: set<string>)
    requires Word(host)
    ensures Filtered(["define service{\n", "\thost_name\t" + host + "\n", "\t}\n"], hosts) ==
      if host in hosts then ["define service{\n", "\thost_name\t" + host + "\n", "\t}\n"]
      else ["#define service{\n", "#\thost_name\t" + host + "\n", "#\t}\n"]
  {
    var opening, name, closing := "define service{\n", "\thost_name\t" + host + "\n", "\t}\n";
    var lines := [opening, name, closing];
    ServiceLines(host, hosts);
    hide Opens, Closes, NamesHost, HostMissing, Filtered, Word;
    OpeningLine(opening);
    assert Block(lines);
    assert lines[..2] == [opening, name];
    assert LastNamed([opening, name]) == 1 by { assert [opening, name][1] == name; }
    assert PurgeAfter(false, [opening, name], hosts) <==> host !in hosts;
    FilteredBlock(lines, [], hosts);
    NothingFiltered(hosts);
    assert lines + [] == lines;
    assert Comment(lines) == ["#" + opening, "#" + name, "#" + closing];
    assert "#" + opening == "#define service{\n" && "#" + closing == "#\t}\n";
    assert "#" + name == "#\thost_name\t" + host + "\n" by {
      assert "#" + "\thost_name\t" == "#\thost_name\t";
      assert "#" + name == "#" + "\thost_name\t" + host + "\n";
    }
  }

  lemma NothingFiltered(hosts: set<string>)
    ensures Filtered([], hosts) == []
  {}

  lemma ServiceLines(host: string, hosts: set<string>)
    requires Word(host)
    ensures Opens("define service{\n") && Closes("\t}\n")
    ensures var name := "\thost_name\t" + host + "\n";
      !Closes(name) && NamesHost(name) && (HostMissing(name, hosts) <==> host !in hosts)
  {
    ServiceBraces();
    hide Opens, Closes, NamesHost, HostMissing, Strip;
    var name, text := "\thost_name\t" + host + "\n", "host_name" + "\t" + host;
    assert text[0] == 'h' && text[|text| - 1] == host[|host| - 1] && host[|host| - 1] in host;
    assert name == "\t" + text + "\n";
    LineIs("\t", text, "\n");
    HostMissingIff("\t", "\t", host, "\n", hosts);
  }

  lemma ServiceBraces()
    ensures Opens("define service{\n") && Closes("\t}\n")
  {
    OpeningBrace();
    hide Opens, Closes, Strip;
    assert "\t" + "}" + "\n" == "\t}\n";
    LineIs("\t", "}", "\n");
  }

  lemma OpeningBrace()
    ensures Opens("define service{\n")
  {
    hide Opens, Closes, NamesHost, Strip;
    var text := "define service{";
    assert "" + text + "\n" == "define service{\n";
    assert text == "define " + "service{";
    LineIs("", text, "\n");
  }

  /** A file of one definition without its closing brace comes out empty. */
  lemma UnclosedIsDropped(hosts: set<string>)
    ensures Filtered(["define host {", "host_name db1"], hosts) == []
    ensures !AllClosed(["define host {", "host_name db1"])
  {
    var lines := ["define host {", "host_name db1"];
    SampleLines();
    hide Opens, Closes;
    assert lines[1..] == [lines[1]] && OpenFrom(lines, 0, |lines|) && InDefinition(lines, |lines|);
    ResumedOpen([lines[0]], false, lines[1..], hosts);
  }

  lemma SampleLines()
    ensures Opens("define host {") && !Closes("define host {") && !Closes("host_name db1")
  {
    StripVisible("define host {");
    assert StartsWith("define host {", "define ") by {
      assert "define host {"[..7] == "define ";
    }
    OpeningLine("define host {");
    StripVisible("host_name db1");
  }
}

/** The rewriting of upload URLs to Swift containers and objects. A path is routed
    by the first of four patterns that matches it. */
module SwiftRewrite {
  import opened Text
  import opened Wrappers

  /** `re.sub(r'/{2,}', '/', path)`. */
  function Collapse(path: string): string {
    if path == [] then []
    else if |path| >= 2 && path[0] == '/' && path[1] == '/' then Collapse(path[1..])
    else [path[0]] + Collapse(path[1..])
  }

  predicate HexDigit(c: char) {
    '0' <= c <= '9' || 'a' <= c <= 'f'
  }

  predicate Hex(s: string, n: nat) {
    |s| == n && forall i :: 0 <= i < n ==> HexDigit(s[i])
  }

  /** What the patterns capture. */
  datatype Match = Match(proj: string, lang: string, repo: string, zone: string, obj: seq<string>, shard: string)

  /** `.+` over the rest of the path, given as its segments. */
  predicate Something(segments: seq<string>) {
    Join(segments, '/') != ""
  }

  /** `[0-9a-f]/([0-9a-f]{2})/.+`: the hash directory. */
  predicate Hashed(obj: seq<string>) {
    |obj| >= 3 && Hex(obj[0], 1) && Hex(obj[1], 2) && Something(obj[2..])
  }

  /** `((temp|archive)/)?` in front of that. */
  predicate Upload(obj: seq<string>) {
    Hashed(obj) || (|obj| > 0 && obj[0] in {"temp", "archive"} && Hashed(obj[1..]))
  }

  function HashDirectory(obj: seq<string>): string
    requires Upload(obj)
  {
    if Hashed(obj) then obj[1] else obj[2]
  }

  const ZONES := {"transcoded", "thumb", "temp"}

  predicate InWiki(s: seq<string>) {
    |s| >= 3 && s[0] != "" && s[1] != ""
  }

  function MatchUpload(s: seq<string>): Option<Match> {
    if InWiki(s) && s[2] in ZONES && Upload(s[3..]) then
      Some(Match(s[0], s[1], "local", s[2], s[3..], HashDirectory(s[3..])))
    else if InWiki(s) && Upload(s[2..]) then
      Some(Match(s[0], s[1], "local", "public", s[2..], HashDirectory(s[2..])))
    else None
  }

  function MatchTimeline(s: seq<string>): Option<Match> {
    if InWiki(s) && s[2] == "timeline" && Something(s[3..])
    then Some(Match(s[0], s[1], "timeline", "render", s[3..], "")) else None
  }

  function MatchMath(s: seq<string>): Option<Match> {
    if |s| >= 4 && s[0] == "math" && Hex(s[1], 1) && Hex(s[2], 1) && Something(s[3..])
    then Some(Match("global", "data", "math", "render", s[1..], s[1] + s[2])) else None
  }

  function MatchScore(s: seq<string>): Option<Match> {
    if |s| >= 2 && s[0] == "score" && Something(s[1..])
    then Some(Match("global", "data", "score", "render", s[1..], "")) else None
  }

  function FirstMatch(s: seq<string>): Option<Match> {
    if MatchUpload(s).Some? then MatchUpload(s)
    else if MatchTimeline(s).Some? then MatchTimeline(s)
    else if MatchMath(s).Some? then MatchMath(s)
    else MatchScore(s)
  }

  /** `shard_containers` and `shard_container_list`. */
  datatype Sharding = All | Listed(containers: set<string>) | Unsharded

  function ConceptualContainer(m: Match): string {
    Join([m.proj, m.lang, m.repo, m.zone], '-')
  }

  predicate IsSharded(cfg: Sharding, container: string) {
    cfg.All? || (cfg.Listed? && container in cfg.containers)
  }

  function Container(m: Match, cfg: Sharding): string {
    var c := ConceptualContainer(m);
    if IsSharded(cfg, c) then c + "." + m.shard else c
  }

  datatype Target = Target(container: string, obj: string)

  /** The segments of a path that starts with a slash. */
  function Segments(path: string): seq<string> {
    Split(path, '/')[1..]
  }

  function Route(path: string, cfg: Sharding): Option<Target> {
    if !StartsWith(path, "/") then None
    else
      var m := FirstMatch(Segments(path));
      if m.None? then None else Some(Target(Container(m.value, cfg), Join(m.value.obj, '/')))
  }

  method HandleRequest(pathInfo: string, cfg: Sharding) returns (target: Option<Target>)
    ensures target == Route(Collapse(pathInfo), cfg)
  {
    var path := Collapse(pathInfo);
    if !StartsWith(path, "/") {
      return None;
    }
    var s := Segments(path);
    var proj, lang, repo, zone, obj, shard := "", "", "", "", [], "";
    var found := MatchUpload(s);
    if found.Some? {
      proj, lang, repo, zone, obj, shard := s[0], s[1], "local", found.value.zone, found.value.obj, found.value.shard;
    }
    if found.None? {
      found := MatchTimeline(s);
      if found.Some? {
        proj, lang, repo, zone, obj, shard := s[0], s[1], "timeline", "render", s[3..], "";
      }
    }
    if found.None? {
      found := MatchMath(s);
      if found.Some? {
        proj, lang, repo, zone, obj, shard := "global", "data", "math", "render", s[1..], s[1] + s[2];
      }
    }
    if found.None? {
      found := MatchScore(s);
      if found.Some? {
        proj, lang, repo, zone, obj, shard := "global", "data", "score", "render", s[1..], "";
      }
    }
    if found.None? {
      return None;
    }
    var container := ConceptualContainer(Match(proj, lang, repo, zone, obj, shard));
    if cfg.All? || (cfg.Listed? && container in cfg.containers) {
      container := container + "." + shard;
    }
    return Some(Target(container, Join(obj, '/')));
  }

  // ---------- uploads ----------

  lemma SomethingIff(rest: seq<string>)
    ensures Something(rest) <==> rest != [] && rest != [""]
  {
    if |rest| > 1 { assert Join(rest, '/') == rest[0] + ['/'] + Join(rest[1..], '/'); }
  }

  lemma DigitsIff(s: string, n: nat)
    ensures Hex(s, n) <==> |s| == n && forall c :: c in s ==> c in "0123456789abcdef"
  {
    forall c: char ensures HexDigit(c) <==> c in "0123456789abcdef" { DigitIff(c); }
  }

  lemma DigitIff(c: char)
    ensures HexDigit(c) <==> c in "0123456789abcdef"
  {
    var digits := "0123456789abcdef";
    assert forall i :: 0 <= i < 10 ==> digits[i] as int == '0' as int + i;
    assert forall i :: 10 <= i < 16 ==> digits[i] as int == 'a' as int + i - 10;
    if '0' <= c <= '9' { assert digits[c as int - '0' as int] == c; }
    if 'a' <= c <= 'f' { assert digits[10 + c as int - 'a' as int] == c; }
  }

  /** The segments of an uploaded object: perhaps `temp` or `archive`, the two hash
      directories of one and two hexadecimal digits, and something more. */
  ghost predicate UploadParts(pre: seq<string>, h1: string, h2: string, rest: seq<string>) {
    && pre in {[], ["temp"], ["archive"]}
    && |h1| == 1 && |h2| == 2 && (forall c :: c in h1 + h2 ==> c in "0123456789abcdef")
    && rest != [] && rest != [""]
  }

  /** Which objects are uploads, and that the second hash directory is their shard. */
  lemma UploadIs(pre: seq<string>, h1: string, h2: string, rest: seq<string>)
    requires UploadParts(pre, h1, h2, rest)
    ensures var obj := pre + [h1, h2] + rest; Upload(obj) && HashDirectory(obj) == h2
  {
    var tail := [h1, h2] + rest;
    SomethingIff(rest);
    DigitsIff(h1, 1);
    DigitsIff(h2, 2);
    assert tail[2..] == rest && Hashed(tail);
    assert pre + [h1, h2] + rest == pre + tail;
    if pre == [] {
      assert pre + tail == tail;
    } else {
      assert (pre + tail)[1..] == tail && !Hex(pre[0], 1);
    }
  }

  lemma NoOtherUploads(obj: seq<string>) returns (pre: seq<string>, h1: string, h2: string, rest: seq<string>)
    requires Upload(obj)
    ensures UploadParts(pre, h1, h2, rest) && obj == pre + [h1, h2] + rest && HashDirectory(obj) == h2
  {
    var tail := if Hashed(obj) then obj else obj[1..];
    pre, h1, h2, rest := if Hashed(obj) then [] else [obj[0]], tail[0], tail[1], tail[2..];
    SomethingIff(rest);
    DigitsIff(h1, 1);
    DigitsIff(h2, 2);
    assert obj == pre + tail && tail == [h1, h2] + rest;
  }

  // ---------- the documented containers ----------

  /** An upload path in a named zone is routed to it, sharded by its hash directory. */
  lemma ZonedUploadRouted(proj: string, lang: string, zone: string, obj: seq<string>)
    requires proj != "" && lang != "" && zone in {"transcoded", "thumb", "temp"} && Upload(obj)
    ensures FirstMatch([proj, lang, zone] + obj) == Some(Match(proj, lang, "local", zone, obj, HashDirectory(obj)))
  {
    assert ([proj, lang, zone] + obj)[3..] == obj;
  }

  /** Without a zone the path is public, unless the object itself starts with `temp`,
      which is then taken for the zone. */
  lemma PublicUploadRoutedIff(proj: string, lang: string, obj: seq<string>)
    requires proj != "" && lang != "" && Upload(obj)
    ensures FirstMatch([proj, lang] + obj) == Some(Match(proj, lang, "local", "public", obj, HashDirectory(obj)))
      <==> obj[0] != "temp"
  {
    var s := [proj, lang] + obj;
    assert s[2..] == obj && s[3..] == obj[1..];
    if obj[0] in ZONES {
      assert !Hex(obj[0], 1);
    }
  }

  lemma TimelineRouted(proj: string, lang: string, obj: seq<string>)
    requires proj != "" && lang != "" && Something(obj)
    ensures FirstMatch([proj, lang, "timeline"] + obj) == Some(Match(proj, lang, "timeline", "render", obj, ""))
  {
    var s := [proj, lang, "timeline"] + obj;
    assert s[3..] == obj && s[2..][0] == "timeline";
  }

  /** A math path is routed as one unless its third directory could be the hash
      directory of an upload of the wiki called `math`. */
  lemma MathRoutedIff(h1: string, h2: string, rest: seq<string>)
    requires Hex(h1, 1) && Hex(h2, 1) && Something(rest)
    ensures var m := Match("global", "data", "math", "render", [h1, h2] + rest, h1 + h2);
      FirstMatch(["math", h1, h2] + rest) == Some(m) <==> !(|rest| >= 2 && Hex(rest[0], 2) && Something(rest[1..]))
  {
    var s := ["math", h1, h2] + rest;
    assert s[3..] == rest && s[2..] == [h2] + rest && s[1..] == [h1, h2] + rest;
    assert rest != [];
    assert ([h2] + rest)[2..] == rest[1..];
    assert h2 !in ZONES && h2 != "timeline" && h2 !in {"temp", "archive"};
  }

  /** A score path is routed as one unless it reads as an upload, with or without a
      zone, or a timeline of the wiki called `score`, with the object's first
      directory for the language. */
  lemma ScoreRoutedIff(obj: seq<string>)
    requires obj != [] && Something(obj)
    ensures FirstMatch(["score"] + obj) == Some(Match("global", "data", "score", "render", obj, "")) <==>
      !(&& |obj| >= 2 && obj[0] != ""
        && (|| Upload(obj[1..])
            || (obj[1] in ZONES && Upload(obj[2..]))
            || (obj[1] == "timeline" && Something(obj[2..]))))
  {
    var s := ["score"] + obj;
    assert s[1..] == obj;
    if |obj| >= 2 {
      assert s[2..] == obj[1..] && s[3..] == obj[2..];
    }
  }

  /** A math path whose third directory has two hexadecimal digits, a score path laid
      out like a wiki's directory, and an object that lies under `temp`: each is taken
      for something else. */
  lemma SomePathsAreMistaken()
    ensures FirstMatch(["math", "c", "9", "fa", "x"])
      == Some(Match("math", "c", "local", "public", ["9", "fa", "x"], "fa"))
    ensures FirstMatch(["score", "j", "a", "ab", "x"])
      == Some(Match("score", "j", "local", "public", ["a", "ab", "x"], "ab"))
    ensures FirstMatch(["score", "en", "timeline", "x"]) == Some(Match("score", "en", "timeline", "render", ["x"], ""))
    ensures FirstMatch(["w", "en"] + ["temp", "a", "ab", "x"])
      == Some(Match("w", "en", "local", "temp", ["a", "ab", "x"], "ab"))
  {
    JoinOne("x");
    assert Something(["x"]);
    assert ["9", "fa", "x"][2..] == ["x"] && ["a", "ab", "x"][2..] == ["x"];
    assert Upload(["9", "fa", "x"]) && Upload(["a", "ab", "x"]);
    assert ["math", "c", "9", "fa", "x"][2..] == ["9", "fa", "x"];
    assert ["score", "j", "a", "ab", "x"][2..] == ["a", "ab", "x"];
    assert ["score", "en", "timeline", "x"][3..] == ["x"] && ["score", "en", "timeline", "x"][2..] == ["timeline", "x"];
    assert ["w", "en"] + ["temp", "a", "ab", "x"] == ["w", "en", "temp"] + ["a", "ab", "x"];
    ZonedUploadRouted("w", "en", "temp", ["a", "ab", "x"]);
  }

  lemma JoinOne(x: string)
    ensures Join([x], '/') == x
  {}

  // ---------- injectivity ----------

  /** A path's segments read back from what was captured. */
  function Rebuilt(m: Match): seq<string> {
    if m.repo == "local" then
      if m.zone == "public" then [m.proj, m.lang] + m.obj else [m.proj, m.lang, m.zone] + m.obj
    else if m.repo == "timeline" then [m.proj, m.lang, "timeline"] + m.obj
    else [m.repo] + m.obj
  }

  const REPOS := {"local", "timeline", "math", "score"}

  const ALL_ZONES := {"transcoded", "thumb", "temp", "public", "render"}

  /** The repositories that each wiki has one of. */
  const WIKI_REPOS := {"local", "timeline"}

  /** The shard is a part of the object. */
  function ShardOf(repo: string, obj: seq<string>): string {
    if repo == "local" && Upload(obj) then HashDirectory(obj)
    else if repo == "math" && |obj| >= 2 then obj[0] + obj[1]
    else ""
  }

  /** What every match satisfies, whichever pattern made it. */
  predicate Shaped(m: Match, s: seq<string>) {
    && Rebuilt(m) == s
    && m.obj != []
    && m.repo in REPOS && m.zone in ALL_ZONES
    && m.shard == ShardOf(m.repo, m.obj) && '-' !in m.shard
    && (m.repo in WIKI_REPOS ==> m.proj != "" && m.lang != "")
    && (m.repo !in WIKI_REPOS ==> m.proj == "global" && m.lang == "data")
  }

  lemma HexHasNoDash(s: string, n: nat)
    requires Hex(s, n)
    ensures '-' !in s
  {}

  lemma UploadShape(s: seq<string>)
    requires MatchUpload(s).Some?
    ensures Shaped(MatchUpload(s).value, s)
  {
    var m := MatchUpload(s).value;
    HexHasNoDash(m.shard, 2);
    assert s == [s[0], s[1]] + s[2..] && s == [s[0], s[1], s[2]] + s[3..];
  }

  lemma TimelineShape(s: seq<string>)
    requires MatchTimeline(s).Some?
    ensures Shaped(MatchTimeline(s).value, s)
  {
    assert s == [s[0], s[1], s[2]] + s[3..];
  }

  lemma MathShape(s: seq<string>)
    requires MatchMath(s).Some?
    ensures Shaped(MatchMath(s).value, s)
  {
    HexHasNoDash(s[1], 1);
    HexHasNoDash(s[2], 1);
    assert s == [s[0]] + s[1..];
  }

  lemma ScoreShape(s: seq<string>)
    requires MatchScore(s).Some?
    ensures Shaped(MatchScore(s).value, s)
  {
    assert s == [s[0]] + s[1..];
  }

  lemma MatchShape(s: seq<string>)
    requires FirstMatch(s).Some?
    ensures Shaped(FirstMatch(s).value, s)
  {
    hide Shaped, MatchUpload, MatchTimeline, MatchMath, MatchScore;
    if MatchUpload(s).Some? {
      UploadShape(s);
    } else if MatchTimeline(s).Some? {
      TimelineShape(s);
    } else if MatchMath(s).Some? {
      MathShape(s);
    } else {
      ScoreShape(s);
    }
  }

  lemma SegmentsOf(path: string)
    requires StartsWith(path, "/")
    ensures Segments(path) != [] && path == Join([""] + Segments(path), '/')
  {
    JoinSplit(path, '/');
    assert path == "" + ['/'] + path[1..];
    SplitAt("", path[1..], '/');
  }

  /** The part of the container name after the last dash. */
  function ZonePart(m: Match, cfg: Sharding): string {
    if IsSharded(cfg, ConceptualContainer(m)) then m.zone + "." + m.shard else m.zone
  }

  /** What stands for the wiki in a container's name. */
  function Wiki(m: Match): string {
    m.proj + "-" + m.lang
  }

  lemma ContainerParts(m: Match, cfg: Sharding)
    ensures ConceptualContainer(m) == Wiki(m) + "-" + m.repo + "-" + m.zone
    ensures Container(m, cfg) == Wiki(m) + "-" + m.repo + "-" + ZonePart(m, cfg)
  {
    JoinFour(m.proj, m.lang, m.repo, m.zone);
    assert m.proj + "-" + (m.lang + "-" + (m.repo + "-" + m.zone)) == Wiki(m) + "-" + m.repo + "-" + m.zone;
    if IsSharded(cfg, ConceptualContainer(m)) {
      assert Wiki(m) + "-" + m.repo + "-" + m.zone + "." + m.shard
        == Wiki(m) + "-" + m.repo + "-" + (m.zone + "." + m.shard);
    }
  }

  lemma JoinFour(a: string, b: string, c: string, d: string)
    ensures Join([a, b, c, d], '-') == a + "-" + (b + "-" + (c + "-" + d))
  {
    JoinHead(a, [b, c, d], '-');
    JoinHead(b, [c, d], '-');
    JoinHead(c, [d], '-');
  }

  lemma PlainNames(m: Match)
    requires m.repo in REPOS && m.zone in ALL_ZONES
    ensures '-' !in m.repo && '-' !in m.zone && '.' !in m.zone
  {}

  lemma ZonePartTells(m: Match, s: seq<string>, cfg: Sharding)
    requires Shaped(m, s)
    ensures '-' !in m.repo && '-' !in ZonePart(m, cfg)
    ensures Split(ZonePart(m, cfg), '.')[0] == m.zone
  {
    PlainNames(m);
    hide IsSharded;
    if IsSharded(cfg, ConceptualContainer(m)) {
      SplitAt(m.zone, m.shard, '.');
    } else {
      SplitPlain(m.zone, '.');
    }
  }

  /** A text is split at its last dash in one way only. */
  lemma LastDash(a: string, x: string, b: string, y: string)
    requires '-' !in x && '-' !in y
    requires a + "-" + x == b + "-" + y
    ensures a == b && x == y
  {
    DashInside(a, x, b, y);
    DashInside(b, y, a, x);
    SameLength(a, x, b, y);
  }

  lemma SameLength(a: string, x: string, b: string, y: string)
    requires |a| == |b| && a + "-" + x == b + "-" + y
    ensures a == b && x == y
  {
    var left, right := a + "-" + x, b + "-" + y;
    assert a == left[..|a|] && b == right[..|b|];
    assert x == left[|a| + 1..] && y == right[|b| + 1..];
  }

  /** A shorter left side puts the dash inside the longer one, and the longer one's
      dash inside the other right side. */
  lemma DashInside(a: string, x: string, b: string, y: string)
    ensures a + "-" + x == b + "-" + y && |a| < |b| ==>
      |b| - |a| - 1 < |x| && b[|a|] == '-' && x[|b| - |a| - 1] == '-'
  {
    if a + "-" + x == b + "-" + y && |a| < |b| {
      var left, right := a + "-" + x, b + "-" + y;
      assert left[|a|] == '-' && right[|a|] == b[|a|];
      assert right[|b|] == '-' && left[|b|] == x[|b| - |a| - 1];
    }
  }

  /** The container name tells wiki, repository and zone, whatever the sharding and
      whatever dashes the wiki's name has. */
  lemma ContainerTellsAll(m: Match, s: seq<string>, n: Match, t: seq<string>, cfg: Sharding)
    requires Shaped(m, s) && Shaped(n, t)
    requires Container(m, cfg) == Container(n, cfg)
    ensures Wiki(m) == Wiki(n) && m.repo == n.repo && m.zone == n.zone
  {
    hide Container, ZonePart, Shaped, Wiki;
    ContainerParts(m, cfg);
    ContainerParts(n, cfg);
    ZonePartTells(m, s, cfg);
    ZonePartTells(n, t, cfg);
    LastDash(Wiki(m) + "-" + m.repo, ZonePart(m, cfg), Wiki(n) + "-" + n.repo, ZonePart(n, cfg));
    LastDash(Wiki(m), m.repo, Wiki(n), n.repo);
  }

  lemma ObjectParts(a: Match, b: Match, s: seq<string>, t: seq<string>)
    requires Rebuilt(a) == s && Rebuilt(b) == t && a.obj != [] && b.obj != []
    requires forall x :: x in s ==> '/' !in x
    requires forall x :: x in t ==> '/' !in x
    requires Join(a.obj, '/') == Join(b.obj, '/')
    ensures a.obj == b.obj
  {
    forall x | x in a.obj ensures '/' !in x { assert x in s; }
    forall x | x in b.obj ensures '/' !in x { assert x in t; }
    SplitJoin(a.obj, '/');
    SplitJoin(b.obj, '/');
  }

  lemma RoutedShape(path: string, cfg: Sharding)
    requires Route(path, cfg).Some?
    ensures Segments(path) != [] && path == PathOf(Segments(path))
    ensures forall x :: x in Segments(path) ==> '/' !in x
    ensures FirstMatch(Segments(path)).Some? && Shaped(FirstMatch(Segments(path)).value, Segments(path))
  {
    hide FirstMatch, Shaped, Join, Split;
    SegmentsOf(path);
    SplitParts(path, '/');
    forall x | x in Segments(path) ensures '/' !in x { assert x in Split(path, '/'); }
    MatchShape(Segments(path));
  }

  /** Exactly when two paths are routed to the same container and object: the joined
      name of the wiki, the repository, the zone and the object are the same. */
  lemma SameTargetIff(path: string, other: string, cfg: Sharding)
    requires Route(path, cfg).Some? && Route(other, cfg).Some?
    ensures var m, n := FirstMatch(Segments(path)).value, FirstMatch(Segments(other)).value;
      Route(path, cfg) == Route(other, cfg) <==>
        Wiki(m) == Wiki(n) && m.repo == n.repo && m.zone == n.zone && m.obj == n.obj
  {
    var s, t := Segments(path), Segments(other);
    var m, n := FirstMatch(s).value, FirstMatch(t).value;
    RoutedShape(path, cfg);
    RoutedShape(other, cfg);
    assert Rebuilt(m) == s && Rebuilt(n) == t && m.obj != [] && n.obj != [];
    assert m.shard == ShardOf(m.repo, m.obj) && n.shard == ShardOf(n.repo, n.obj);
    hide FirstMatch, Container, Join, Shaped, Wiki, Rebuilt, ShardOf;
    if Route(path, cfg) == Route(other, cfg) {
      ContainerTellsAll(m, s, n, t, cfg);
      ObjectParts(m, n, s, t);
    }
    if Wiki(m) == Wiki(n) && m.repo == n.repo && m.zone == n.zone && m.obj == n.obj {
      SameContainer(m, n, cfg);
    }
  }

  lemma SameContainer(m: Match, n: Match, cfg: Sharding)
    requires Wiki(m) == Wiki(n) && m.repo == n.repo && m.zone == n.zone && m.shard == n.shard
    ensures Container(m, cfg) == Container(n, cfg)
  {
    ContainerParts(m, cfg);
    ContainerParts(n, cfg);
  }

  /** The joined name has a second split with something on both sides: a dash behind
      the first character of the project or before the last one of the language. */
  predicate SecondSplit(proj: string, lang: string) {
    || (exists k :: 0 < k < |proj| && proj[k] == '-')
    || (exists k :: 0 <= k < |lang| - 1 && lang[k] == '-')
  }

  lemma OneSplit(proj: string, lang: string, proj': string, lang': string)
    requires !SecondSplit(proj, lang)
    requires proj' != "" && lang' != "" && proj + "-" + lang == proj' + "-" + lang'
    ensures proj == proj' && lang == lang'
  {
    DashInside(proj, lang, proj', lang');
    DashInside(proj', lang', proj, lang);
    assert |proj| + |lang| == |proj'| + |lang'| by {
      assert |proj + "-" + lang| == |proj' + "-" + lang'|;
    }
    SameLength(proj, lang, proj', lang');
  }

  /** Where the wiki's joined name has one split only, container and object tell the
      path: across the four families, and under any sharding setting. */
  lemma RouteIsInjective(path: string, other: string, cfg: Sharding)
    requires Route(path, cfg).Some? && Route(path, cfg) == Route(other, cfg)
    requires !SecondSplit(FirstMatch(Segments(path)).value.proj, FirstMatch(Segments(path)).value.lang)
    ensures path == other
  {
    var s, t := Segments(path), Segments(other);
    var m, n := FirstMatch(s).value, FirstMatch(t).value;
    RoutedShape(path, cfg);
    RoutedShape(other, cfg);
    SameTargetIff(path, other, cfg);
    hide FirstMatch, Route, Join, SecondSplit, ShardOf;
    if m.repo in WIKI_REPOS {
      OneSplit(m.proj, m.lang, n.proj, n.lang);
    }
    assert Rebuilt(m) == Rebuilt(n);
  }

  function PathOf(segments: seq<string>): string {
    Join([""] + segments, '/')
  }

  lemma PathOfSegments(segments: seq<string>)
    requires segments != [] && forall x :: x in segments ==> '/' !in x
    ensures StartsWith(PathOf(segments), "/") && Segments(PathOf(segments)) == segments
  {
    JoinHead("", segments, '/');
    SplitJoin([""] + segments, '/');
  }

  /** From the path as text to the container and object as text: the four parts with
      dashes between, the shard after a dot where there is sharding, and the object
      below it. */
  lemma RoutedPath(segments: seq<string>, m: Match, cfg: Sharding)
    requires segments != [] && forall x :: x in segments ==> '/' !in x
    requires FirstMatch(segments) == Some(m)
    ensures var name := m.proj + "-" + m.lang + "-" + m.repo + "-" + m.zone;
      var container := match cfg
                       case All => name + "." + m.shard
                       case Listed(names) => if name in names then name + "." + m.shard else name
                       case Unsharded => name;
      Route(PathOf(segments), cfg) == Some(Target(container, Join(m.obj, '/')))
  {
    hide FirstMatch, Join;
    PathOfSegments(segments);
    JoinFour(m.proj, m.lang, m.repo, m.zone);
    assert m.proj + "-" + m.lang + "-" + m.repo + "-" + m.zone
      == m.proj + "-" + (m.lang + "-" + (m.repo + "-" + m.zone));
  }

  function Named(m: Option<Match>, proj: string, lang: string): Option<Match> {
    if m.None? then None else Some(m.value.(proj := proj, lang := lang))
  }

  /** Uploads and timelines are recognised by what follows the wiki's name. */
  lemma Renamed(s: seq<string>, proj: string, lang: string)
    requires InWiki(s) && proj != "" && lang != ""
    ensures var t := [proj, lang] + s[2..];
      && MatchUpload(t) == Named(MatchUpload(s), proj, lang)
      && MatchTimeline(t) == Named(MatchTimeline(s), proj, lang)
  {
    var t := [proj, lang] + s[2..];
    assert t[2..] == s[2..] && t[3..] == s[3..] && t[2] == s[2];
  }

  predicate OfWiki(s: seq<string>) {
    MatchUpload(s).Some? || MatchTimeline(s).Some?
  }

  lemma OfWikiIff(s: seq<string>)
    requires FirstMatch(s).Some?
    ensures OfWiki(s) <==> FirstMatch(s).value.repo in WIKI_REPOS
    ensures OfWiki(s) ==> InWiki(s) && FirstMatch(s).value.proj == s[0] && FirstMatch(s).value.lang == s[1]
  {}

  /** A dash between two parts of a wiki's name that are not empty may belong to
      either: the upload or timeline of the one wiki collides with that of the other. */
  lemma DashesCollide(a: string, b: string, c: string, tail: seq<string>, cfg: Sharding)
    requires a != "" && c != "" && '/' !in a && '/' !in b && '/' !in c
    requires OfWiki([a + "-" + b, c] + tail) && forall x :: x in tail ==> '/' !in x
    ensures var p, q := PathOf([a + "-" + b, c] + tail), PathOf([a, b + "-" + c] + tail);
      p != q && Route(p, cfg) == Route(q, cfg) != None
  {
    var s, t := [a + "-" + b, c] + tail, [a, b + "-" + c] + tail;
    assert s[2..] == tail;
    Renamed(s, a, b + "-" + c);
    var m, n := FirstMatch(s).value, FirstMatch(t).value;
    assert n == m.(proj := a, lang := b + "-" + c) && m.proj == a + "-" + b && m.lang == c;
    assert Wiki(m) == Wiki(n) by { assert a + "-" + b + "-" + c == a + "-" + (b + "-" + c); }
    hide FirstMatch, Join, OfWiki, Wiki;
    PathOfSegments(s);
    PathOfSegments(t);
    assert s[0] != t[0];
    SameTargetIff(PathOf(s), PathOf(t), cfg);
  }

  /** Exactly which paths share their target with another one: the uploads and the
      timelines of wikis whose joined name has a second split. A path as it is after
      collapsing shares it with another such path. */
  lemma SharedTargetIff(path: string, cfg: Sharding)
    requires Route(path, cfg).Some?
    ensures (exists other :: other != path && Route(other, cfg) == Route(path, cfg)) <==>
      OfWiki(Segments(path)) && SecondSplit(Segments(path)[0], Segments(path)[1])
    ensures NoDoubleSlash(path) ==>
      ((exists other :: NoDoubleSlash(other) && other != path && Route(other, cfg) == Route(path, cfg)) <==>
        OfWiki(Segments(path)) && SecondSplit(Segments(path)[0], Segments(path)[1]))
  {
    var s := Segments(path);
    var m := FirstMatch(s).value;
    RoutedShape(path, cfg);
    OfWikiIff(s);
    if OfWiki(s) && SecondSplit(s[0], s[1]) {
      var other := TwinOf(path, cfg);
      assert other != path && Route(other, cfg) == Route(path, cfg);
      assert NoDoubleSlash(path) ==> NoDoubleSlash(other);
    } else if exists other :: other != path && Route(other, cfg) == Route(path, cfg) {
      var other :| other != path && Route(other, cfg) == Route(path, cfg);
      assert !SecondSplit(m.proj, m.lang);
      RouteIsInjective(path, other, cfg);
      assert false;
    }
  }

  lemma CutAt(x: string, k: nat)
    requires k < |x| && x[k] == '-' && '/' !in x
    ensures x == x[..k] + "-" + x[k + 1..] && '/' !in x[..k] && '/' !in x[k + 1..]
  {}

  lemma Prefixed(p: string, x: string)
    requires p != "" && '/' !in p && x != "" && x[0] == '/'
    ensures NoDoubleSlash("/" + p + x) <==> NoDoubleSlash(x)
  {
    var s := "/" + p + x;
    if NoDoubleSlash(s) {
      forall i | 0 <= i < |x| - 1 ensures !(x[i] == '/' && x[i + 1] == '/') {
        assert s[1 + |p| + i] == x[i] && s[1 + |p| + i + 1] == x[i + 1];
      }
    }
    if NoDoubleSlash(x) {
      forall i | 0 <= i < |s| - 1 ensures !(s[i] == '/' && s[i + 1] == '/') {
        if i <= |p| {
          assert i < |p| ==> s[i + 1] == p[i];
          assert i == |p| ==> s[i] == p[i - 1];
        } else {
          assert s[i] == x[i - |p| - 1] && s[i + 1] == x[i - |p|];
        }
      }
    }
  }

  /** Whether a path has two adjacent slashes does not depend on the wiki's name. */
  lemma CollapsedToo(proj: string, lang: string, proj': string, lang': string, tail: seq<string>)
    requires proj != "" && lang != "" && proj' != "" && lang' != "" && tail != []
    requires '/' !in proj && '/' !in lang && '/' !in proj' && '/' !in lang'
    ensures NoDoubleSlash(PathOf([proj, lang] + tail)) <==> NoDoubleSlash(PathOf([proj', lang'] + tail))
  {
    hide NoDoubleSlash, Join;
    CollapsedTail(proj, lang, tail);
    CollapsedTail(proj', lang', tail);
  }

  lemma PathText(proj: string, lang: string, tail: seq<string>)
    requires tail != []
    ensures PathOf([proj, lang] + tail) == "/" + proj + ("/" + lang + ("/" + Join(tail, '/')))
  {
    hide Join;
    var langOn := [lang] + tail;
    var projOn := [proj] + langOn;
    assert [""] + ([proj, lang] + tail) == [""] + projOn;
    JoinHead("", projOn, '/');
    JoinHead(proj, langOn, '/');
    JoinHead(lang, tail, '/');
  }

  lemma CollapsedTail(proj: string, lang: string, tail: seq<string>)
    requires proj != "" && lang != "" && tail != [] && '/' !in proj && '/' !in lang
    ensures NoDoubleSlash(PathOf([proj, lang] + tail)) <==> NoDoubleSlash("/" + Join(tail, '/'))
  {
    hide *;
    PathText(proj, lang, tail);
    Prefixed(proj, "/" + lang + ("/" + Join(tail, '/')));
    Prefixed(lang, "/" + Join(tail, '/'));
  }

  lemma TwinOf(path: string, cfg: Sharding) returns (other: string)
    requires Route(path, cfg).Some? && OfWiki(Segments(path)) && SecondSplit(Segments(path)[0], Segments(path)[1])
    ensures other != path && Route(other, cfg) == Route(path, cfg)
    ensures NoDoubleSlash(path) ==> NoDoubleSlash(other)
  {
    var s := Segments(path);
    RoutedShape(path, cfg);
    OfWikiIff(s);
    var proj, lang, tail := s[0], s[1], s[2..];
    assert s == [proj, lang] + tail && tail != [] && proj != "" && lang != "";
    assert '/' !in proj && '/' !in lang && forall x :: x in tail ==> '/' !in x;
    hide FirstMatch, Join, OfWiki, Route, Segments, Shaped, InWiki, PathOf;
    if k :| 0 < k < |proj| && proj[k] == '-' {
      other := TwinOfProject(proj, k, lang, tail, cfg);
    } else {
      var k :| 0 <= k < |lang| - 1 && lang[k] == '-';
      other := TwinOfLanguage(proj, lang, k, tail, cfg);
    }
  }

  lemma TwinOfProject(proj: string, k: nat, lang: string, tail: seq<string>, cfg: Sharding) returns (other: string)
    requires 0 < k < |proj| && proj[k] == '-' && lang != "" && '/' !in proj && '/' !in lang
    requires tail != [] && OfWiki([proj, lang] + tail) && forall x :: x in tail ==> '/' !in x
    ensures var p := PathOf([proj, lang] + tail); other != p && Route(other, cfg) == Route(p, cfg)
    ensures NoDoubleSlash(PathOf([proj, lang] + tail)) ==> NoDoubleSlash(other)
  {
    hide *;
    CutAt(proj, k);
    DashesCollide(proj[..k], proj[k + 1..], lang, tail, cfg);
    other := PathOf([proj[..k], proj[k + 1..] + "-" + lang] + tail);
    CollapsedToo(proj, lang, proj[..k], proj[k + 1..] + "-" + lang, tail);
  }

  lemma TwinOfLanguage(proj: string, lang: string, k: nat, tail: seq<string>, cfg: Sharding) returns (other: string)
    requires k < |lang| - 1 && lang[k] == '-' && proj != "" && '/' !in proj && '/' !in lang
    requires tail != [] && OfWiki([proj, lang] + tail) && forall x :: x in tail ==> '/' !in x
    ensures var p := PathOf([proj, lang] + tail); other != p && Route(other, cfg) == Route(p, cfg)
    ensures NoDoubleSlash(PathOf([proj, lang] + tail)) ==> NoDoubleSlash(other)
  {
    var s, b, c := [proj, lang] + tail, lang[..k], lang[k + 1..];
    assert InWiki(s) && s[2..] == tail;
    Renamed(s, proj + "-" + b, c);
    assert OfWiki([proj + "-" + b, c] + tail);
    hide *;
    CutAt(lang, k);
    DashesCollide(proj, b, c, tail, cfg);
    other := PathOf([proj + "-" + b, c] + tail);
    CollapsedToo(proj, lang, proj + "-" + b, c, tail);
  }

  // ---------- slashes ----------

  predicate NoDoubleSlash(s: string) {
    forall i :: 0 <= i < |s| - 1 ==> !(s[i] == '/' && s[i + 1] == '/')
  }

  /** Collapsing leaves no two slashes in a row, and paths without them alone. */
  lemma {:induction false} CollapseLeavesSingles(s: string)
    ensures NoDoubleSlash(Collapse(s))
    ensures s != [] ==> Collapse(s) != [] && Collapse(s)[0] == s[0]
    ensures NoDoubleSlash(s) ==> Collapse(s) == s
  {
    if s != [] {
      CollapseLeavesSingles(s[1..]);
      assert NoDoubleSlash(s) ==> NoDoubleSlash(s[1..]);
    }
  }

  /** Two slashes count as one, wherever they are. */
  lemma {:induction false} DoubleIsSingle(a: string, b: string)
    ensures Collapse(a + "//" + b) == Collapse(a + "/" + b)
  {
    var two, one := a + "//" + b, a + "/" + b;
    if a == [] {
      assert two[1..] == one;
    } else {
      assert two[1..] == a[1..] + "//" + b && one[1..] == a[1..] + "/" + b;
      DoubleIsSingle(a[1..], b);
      assert |a| > 1 ==> two[1] == a[1] == one[1];
    }
  }

  // ---------- whole paths ----------

  /** An upload, from its path to its container and object: with a named zone or without
      one, and sharded by its second hash directory where the container is. */
  lemma UploadTarget(proj: string, lang: string, zone: string, pre: seq<string>, h1: string, h2: string,
      rest: seq<string>, cfg: Sharding)
    requires zone in {"public", "transcoded", "thumb", "temp"} && proj != "" && lang != ""
    requires UploadParts(pre, h1, h2, rest) && (zone == "public" ==> pre != ["temp"])
    requires '/' !in proj && '/' !in lang && forall x :: x in rest ==> '/' !in x
    ensures var obj := pre + [h1, h2] + rest;
      var path := PathOf(if zone == "public" then [proj, lang] + obj else [proj, lang, zone] + obj);
      var name := proj + "-" + lang + "-" + "local" + "-" + zone;
      var container := match cfg
                       case All => name + "." + h2
                       case Listed(names) => if name in names then name + "." + h2 else name
                       case Unsharded => name;
      Route(path, cfg) == Some(Target(container, Join(obj, '/')))
  {
    var obj := pre + [h1, h2] + rest;
    var s := if zone == "public" then [proj, lang] + obj else [proj, lang, zone] + obj;
    var m := Match(proj, lang, "local", zone, obj, h2);
    hide Route, PathOf, Join, FirstMatch;
    UploadIs(pre, h1, h2, rest);
    if zone == "public" {
      PublicUploadRoutedIff(proj, lang, obj);
      assert obj[0] != "temp";
    } else {
      ZonedUploadRouted(proj, lang, zone, obj);
    }
    forall x | x in s ensures '/' !in x {
      assert '/' !in h1 && '/' !in h2 && '/' !in zone;
    }
    RoutedPath(s, m, cfg);
  }
}

/** The string operations of Python that the models of line-based files use. */
module Text {

  predicate IsSpace(c: char) {
    c == ' ' || 9 <= c as int <= 13
  }

  function StripLeft(s: string): string {
    if s != [] && IsSpace(s[0]) then StripLeft(s[1..]) else s
  }

  function StripRight(s: string): string {
    if s != [] && IsSpace(s[|s| - 1]) then StripRight(s[..|s| - 1]) else s
  }

  /** `str.strip()`. */
  function Strip(s: string): string {
    StripRight(StripLeft(s))
  }

  /** `s.startswith(p)`. */
  predicate StartsWith(s: string, p: string) {
    p <= s
  }

  /** `sub in s`. */
  predicate Contains(s: string, sub: string) {
    exists i :: 0 <= i <= |s| - |sub| && OccursAt(s, sub, i)
  }

  predicate OccursAt(s: string, sub: string, i: nat) {
    i + |sub| <= |s| && s[i..i + |sub|] == sub
  }

  lemma {:induction false} StripLeftSuffix(s: string) returns (i: nat)
    ensures i <= |s| && StripLeft(s) == s[i..]
    ensures StripLeft(s) != [] ==> !IsSpace(StripLeft(s)[0])
  {
    if s != [] && IsSpace(s[0]) {
      i := StripLeftSuffix(s[1..]);
      i := i + 1;
    } else {
      i := 0;
    }
  }

  lemma {:induction false} StripRightPrefix(s: string) returns (j: nat)
    ensures j <= |s| && StripRight(s) == s[..j]
    ensures s != [] && !IsSpace(s[0]) ==> j > 0
    ensures StripRight(s) != [] ==> !IsSpace(StripRight(s)[|StripRight(s)| - 1])
  {
    if s != [] && IsSpace(s[|s| - 1]) {
      j := StripRightPrefix(s[..|s| - 1]);
    } else {
      j := |s|;
    }
  }

  lemma StripSlice(s: string) returns (i: nat, j: nat)
    ensures i <= j <= |s| && Strip(s) == s[i..j]
    ensures Strip(s) != [] ==> !IsSpace(Strip(s)[0]) && !IsSpace(Strip(s)[|Strip(s)| - 1])
  {
    i := StripLeftSuffix(s);
    var k := StripRightPrefix(StripLeft(s));
    j := i + k;
  }

  /** A line that starts with a visible character keeps it when stripped, and is
      its own stripped form when it ends with one too. */
  lemma StripVisible(s: string)
    requires s != [] && !IsSpace(s[0])
    ensures Strip(s) != [] && Strip(s)[0] == s[0]
    ensures !IsSpace(s[|s| - 1]) ==> Strip(s) == s
  {
    var j := StripRightPrefix(s);
  }

  /** Exactly what surrounds a text is stripped: blanks, tabs, line breaks and the other
      two control characters that Python counts as white space. */
  lemma StripPadded(a: string, m: string, b: string)
    requires forall x :: x in a + b ==> x in {' ', '\t', '\n', '\r', 11 as char, 12 as char}
    requires m != [] ==> !IsSpace(m[0]) && !IsSpace(m[|m| - 1])
    requires m == [] ==> b == []
    ensures Strip(a + m + b) == m
  {
    assert a + m + b == a + (m + b);
    forall x | x in a + b ensures IsSpace(x) {}
    StripLeftPadded(a, m + b);
    StripRightPadded(m, b);
  }

  lemma {:induction false} StripLeftPadded(a: string, s: string)
    requires forall x :: x in a ==> IsSpace(x)
    requires s != [] ==> !IsSpace(s[0])
    ensures StripLeft(a + s) == s
  {
    if a == [] {
      assert a + s == s;
    } else {
      assert (a + s)[1..] == a[1..] + s;
      StripLeftPadded(a[1..], s);
    }
  }

  lemma {:induction false} StripRightPadded(s: string, b: string)
    requires forall x :: x in b ==> IsSpace(x)
    requires s != [] ==> !IsSpace(s[|s| - 1])
    ensures StripRight(s + b) == s
  {
    if b == [] {
      assert s + b == s;
    } else {
      assert (s + b)[..|s + b| - 1] == s + b[..|b| - 1];
      StripRightPadded(s, b[..|b| - 1]);
    }
  }

  lemma IsSpaceIff(c: char)
    ensures IsSpace(c) <==> c in {' ', '\t', '\n', '\r', 11 as char, 12 as char}
  {}

  lemma StartsWithIff(s: string, p: string)
    ensures StartsWith(s, p) <==> exists x :: s == p + x
  {
    if StartsWith(s, p) { assert s == p + s[|p|..]; }
  }

  lemma ContainsIff(s: string, sub: string)
    ensures Contains(s, sub) <==> exists a, b :: s == a + sub + b
  {
    if Contains(s, sub) {
      var i :| 0 <= i <= |s| - |sub| && OccursAt(s, sub, i);
      assert s == s[..i] + sub + s[i + |sub|..];
    }
    if exists a, b :: s == a + sub + b {
      var a, b :| s == a + sub + b;
      ContainsMiddle(a, sub, b);
    }
  }

  lemma ContainsStripped(s: string, sub: string)
    requires Contains(Strip(s), sub)
    ensures Contains(s, sub)
  {
    var i, j := StripSlice(s);
    var k :| 0 <= k <= |Strip(s)| - |sub| && OccursAt(Strip(s), sub, k);
    forall m | 0 <= m < |sub| ensures s[i + k + m] == sub[m] {
      assert s[i + k + m] == Strip(s)[k + m] == Strip(s)[k..k + |sub|][m];
    }
    assert s[i + k..i + k + |sub|] == sub;
    assert OccursAt(s, sub, i + k);
  }

  lemma ContainsMiddle(a: string, sub: string, c: string)
    ensures Contains(a + sub + c, sub)
  {
    assert OccursAt(a + sub + c, sub, |a|);
  }

  /** `s.split(c)` for a one-character separator: never an empty list. */
  function Split(s: string, c: char): (parts: seq<string>)
    ensures parts != []
  {
    if s == [] then [""]
    else
      var parts := Split(s[1..], c);
      if s[0] == c then [""] + parts else [[s[0]] + parts[0]] + parts[1..]
  }

  /** `c.join(parts)`. */
  function Join(parts: seq<string>, c: char): string {
    if parts == [] then ""
    else if |parts| == 1 then parts[0]
    else parts[0] + [c] + Join(parts[1..], c)
  }

  lemma {:induction false} SplitParts(s: string, c: char)
    ensures forall p :: p in Split(s, c) ==> c !in p
  {
    if s != [] {
      SplitParts(s[1..], c);
      var parts := Split(s[1..], c);
      assert parts[0] in parts && forall p :: p in parts[1..] ==> p in parts;
    }
  }

  lemma {:induction false} SplitPlain(p: string, c: char)
    requires c !in p
    ensures Split(p, c) == [p]
  {
    if p != [] {
      SplitPlain(p[1..], c);
      assert [p[0]] + p[1..] == p;
    }
  }

  lemma {:induction false} SplitAt(p: string, s: string, c: char)
    requires c !in p
    ensures Split(p + [c] + s, c) == [p] + Split(s, c)
  {
    var whole := p + [c] + s;
    if p == [] {
      assert whole[1..] == s;
    } else {
      assert whole[1..] == p[1..] + [c] + s;
      SplitAt(p[1..], s, c);
      assert [p[0]] + p[1..] == p;
    }
  }

  /** Splitting undoes joining parts that do not contain the separator. */
  lemma {:induction false} SplitJoin(parts: seq<string>, c: char)
    requires parts != [] && forall p :: p in parts ==> c !in p
    ensures Split(Join(parts, c), c) == parts
  {
    if |parts| == 1 {
      SplitPlain(parts[0], c);
    } else {
      SplitJoin(parts[1..], c);
      SplitAt(parts[0], Join(parts[1..], c), c);
    }
  }

  lemma {:induction false} JoinSplit(s: string, c: char)
    ensures Join(Split(s, c), c) == s
  {
    if s != [] {
      JoinSplit(s[1..], c);
      var parts := Split(s[1..], c);
      assert s == [s[0]] + s[1..];
      if s[0] == c {
        assert ([""] + parts)[1..] == parts;
      } else {
        var first := [s[0]] + parts[0];
        assert ([first] + parts[1..])[1..] == parts[1..];
        if |parts| > 1 {
          assert first + [c] + Join(parts[1..], c) == [s[0]] + (parts[0] + [c] + Join(parts[1..], c));
        }
      }
    }
  }

  lemma JoinHead(p: string, parts: seq<string>, c: char)
    requires parts != []
    ensures Join([p] + parts, c) == p + [c] + Join(parts, c)
  {
    assert ([p] + parts)[1..] == parts;
  }
}

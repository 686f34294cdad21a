/** The two patterns of maketools.go, written out as matchers: the target
    declaration pattern `(?m)^([\w-]+):[\t ]*([^#\n]+)?[\t ]*(#[\t ]*(.*))?$`
    (maketools.go:18) and the include pattern `(?m)^-?include\s+(.*)$`
    (maketools.go:21). Both are searched with FindAllStringSubmatch: every
    non-overlapping match, leftmost first, each starting at a line start. */
module Grammar {
  import opened Results
  import opened Text

  /** `[\w-]`: an ASCII letter, digit, underscore or hyphen. */
  predicate IsNameChar(c: char)
  {
    ('a' <= c <= 'z') || ('A' <= c <= 'Z') || ('0' <= c <= '9') || c == '_' || c == '-'
  }

  /** `[\w-]+`: the name of a target. */
  predicate IsTargetName(s: string)
  {
    s != [] && forall i :: 0 <= i < |s| ==> IsNameChar(s[i])
  }

  /** `[\t ]`. */
  predicate IsBlank(c: char)
  {
    c == ' ' || c == '\t'
  }

  predicate IsBlanks(s: string)
  {
    forall i :: 0 <= i < |s| ==> IsBlank(s[i])
  }

  predicate NotHash(c: char)
  {
    c != '#'
  }

  /** The submatches of the declaration pattern that the parser reads:
      group 1 (the name), group 2 (the dependency text; "" when the optional
      group takes no part) and group 4 (the description; "" likewise). */
  datatype TargetMatch = TargetMatch(name: string, deps: string, desc: string)

  /** `line` reads as: the name, ':', the blanks `lead`, the dependency
      text, and then either nothing (and no description) or '#', the blanks
      `gap` and the description. The dependency text holds no '#', and neither
      it nor the description starts with a blank: the blanks before each
      belong to the separators, so the reading is unique. */
  ghost predicate ReadsAs(line: string, m: TargetMatch, lead: string, gap: string)
  {
    && IsTargetName(m.name)
    && '#' !in m.deps
    && (m.deps == [] || !IsBlank(m.deps[0]))
    && (m.desc == [] || !IsBlank(m.desc[0]))
    && IsBlanks(lead) && IsBlanks(gap)
    && ((line == m.name + (":" + (lead + m.deps)) && m.desc == [])
        || line == m.name + (":" + (lead + (m.deps + ("#" + (gap + m.desc))))))
  }

  /** The declaration pattern on one line (no part of the pattern matches a
      line break, so each match lies within one line). */
  function MatchTargetLine(line: string): (r: Option<TargetMatch>)
    ensures r.Some? ==> IsTargetName(r.value.name) && '#' !in r.value.deps
  {
    var n := SpanLength(line, IsNameChar);
    if n == 0 || n == |line| || line[n] != ':' then None
    else
      assert IsTargetName(line[..n]);
      Some(MatchAfterName(line[..n], line[n + 1..]))
  }

  /** The groups of a match whose name is `name`, given the text after the
      ':'. */
  function MatchAfterName(name: string, after: string): (m: TargetMatch)
    ensures m.name == name && '#' !in m.deps
  {
    var body := SkipBlanks(after);
    TargetMatch(name, DepsText(body), Description(body))
  }

  /** `s` after its leading `[\t ]*`. */
  function SkipBlanks(s: string): (r: string)
    ensures |r| <= |s| && s == s[..|s| - |r|] + r && IsBlanks(s[..|s| - |r|])
    ensures r == [] || !IsBlank(r[0])
  {
    var n := SpanLength(s, IsBlank);
    assert s == s[..n] + s[n..];
    s[n..]
  }

  /** Group 2, given the text after `:[\t ]*`: the `[^#\n]+` up to the
      first '#' (no line break occurs in a line). */
  function DepsText(body: string): (deps: string)
    ensures '#' !in deps
    ensures |deps| <= |body| && body[..|deps|] == deps
    ensures |deps| < |body| ==> body[|deps|] == '#'
    ensures (body == [] || !IsBlank(body[0])) ==> deps == [] || !IsBlank(deps[0])
  {
    var d := SpanLength(body, NotHash);
    assert forall i :: 0 <= i < d ==> body[..d][i] != '#';
    body[..d]
  }

  /** Group 4, given the text after `:[\t ]*`: what follows `#[\t ]*`, if
      there is a '#'. */
  function Description(body: string): (desc: string)
    ensures desc == [] || !IsBlank(desc[0])
  {
    var comment := body[|DepsText(body)|..];
    if comment == [] then [] else SkipBlanks(comment[1..])
  }

  /** The text after `:[\t ]*` reads as the dependency text, then either
      nothing or '#', blanks and the description. */
  lemma BodyDecomposes(body: string) returns (gap: string)
    ensures IsBlanks(gap)
    ensures (body == DepsText(body) && Description(body) == [])
      || body == DepsText(body) + ("#" + (gap + Description(body)))
  {
    var deps := DepsText(body);
    var comment := body[|deps|..];
    assert body == deps + comment by { assert body == body[..|deps|] + body[|deps|..]; }
    if comment == [] {
      gap := [];
    } else {
      var c := comment[1..];
      var desc := SkipBlanks(c);
      gap := c[..|c| - |desc|];
      assert comment[0] == '#' by { assert SpanLength(body, NotHash) == |deps|; }
      assert comment == [comment[0]] + c;
      assert c == gap + desc;
    }
  }

  /** A line matches iff it starts with a target name immediately followed
      by ':'. */
  lemma MatchTargetLineAccepts(line: string)
    ensures MatchTargetLine(line).Some? <==>
      exists k :: 0 < k < |line| && line[k] == ':' && IsTargetName(line[..k])
  {
    var n := SpanLength(line, IsNameChar);
    if MatchTargetLine(line).Some? {
      assert line[n] == ':' && IsTargetName(line[..n]);
    }
    if exists k :: 0 < k < |line| && line[k] == ':' && IsTargetName(line[..k]) {
      var k :| 0 < k < |line| && line[k] == ':' && IsTargetName(line[..k]);
      assert forall i :: 0 <= i < k ==> IsNameChar(line[i]) by {
        forall i | 0 <= i < k ensures IsNameChar(line[i]) { assert line[..k][i] == line[i]; }
      }
      assert !IsNameChar(line[k]);
      assert n == k;
    }
  }

  /** What a match reads from a line, stated on the line: name, ':',
      blanks, dependency text, and optionally '#', blanks, description. */
  lemma MatchTargetLineDecomposes(line: string) returns (lead: string, gap: string)
    requires MatchTargetLine(line).Some?
    ensures ReadsAs(line, MatchTargetLine(line).value, lead, gap)
  {
    MatchTargetLineValue(line);
    var n := SpanLength(line, IsNameChar);
    SplitAtColon(line, n);
    lead, gap := AfterNameDecomposes(line, line[..n], line[n + 1..]);
  }

  /** `line` is the text before `line[n]`, a ':', and the text after. */
  lemma SplitAtColon(line: string, n: nat)
    requires n < |line| && line[n] == ':'
    ensures line == line[..n] + (":" + line[n + 1..])
  {
    assert line == line[..n] + line[n..];
    assert line[n..] == [line[n]] + line[n + 1..];
  }

  /** A match is read from the name before the ':' and the text after. */
  lemma MatchTargetLineValue(line: string)
    requires MatchTargetLine(line).Some?
    ensures var n := SpanLength(line, IsNameChar);
      0 < n < |line| && line[n] == ':' && IsTargetName(line[..n])
      && MatchTargetLine(line) == Some(MatchAfterName(line[..n], line[n + 1..]))
  {
  }

  lemma AfterNameDecomposes(line: string, name: string, after: string) returns (lead: string, gap: string)
    requires IsTargetName(name) && line == name + (":" + after)
    ensures ReadsAs(line, MatchAfterName(name, after), lead, gap)
  {
    var body := SkipBlanks(after);
    lead := after[..|after| - |body|];
    gap := BodyDecomposes(body);
    ReadsAsFromParts(line, name, lead, body, gap);
  }

  lemma ReadsAsFromParts(line: string, name: string, lead: string, body: string, gap: string)
    requires IsTargetName(name) && IsBlanks(lead) && IsBlanks(gap)
    requires line == name + (":" + (lead + body))
    requires body == [] || !IsBlank(body[0])
    requires (body == DepsText(body) && Description(body) == [])
      || body == DepsText(body) + ("#" + (gap + Description(body)))
    ensures ReadsAs(line, TargetMatch(name, DepsText(body), Description(body)), lead, gap)
  {
  }

  /** The converse reading: a line laid out as `ReadsAs` describes matches
      with exactly those groups. */
  lemma MatchTargetLineReads(line: string, m: TargetMatch, lead: string, gap: string)
    requires ReadsAs(line, m, lead, gap)
    ensures MatchTargetLine(line) == Some(m)
  {
    var tail := if line == m.name + (":" + (lead + m.deps)) && m.desc == [] then []
      else "#" + (gap + m.desc);
    var body := m.deps + tail;
    assert line == m.name + (":" + (lead + body));
    NameSpan(line, m.name, lead + body);
    assert line[..|m.name|] == m.name && line[|m.name| + 1..] == lead + body;
    assert body == [] || !IsBlank(body[0]);
    SkipBlanksOf(lead, body);
    DepsTextOf(m.deps, tail);
    if tail != [] {
      assert body[|m.deps|..] == tail;
      assert tail[1..] == gap + m.desc;
      SkipBlanksOf(gap, m.desc);
    }
  }

  lemma NameSpan(line: string, name: string, after: string)
    requires IsTargetName(name) && line == name + (":" + after)
    ensures SpanLength(line, IsNameChar) == |name| && line[|name|] == ':'
  {
    forall i | 0 <= i < |name| ensures IsNameChar(line[i]) { assert line[i] == name[i]; }
    SpanLengthIs(line, IsNameChar, |name|);
  }

  lemma SkipBlanksOf(blanks: string, s: string)
    requires IsBlanks(blanks) && (s == [] || !IsBlank(s[0]))
    ensures SkipBlanks(blanks + s) == s
  {
    var t := blanks + s;
    forall i | 0 <= i < |blanks| ensures IsBlank(t[i]) { assert t[i] == blanks[i]; }
    assert s != [] ==> t[|blanks|] == s[0];
    SpanLengthIs(t, IsBlank, |blanks|);
    assert t[|blanks|..] == s;
  }

  lemma DepsTextOf(deps: string, tail: string)
    requires '#' !in deps && (tail == [] || tail[0] == '#')
    ensures DepsText(deps + tail) == deps
  {
    var t := deps + tail;
    forall i | 0 <= i < |deps| ensures NotHash(t[i]) { assert t[i] == deps[i]; }
    assert tail != [] ==> t[|deps|] == '#';
    SpanLengthIs(t, NotHash, |deps|);
    assert t[..|deps|] == deps;
  }

  /** The declaration matches of the lines, in line order. */
  function MatchesIn(lines: seq<string>): (ms: seq<TargetMatch>)
    ensures |ms| <= |lines|
  {
    if lines == [] then []
    else
      var here := match MatchTargetLine(lines[0]) case Some(m) => [m] case None => [];
      here + MatchesIn(lines[1..])
  }

  /** Every match names a target and has dependency text without '#'. */
  lemma {:induction false} MatchesInWellFormed(lines: seq<string>)
    ensures forall j :: 0 <= j < |MatchesIn(lines)| ==>
      IsTargetName(MatchesIn(lines)[j].name) && '#' !in MatchesIn(lines)[j].deps
  {
    if lines != [] {
      MatchesInWellFormed(lines[1..]);
      var rest := MatchesIn(lines[1..]);
      var r := MatchTargetLine(lines[0]);
      if r.Some? {
        assert MatchesIn(lines) == [r.value] + rest;
      } else {
        assert MatchesIn(lines) == rest;
      }
    }
  }

  /** HelpLineRegexp.FindAllStringSubmatch(source, -1), groups 1, 2 and 4. */
  function TargetMatches(source: string): seq<TargetMatch>
  {
    MatchesIn(Split(source, '\n'))
  }

  /** A text made of lines is searched line by line. */
  lemma TargetMatchesOfLines(lines: seq<string>)
    requires lines != []
    requires forall i :: 0 <= i < |lines| ==> '\n' !in lines[i]
    ensures TargetMatches(Join(lines, "\n")) == MatchesIn(lines)
  {
    SplitOfJoin(lines, '\n');
  }

  /** `\s` in Go's regular expressions: [\t\n\f\r ]. It includes the line
      break. */
  predicate IsRegexpSpace(c: char)
  {
    c == '\t' || c == '\n' || c == '\U{C}' || c == '\r' || c == ' '
  }

  predicate NotNewline(c: char)
  {
    c != '\n'
  }

  /** `s` reads as `keyword` (`include` or `-include`), then `spaces`, one
      or more `\s`, then the argument up to the next line break, then `rest`
      (empty or starting at that line break). The argument does not start with
      `\s`: `\s+` takes all of them, line breaks included, so an empty
      argument leaves nothing after it. */
  ghost predicate IncludeReadsAs(s: string, keyword: string, spaces: string, arg: string, rest: string)
  {
    && (keyword == "include" || keyword == "-include")
    && spaces != [] && (forall i :: 0 <= i < |spaces| ==> IsRegexpSpace(spaces[i]))
    && '\n' !in arg
    && (arg == [] || !IsRegexpSpace(arg[0]))
    && (rest == [] || rest[0] == '\n')
    && (arg == [] ==> rest == [])
    && s == keyword + (spaces + (arg + rest))
  }

  /** The include pattern tried at the start of `s`: group 1, and the text
      after the match. */
  function MatchInclude(s: string): (r: Option<(string, string)>)
    ensures r.Some? ==> |r.value.1| < |s| && '\n' !in r.value.0
    ensures r.Some? ==> r.value.1 == [] || r.value.1[0] == '\n'
  {
    var k := if s != [] && s[0] == '-' then 1 else 0;
    if |s| <= k + 7 || s[k..k + 7] != "include" || !IsRegexpSpace(s[k + 7]) then
      None
    else
      Some(IncludeAfterKeyword(s[k + 7..]))
  }

  /** `\s+(.*)$` at the start of `after`: group 1, and the text after it. */
  function IncludeAfterKeyword(after: string): (r: (string, string))
    ensures |r.1| < |after| || after == []
    ensures '\n' !in r.0 && (r.1 == [] || r.1[0] == '\n')
  {
    var body := after[SpanLength(after, IsRegexpSpace)..];
    var a := SpanLength(body, NotNewline);
    assert forall i :: 0 <= i < a ==> body[..a][i] != '\n';
    (body[..a], body[a..])
  }

  /** The include pattern matches exactly the texts that start with
      `include` or `-include` followed by a `\s`. */
  lemma MatchIncludeAccepts(s: string)
    ensures MatchInclude(s).Some? <==> StartsDirective(s)
  {
  }

  /** `s` starts with `include` or `-include` and a `\s`. */
  predicate StartsDirective(s: string)
  {
    || (|s| > 7 && s[..7] == "include" && IsRegexpSpace(s[7]))
    || (|s| > 8 && s[..8] == "-include" && IsRegexpSpace(s[8]))
  }

  /** A match reads `s` as keyword, spaces, argument and rest. */
  lemma MatchIncludeDecomposes(s: string) returns (keyword: string, spaces: string)
    requires MatchInclude(s).Some?
    ensures IncludeReadsAs(s, keyword, spaces, MatchInclude(s).value.0, MatchInclude(s).value.1)
  {
    var k := if s[0] == '-' then 1 else 0;
    keyword := s[..k + 7];
    assert keyword == "include" || keyword == "-include";
    assert s == keyword + s[k + 7..];
    spaces := AfterKeywordDecomposes(s, keyword, s[k + 7..]);
  }

  lemma AfterKeywordDecomposes(s: string, keyword: string, after: string) returns (spaces: string)
    requires keyword == "include" || keyword == "-include"
    requires s == keyword + after && after != [] && IsRegexpSpace(after[0])
    ensures IncludeReadsAs(s, keyword, spaces, IncludeAfterKeyword(after).0, IncludeAfterKeyword(after).1)
  {
    var w := SpanLength(after, IsRegexpSpace);
    var body := after[w..];
    var a := SpanLength(body, NotNewline);
    spaces := after[..w];
    assert after == spaces + body;
    assert body == body[..a] + body[a..];
  }

  /** Conversely, every text of that shape matches with exactly that
      argument and rest. */
  lemma MatchIncludeReads(s: string, keyword: string, spaces: string, arg: string, rest: string)
    requires IncludeReadsAs(s, keyword, spaces, arg, rest)
    ensures MatchInclude(s) == Some((arg, rest))
  {
    var after := spaces + (arg + rest);
    assert after[0] == spaces[0];
    MatchIncludeOfKeyword(keyword, after);
    IncludeAfterReads(spaces, arg, rest);
  }

  lemma IncludeAfterReads(spaces: string, arg: string, rest: string)
    requires spaces != [] && forall i :: 0 <= i < |spaces| ==> IsRegexpSpace(spaces[i])
    requires '\n' !in arg && (arg == [] || !IsRegexpSpace(arg[0]))
    requires (rest == [] || rest[0] == '\n') && (arg == [] ==> rest == [])
    ensures IncludeAfterKeyword(spaces + (arg + rest)) == (arg, rest)
  {
    var body := arg + rest;
    var after := spaces + body;
    forall i | 0 <= i < |spaces| ensures IsRegexpSpace(after[i]) { assert after[i] == spaces[i]; }
    if body != [] {
      assert after[|spaces|] == body[0] == arg[0];
    }
    SpanLengthIs(after, IsRegexpSpace, |spaces|);
    assert after[|spaces|..] == body;
    forall i | 0 <= i < |arg| ensures NotNewline(body[i]) { assert body[i] == arg[i]; }
    if rest != [] {
      assert body[|arg|] == '\n';
    }
    SpanLengthIs(body, NotNewline, |arg|);
    assert body[..|arg|] == arg && body[|arg|..] == rest;
  }

  /** The text after the first line break of `s`, or "" when it has none. */
  function NextLine(s: string): (r: string)
    ensures s != [] ==> |r| < |s|
  {
    var n := SpanLength(s, NotNewline);
    if n == |s| then [] else s[n + 1..]
  }

  /** IncludedRegexp.FindAllStringSubmatch(text, -1), group 1, for a text
      that starts at a line start. After a match the search goes on at the
      next line start after its end. */
  function IncludeArgs(text: string): (args: seq<string>)
    ensures forall i :: 0 <= i < |args| ==> '\n' !in args[i]
    decreases |text|
  {
    if text == [] then []
    else
      match MatchInclude(text)
      case Some((arg, rest)) => [arg] + IncludeArgs(NextLine(rest))
      case None => IncludeArgs(NextLine(text))
  }

  /** A directive line contributes its argument, and the search goes on at
      the next line. */
  lemma IncludeArgsOfDirective(keyword: string, spaces: string, arg: string, rest: string)
    requires keyword == "include" || keyword == "-include"
    requires spaces != [] && forall i :: 0 <= i < |spaces| ==> IsRegexpSpace(spaces[i])
    requires '\n' !in arg && arg != [] && !IsRegexpSpace(arg[0])
    ensures IncludeArgs(keyword + (spaces + (arg + ("\n" + rest)))) == [arg] + IncludeArgs(rest)
  {
    var after := spaces + (arg + ("\n" + rest));
    MatchIncludeOfKeyword(keyword, after);
    IncludeAfterSpaces(spaces, arg, rest);
    NextLineOf([], rest);
  }

  lemma MatchIncludeOfKeyword(keyword: string, after: string)
    requires keyword == "include" || keyword == "-include"
    requires after != [] && IsRegexpSpace(after[0])
    ensures MatchInclude(keyword + after) == Some(IncludeAfterKeyword(after))
  {
    var s := keyword + after;
    var k := |keyword| - 7;
    assert s[k..k + 7] == "include" && s[k + 7] == after[0];
    assert s[k + 7..] == after;
  }

  lemma IncludeAfterSpaces(spaces: string, arg: string, rest: string)
    requires spaces != [] && forall i :: 0 <= i < |spaces| ==> IsRegexpSpace(spaces[i])
    requires '\n' !in arg && arg != [] && !IsRegexpSpace(arg[0])
    ensures IncludeAfterKeyword(spaces + (arg + ("\n" + rest))) == (arg, "\n" + rest)
  {
    var body := arg + ("\n" + rest);
    var after := spaces + body;
    forall i | 0 <= i < |spaces| ensures IsRegexpSpace(after[i]) { assert after[i] == spaces[i]; }
    assert after[|spaces|] == body[0];
    SpanLengthIs(after, IsRegexpSpace, |spaces|);
    assert after[|spaces|..] == body;
    forall i | 0 <= i < |arg| ensures NotNewline(body[i]) { assert body[i] == arg[i]; }
    assert body[|arg|] == '\n';
    SpanLengthIs(body, NotNewline, |arg|);
    assert body[..|arg|] == arg && body[|arg|..] == "\n" + rest;
  }

  /** The search skips to the text after the first line break. */
  lemma NextLineOf(line: string, rest: string)
    requires '\n' !in line
    ensures NextLine(line + ("\n" + rest)) == rest
  {
    var s := line + ("\n" + rest);
    forall i | 0 <= i < |line| ensures NotNewline(s[i]) { assert s[i] == line[i]; }
    assert s[|line|] == '\n';
    SpanLengthIs(s, NotNewline, |line|);
    assert s[|line| + 1..] == rest;
  }

  /** Whether a line starts a directive does not depend on what follows its
      line break. */
  lemma StartsDirectiveOfLine(line: string, rest: string)
    requires '\n' !in line
    ensures StartsDirective(line + ("\n" + rest)) == StartsDirective(line + "\n")
  {
    var s := line + ("\n" + rest);
    var t := line + "\n";
    assert s == t + rest;
    assert forall i :: 0 <= i < |t| ==> s[i] == t[i];
    PrefixStartsWith(s, t, "include");
    PrefixStartsWith(s, t, "-include");
  }

  /** `s` extends the line `t` (ending at its line break): `s` starts with
      the keyword and a `\s` exactly when `t` does. */
  lemma PrefixStartsWith(s: string, t: string, keyword: string)
    requires t != [] && |t| <= |s| && s[..|t|] == t && t[|t| - 1] == '\n'
    requires forall i :: 0 <= i < |t| - 1 ==> t[i] != '\n'
    requires '\n' !in keyword
    ensures (|s| > |keyword| && s[..|keyword|] == keyword && IsRegexpSpace(s[|keyword|]))
      == (|t| > |keyword| && t[..|keyword|] == keyword && IsRegexpSpace(t[|keyword|]))
  {
    var n := |keyword|;
    if |t| > n {
      assert s[..n] == t[..n] && s[n] == t[n];
    } else if |s| > n {
      assert s[..n][|t| - 1] == '\n';
    }
  }

  /** A line that does not start a directive contributes nothing. */
  lemma IncludeArgsOfOtherLine(line: string, rest: string)
    requires '\n' !in line && !StartsDirective(line + "\n")
    ensures IncludeArgs(line + ("\n" + rest)) == IncludeArgs(rest)
  {
    StartsDirectiveOfLine(line, rest);
    MatchIncludeAccepts(line + ("\n" + rest));
    NextLineOf(line, rest);
  }

  /** `\s+` takes line breaks: a bare `include` line makes the next line its
      argument. */
  lemma IncludeSpansLines()
    ensures IncludeArgs("include\nfoo\n") == ["foo"]
  {
    IncludeArgsOfDirective("include", "\n", "foo", "");
    assert "include" + ("\n" + ("foo" + ("\n" + ""))) == "include\nfoo\n";
  }
}

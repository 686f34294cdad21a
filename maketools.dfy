/** The make-tools library (maketools.go): finding the makefile, reading
    the help of its targets, following its include directives, and sorting
    the result by target name. The file system and the user database are
    reached through a `Host` value. */
module MakeTools {
  import opened Results
  import opened Text
  import opened Sorting
  import opened Grammar

  /** The makefile names tried, in order. */
  const Filenames: seq<string> := ["GNUmakefile", "makefile", "Makefile"]

  /** What an error from an included makefile is wrapped in. */
  const IncludeErrorPrefix: string := "parsing included makefile: "

  /** The help of one target: its name, the comment after '#' on its
      declaration line, and its dependencies. */
  datatype HelpLine = HelpLine(name: string, description: string, dependencies: seq<string>)

  /** The key HelpLineSorter.Less compares. */
  function NameOf(h: HelpLine): string
  {
    h.name
  }

  /** What os.Stat reports about an existing path. */
  datatype FileInfo = FileInfo(isDir: bool)

  /** The system the library runs on: os.Stat (None for an error), the home
      directory of the current user, filepath.Join, filepath.Glob,
      filepath.Clean, and the readable files by cleaned path. */
  datatype Host = Host(
    stat: string -> Option<FileInfo>,
    home: string,
    joinPath: (string, string) -> string,
    glob: string -> Result<seq<string>>,
    clean: string -> string,
    files: map<string, string>)

  /** The result of parsing a makefile: the help lines, an error, the exit
      of the process when an included makefile cannot be read, or (a limit
      of the model) an include chain deeper than the fuel allowed. */
  datatype Outcome = Parsed(help: seq<HelpLine>) | Failed(message: string) | Exited(path: string) | TooDeep

  /** FileExists: the path names something that is not a directory. */
  predicate FileExists(host: Host, file: string)
  {
    host.stat(file).Some? && !host.stat(file).value.isDir
  }

  /** FindMakefile: the first of Filenames that exists, or "" when none
      does. */
  method FindMakefile(host: Host) returns (name: string)
    ensures name == "" <==> forall k :: 0 <= k < |Filenames| ==> !FileExists(host, Filenames[k])
    ensures name != "" ==> exists k :: (0 <= k < |Filenames| && Filenames[k] == name
      && FileExists(host, name) && forall j :: 0 <= j < k ==> !FileExists(host, Filenames[j]))
  {
    var i := 0;
    while i < |Filenames|
      invariant 0 <= i <= |Filenames|
      invariant forall j :: 0 <= j < i ==> !FileExists(host, Filenames[j])
    {
      if FileExists(host, Filenames[i]) {
        return Filenames[i];
      }
      i := i + 1;
    }
    return "";
  }

  /** ExpandUserHome: a path starting with "~/" is joined to the home
      directory; any other path is left as it is. */
  function ExpandUserHome(host: Host, path: string): (r: string)
    ensures |path| >= 2 && path[..2] == "~/" ==> r == host.joinPath(host.home, path[2..])
    ensures !(|path| >= 2 && path[..2] == "~/") ==> r == path
  {
    if |path| >= 2 && path[..2] == "~/" then host.joinPath(host.home, path[2..]) else path
  }

  /** ReadFile: the contents of the file at the cleaned path, or None where
      the process would exit. */
  function ReadFile(host: Host, filename: string): Option<string>
  {
    var path := host.clean(filename);
    if path in host.files then Some(host.files[path]) else None
  }

  /** The dependencies of a declaration: its dependency text, trimmed and
      split at each single space; no dependencies at all when the trimmed
      text is empty. */
  function Dependencies(text: string): seq<string>
  {
    var parts := Split(TrimSpace(text), ' ');
    if |parts| == 1 && parts[0] == [] then [] else parts
  }

  /** No dependencies exactly when the trimmed text is empty; otherwise
      they are the trimmed text's pieces between single spaces. */
  lemma DependenciesShape(text: string)
    ensures var deps := Dependencies(text);
      && (deps == [] <==> TrimSpace(text) == [])
      && (deps != [] ==> Join(deps, " ") == TrimSpace(text))
      && (forall k :: 0 <= k < |deps| ==> ' ' !in deps[k])
      && deps != [[]]
  {
    var parts := Split(TrimSpace(text), ' ');
    if |parts| == 1 && parts[0] == [] {
      assert Join(parts, " ") == [];
    }
  }

  /** Dependencies written one space apart, with no white space at either
      end, are read back as written, whatever white space follows them. */
  lemma DependenciesOfJoin(deps: seq<string>, pad: string)
    requires deps != [] && forall k :: 0 <= k < |deps| ==> ' ' !in deps[k]
    requires deps[0] != [] && !IsSpace(deps[0][0])
    requires deps[|deps| - 1] != [] && !IsSpace(deps[|deps| - 1][|deps[|deps| - 1]| - 1])
    requires forall k :: 0 <= k < |pad| ==> IsSpace(pad[k])
    ensures Dependencies(Join(deps, " ") + pad) == deps
  {
    var text := Join(deps, " ");
    JoinFirst(deps, " ");
    JoinLast(deps, " ");
    TrimSpaceOfPadded(text, pad);
    SplitOfJoin(deps, ' ');
  }

  /** A joined text starts with the first piece's first character... */
  lemma JoinFirst(parts: seq<string>, sep: string)
    requires parts != [] && parts[0] != []
    ensures Join(parts, sep) != [] && Join(parts, sep)[0] == parts[0][0]
  {
  }

  /** ... and ends with the last piece's last character. */
  lemma {:induction false} JoinLast(parts: seq<string>, sep: string)
    requires parts != [] && parts[|parts| - 1] != []
    ensures var s := Join(parts, sep);
      s != [] && s[|s| - 1] == parts[|parts| - 1][|parts[|parts| - 1]| - 1]
  {
    if |parts| > 1 {
      var rest := parts[1..];
      JoinLast(rest, sep);
      var t := Join(rest, sep);
      assert Join(parts, sep) == (parts[0] + sep) + t;
    }
  }

  /** A word that can stand at either end of a dependency text: not empty,
      without spaces, and not starting or ending with white space. */
  predicate IsWord(w: string)
  {
    w != [] && ' ' !in w && !IsSpace(w[0]) && !IsSpace(w[|w| - 1])
  }

  /** The text is split at single spaces only: a doubled space gives an
      empty dependency... */
  lemma DependenciesKeepEmptyPieces(a: string, b: string)
    requires IsWord(a) && IsWord(b)
    ensures Dependencies(a + ("  " + b)) == [a, "", b]
  {
    var parts := [a, "", b];
    assert parts[1..] == ["", b] && ["", b][1..] == [b];
    assert Join(["", b], " ") == " " + b;
    assert Join(parts, " ") + [] == a + ("  " + b);
    DependenciesOfJoin(parts, []);
  }

  /** ... and a tab does not separate. */
  lemma DependenciesKeepTabs(a: string, b: string)
    requires IsWord(a) && IsWord(b)
    ensures Dependencies(a + ("\t" + b)) == [a + ("\t" + b)]
  {
    var w := a + ("\t" + b);
    assert ' ' !in w;
    assert w[0] == a[0] && w[|w| - 1] == b[|b| - 1];
    assert Join([w], " ") + [] == w;
    DependenciesOfJoin([w], []);
  }

  /** The help line a declaration match makes. */
  function ToHelpLine(m: TargetMatch): HelpLine
  {
    HelpLine(m.name, m.desc, Dependencies(m.deps))
  }

  /** The help lines of the matches, in order. */
  function HelpLinesOf(ms: seq<TargetMatch>): (hs: seq<HelpLine>)
    ensures |hs| == |ms|
  {
    if ms == [] then [] else HelpLinesOf(ms[..|ms| - 1]) + [ToHelpLine(ms[|ms| - 1])]
  }

  /** One help line per match, in the order of the matches. */
  lemma HelpLinesOfPointwise(ms: seq<TargetMatch>)
    ensures forall k :: 0 <= k < |ms| ==> HelpLinesOf(ms)[k] == ToHelpLine(ms[k])
  {
    forall k | 0 <= k < |ms| ensures HelpLinesOf(ms)[k] == ToHelpLine(ms[k]) {
      HelpLineAt(ms, k);
    }
  }

  /** The help line at position `k` is that of the match at `k`. */
  lemma {:induction false} HelpLineAt(ms: seq<TargetMatch>, k: nat)
    requires k < |ms|
    ensures HelpLinesOf(ms)[k] == ToHelpLine(ms[k])
  {
    var front := ms[..|ms| - 1];
    var hs := HelpLinesOf(front);
    var last := ToHelpLine(ms[|ms| - 1]);
    assert HelpLinesOf(ms) == hs + [last];
    assert |hs| == |front|;
    if k < |front| {
      HelpLineAt(front, k);
      assert front[k] == ms[k];
      assert (hs + [last])[k] == hs[k];
    } else {
      assert (hs + [last])[k] == last;
    }
  }

  /** The loop step of ParseMakefile's first loop. */
  lemma HelpLinesOfStep(ms: seq<TargetMatch>, i: nat)
    requires i < |ms|
    ensures HelpLinesOf(ms[..i + 1]) == HelpLinesOf(ms[..i]) + [ToHelpLine(ms[i])]
  {
    assert ms[..i + 1][..i] == ms[..i];
  }

  /** The help lines declared in the makefile text itself, in text order. */
  function OwnHelpLines(source: string): seq<HelpLine>
  {
    HelpLinesOf(TargetMatches(source))
  }

  /** Expanding and globbing the patterns in order, stopping at the first
      error. */
  function GlobAll(host: Host, patterns: seq<string>): Result<seq<string>>
  {
    if patterns == [] then Success([])
    else
      match GlobAll(host, patterns[..|patterns| - 1])
      case Failure(e) => Failure(e)
      case Success(front) =>
        match host.glob(ExpandUserHome(host, patterns[|patterns| - 1]))
        case Failure(e) => Failure(e)
        case Success(files) => Success(front + files)
  }

  /** Globbing the patterns of each include argument (the argument split at
      single spaces) in order, stopping at the first error. */
  function GlobArgs(host: Host, args: seq<string>): Result<seq<string>>
  {
    if args == [] then Success([])
    else
      match GlobArgs(host, args[..|args| - 1])
      case Failure(e) => Failure(e)
      case Success(front) =>
        match GlobAll(host, Split(args[|args| - 1], ' '))
        case Failure(e) => Failure(e)
        case Success(files) => Success(front + files)
  }

  /** What IncludedFiles returns. */
  function IncludedFilesOf(host: Host, source: string): Result<seq<string>>
  {
    GlobArgs(host, IncludeArgs(source))
  }

  /** IncludedFiles: the files that the include directives of `source`
      name, pattern by pattern, or the first globbing error. */
  method IncludedFiles(host: Host, source: string) returns (r: Result<seq<string>>)
    ensures r == IncludedFilesOf(host, source)
  {
    var included: seq<string> := [];
    var lines := IncludeArgs(source);
    var i := 0;
    while i < |lines|
      invariant 0 <= i <= |lines|
      invariant GlobArgs(host, lines[..i]) == Success(included)
    {
      var files := GlobPatterns(host, Split(lines[i], ' '));
      if files.Failure? {
        GlobArgsStops(host, lines[..i + 1], lines[i + 1..]);
        assert lines[..i + 1][..i] == lines[..i];
        assert lines[..i + 1] + lines[i + 1..] == lines;
        return files;
      }
      GlobArgsStep(host, lines, i);
      included := included + files.value;
      i := i + 1;
    }
    assert lines[..i] == lines;
    return Success(included);
  }

  /** The inner loop of IncludedFiles: expands and globs the patterns of
      one include argument, in order, returning at the first error. */
  method GlobPatterns(host: Host, globs: seq<string>) returns (r: Result<seq<string>>)
    ensures r == GlobAll(host, globs)
  {
    var included: seq<string> := [];
    var j := 0;
    while j < |globs|
      invariant 0 <= j <= |globs|
      invariant GlobAll(host, globs[..j]) == Success(included)
    {
      var glob := ExpandUserHome(host, globs[j]);
      assert globs[..j + 1][..j] == globs[..j];
      var files := host.glob(glob);
      if files.Failure? {
        GlobAllStops(host, globs[..j + 1], globs[j + 1..]);
        assert globs[..j + 1] + globs[j + 1..] == globs;
        return Failure(files.error);
      }
      included := included + files.value;
      j := j + 1;
    }
    assert globs[..j] == globs;
    return Success(included);
  }

  /** One more argument, all of whose patterns glob without error. */
  lemma GlobArgsStep(host: Host, args: seq<string>, i: nat)
    requires i < |args| && GlobArgs(host, args[..i]).Success?
    requires GlobAll(host, Split(args[i], ' ')).Success?
    ensures GlobArgs(host, args[..i + 1])
      == Success(GlobArgs(host, args[..i]).value + GlobAll(host, Split(args[i], ' ')).value)
  {
    assert args[..i + 1][..i] == args[..i];
  }

  /** After an error, globbing goes no further. */
  lemma {:induction false} GlobAllStops(host: Host, ps: seq<string>, qs: seq<string>)
    requires GlobAll(host, ps).Failure?
    ensures GlobAll(host, ps + qs) == GlobAll(host, ps)
  {
    if qs != [] {
      var front := qs[..|qs| - 1];
      GlobAllStops(host, ps, front);
      assert (ps + qs)[..|ps + qs| - 1] == ps + front;
    }
    else {
      assert ps + qs == ps;
    }
  }

  /** After an error, the search of included files goes no further. */
  lemma {:induction false} GlobArgsStops(host: Host, args: seq<string>, more: seq<string>)
    requires GlobArgs(host, args).Failure?
    ensures GlobArgs(host, args + more) == GlobArgs(host, args)
  {
    if more != [] {
      var front := more[..|more| - 1];
      GlobArgsStops(host, args, front);
      assert (args + more)[..|args + more| - 1] == args + front;
    }
    else {
      assert args + more == args;
    }
  }

  /** Globbing succeeds exactly when every pattern globs without error. */
  lemma {:induction false} GlobAllSucceeds(host: Host, ps: seq<string>)
    ensures GlobAll(host, ps).Success? <==>
      forall k :: 0 <= k < |ps| ==> host.glob(ExpandUserHome(host, ps[k])).Success?
  {
    if ps != [] {
      var front := ps[..|ps| - 1];
      GlobAllSucceeds(host, front);
      assert forall k :: 0 <= k < |front| ==> front[k] == ps[k];
    }
  }

  /** A globbing error is the error of the first pattern that fails. */
  lemma {:induction false} GlobAllFirstError(host: Host, ps: seq<string>) returns (k: nat)
    requires GlobAll(host, ps).Failure?
    ensures k < |ps| && GlobAll(host, ps) == host.glob(ExpandUserHome(host, ps[k]))
    ensures forall j :: 0 <= j < k ==> host.glob(ExpandUserHome(host, ps[j])).Success?
  {
    var front := ps[..|ps| - 1];
    if GlobAll(host, front).Failure? {
      k := GlobAllFirstError(host, front);
    } else {
      k := |ps| - 1;
      GlobAllSucceeds(host, front);
    }
  }

  /** Globbing two runs of patterns gives the files of the first run, then
      those of the second. */
  lemma {:induction false} GlobAllAppend(host: Host, ps: seq<string>, qs: seq<string>)
    requires GlobAll(host, ps).Success? && GlobAll(host, qs).Success?
    ensures GlobAll(host, ps + qs) == Success(GlobAll(host, ps).value + GlobAll(host, qs).value)
  {
    if qs == [] {
      assert ps + qs == ps;
      assert GlobAll(host, ps).value + [] == GlobAll(host, ps).value;
    } else {
      var front := qs[..|qs| - 1];
      var last := host.glob(ExpandUserHome(host, qs[|qs| - 1]));
      assert GlobAll(host, front).Success? && last.Success?;
      GlobAllAppend(host, ps, front);
      assert (ps + qs)[..|ps + qs| - 1] == ps + front;
      assert (ps + qs)[|ps + qs| - 1] == qs[|qs| - 1];
      var a, b, c := GlobAll(host, ps).value, GlobAll(host, front).value, last.value;
      assert GlobAll(host, qs).value == b + c;
      assert GlobAll(host, ps + qs) == Success((a + b) + c);
      assert (a + b) + c == a + (b + c);
    }
  }

  /** The shape of the library's own test of IncludedFiles: a blank line,
      a directive naming two files, a directive naming one, and a line
      holding a tab. When each name globs to itself, the three names come
      back in order. */
  lemma IncludedFilesOfExample(host: Host, a: string, b: string, c: string)
    requires forall p :: p in [a, b, c] ==> IsPlainFileName(p) && host.glob(p) == Success([p])
    ensures IncludedFilesOf(host, "\n" + ("include " + (a + (" " + (b + ("\ninclude " + (c + "\n\t")))))))
      == Success([a, b, c])
  {
    ExampleIncludeArgs(a, b, c);
    ExampleGlobs(host, a, b, c);
  }

  lemma ExampleIncludeArgs(a: string, b: string, c: string)
    requires IsPlainFileName(a) && IsPlainFileName(b) && IsPlainFileName(c)
    ensures IncludeArgs("\n" + ("include " + (a + (" " + (b + ("\ninclude " + (c + "\n\t")))))))
      == [a + (" " + b), c]
  {
    var rest2 := "include" + (" " + (c + ("\n" + "\t")));
    var rest1 := "include" + (" " + ((a + (" " + b)) + ("\n" + rest2)));
    ExampleText(a, b, c);
    IncludeArgsOfOtherLine([], rest1);
    PlainPairHasNoBreak(a, b);
    IncludeArgsOfDirective("include", " ", a + (" " + b), rest2);
    IncludeArgsOfDirective("include", " ", c, "\t");
    TabLine();
  }

  /** The example text regrouped as its lines. A lemma of its own: proved
      inside `ExampleIncludeArgs`, the same equality exhausts the verifier. */
  lemma ExampleText(a: string, b: string, c: string)
    ensures "\n" + ("include " + (a + (" " + (b + ("\ninclude " + (c + "\n\t"))))))
      == [] + ("\n" + ("include" + (" " + ((a + (" " + b)) + ("\n" + ("include" + (" " + (c + ("\n" + "\t")))))))))
  {
  }

  lemma PlainPairHasNoBreak(a: string, b: string)
    requires IsPlainFileName(a) && IsPlainFileName(b)
    ensures '\n' !in a + (" " + b)
  {
    var s := a + (" " + b);
    forall k | 0 <= k < |s| ensures s[k] != '\n' {
      if k < |a| { assert s[k] == a[k]; }
      else if k > |a| { assert s[k] == b[k - |a| - 1]; }
    }
  }

  lemma TabLine()
    ensures IncludeArgs("\t") == []
  {
    assert NextLine("\t") == [];
  }

  lemma ExampleGlobs(host: Host, a: string, b: string, c: string)
    requires forall p :: p in [a, b, c] ==> IsPlainFileName(p) && host.glob(p) == Success([p])
    ensures GlobArgs(host, [a + (" " + b), c]) == Success([a, b, c])
  {
    assert a in [a, b, c] && b in [a, b, c] && c in [a, b, c];
    var x := a + (" " + b);
    ExampleSplits(a, b, c);
    assert GlobAll(host, Split(x, ' ')) == Success([a, b]) by {
      GlobAllOfPlain(host, [a, b]);
    }
    assert GlobAll(host, Split(c, ' ')) == Success([c]) by {
      GlobAllOfPlain(host, [c]);
    }
    assert [x, c][..1] == [x] && [x, c][1] == c;
    assert [x][..0] == [] && [x][0] == x;
    assert GlobArgs(host, []) == Success([]);
    assert GlobArgs(host, [x]) == Success([] + [a, b]);
    assert GlobArgs(host, [x, c]) == Success(([] + [a, b]) + [c]);
    assert ([] + [a, b]) + [c] == [a, b, c];
  }

  lemma ExampleSplits(a: string, b: string, c: string)
    requires IsPlainFileName(a) && IsPlainFileName(b) && IsPlainFileName(c)
    ensures Split(a + (" " + b), ' ') == [a, b] && Split(c, ' ') == [c]
  {
    assert Join([a, b], " ") == a + (" " + b);
    SplitOfJoin([a, b], ' ');
    assert Join([c], " ") == c;
    SplitOfJoin([c], ' ');
  }

  /** Names that are not patterns and glob to themselves come back as they
      are. */
  lemma {:induction false} GlobAllOfPlain(host: Host, ps: seq<string>)
    requires forall k :: 0 <= k < |ps| ==> IsPlainFileName(ps[k]) && host.glob(ps[k]) == Success([ps[k]])
    ensures GlobAll(host, ps) == Success(ps)
  {
    if ps != [] {
      var front := ps[..|ps| - 1];
      GlobAllOfPlain(host, front);
      assert ExpandUserHome(host, ps[|ps| - 1]) == ps[|ps| - 1];
      assert front + [ps[|ps| - 1]] == ps;
    }
  }

  /** A file name that a directive can carry as it is: not empty, without
      spaces or line breaks, not starting with white space or "~/". */
  predicate IsPlainFileName(p: string)
  {
    && p != [] && !IsRegexpSpace(p[0])
    && (forall k :: 0 <= k < |p| ==> p[k] != ' ' && p[k] != '\n')
    && !(|p| >= 2 && p[..2] == "~/")
  }

  /** The help lines ParseMakefile collects, before sorting: those declared
      in `source`, then (when `recursive`) those of each included makefile in
      turn. `fuel` bounds the depth of nested includes. */
  function Collect(host: Host, source: string, recursive: bool, fuel: nat): Outcome
    decreases fuel, 2
  {
    var own := OwnHelpLines(source);
    if !recursive then Parsed(own)
    else
      match IncludedFilesOf(host, source)
      case Failure(e) => Failed(IncludeErrorPrefix + e)
      case Success(files) =>
        match CollectAll(host, files, fuel)
        case Parsed(more) => Parsed(own + more)
        case other => other
  }

  /** The help lines of the included makefiles, in order, stopping at the
      first that does not parse. */
  function CollectAll(host: Host, files: seq<string>, fuel: nat): Outcome
    decreases fuel, 1, |files|
  {
    if files == [] then Parsed([])
    else
      match CollectAll(host, files[..|files| - 1], fuel)
      case Parsed(front) =>
        (match CollectIncluded(host, files[|files| - 1], fuel)
         case Parsed(last) => Parsed(front + last)
         case other => other)
      case other => other
  }

  /** One included makefile: its name is expanded, its text read (the
      process exits when it cannot be) and parsed recursively; an error is
      wrapped in IncludeErrorPrefix. */
  function CollectIncluded(host: Host, filename: string, fuel: nat): Outcome
    decreases fuel, 0
  {
    if fuel == 0 then TooDeep
    else
      var included := ExpandUserHome(host, filename);
      match ReadFile(host, included)
      case None => Exited(included)
      case Some(text) => Wrapped(Collect(host, text, true, fuel - 1))
  }

  /** An included makefile's outcome as its includer reports it: an error
      wrapped in IncludeErrorPrefix, anything else unchanged. */
  function Wrapped(o: Outcome): Outcome
  {
    match o
    case Failed(e) => Failed(IncludeErrorPrefix + e)
    case other => other
  }

  /** More fuel changes nothing once the fuel was enough: an outcome other
      than TooDeep is the outcome of the unbounded recursion. */
  lemma {:induction false} CollectFuelMonotone(host: Host, source: string, recursive: bool, n: nat, d: nat)
    ensures Collect(host, source, recursive, n) != TooDeep
      ==> Collect(host, source, recursive, n + d) == Collect(host, source, recursive, n)
    decreases n, 2
  {
    if recursive {
      match IncludedFilesOf(host, source)
      case Failure(_) =>
      case Success(files) =>
        CollectAllFuelMonotone(host, files, n, d);
    }
  }

  /** The same for the included makefiles of one makefile... */
  lemma {:induction false} CollectAllFuelMonotone(host: Host, files: seq<string>, n: nat, d: nat)
    ensures CollectAll(host, files, n) != TooDeep
      ==> CollectAll(host, files, n + d) == CollectAll(host, files, n)
    decreases n, 1, |files|
  {
    if files != [] {
      CollectAllFuelMonotone(host, files[..|files| - 1], n, d);
      CollectIncludedFuelMonotone(host, files[|files| - 1], n, d);
    }
  }

  /** ... and for one included makefile. */
  lemma {:induction false} CollectIncludedFuelMonotone(host: Host, filename: string, n: nat, d: nat)
    ensures CollectIncluded(host, filename, n) != TooDeep
      ==> CollectIncluded(host, filename, n + d) == CollectIncluded(host, filename, n)
    decreases n, 0
  {
    if n > 0 {
      EveryCollectFuelMonotone(host, n - 1, d);
      IncludedFuelStep(host, filename, n, d);
    }
  }

  /** Every makefile parsed with `n` levels of fuel to spare parses the
      same with `d` more. */
  ghost predicate FuelSuffices(host: Host, n: nat, d: nat)
  {
    forall text :: Collect(host, text, true, n) != TooDeep
      ==> Collect(host, text, true, n + d) == Collect(host, text, true, n)
  }

  /** CollectFuelMonotone for every makefile text at once. */
  lemma {:induction false} EveryCollectFuelMonotone(host: Host, n: nat, d: nat)
    ensures FuelSuffices(host, n, d)
    decreases n, 3
  {
    forall text ensures Collect(host, text, true, n) != TooDeep
      ==> Collect(host, text, true, n + d) == Collect(host, text, true, n)
    {
      CollectFuelMonotone(host, text, true, n, d);
    }
  }

  /** An included makefile's outcome depends on the fuel only through
      its own parse. */
  lemma IncludedFuelStep(host: Host, filename: string, n: nat, d: nat)
    requires n > 0 && FuelSuffices(host, n - 1, d)
    ensures CollectIncluded(host, filename, n) != TooDeep
      ==> CollectIncluded(host, filename, n + d) == CollectIncluded(host, filename, n)
  {
    var text := ReadFile(host, ExpandUserHome(host, filename));
    if text.Some? {
      WrappedKeepsTooDeep(Collect(host, text.value, true, n - 1));
      assert n + d - 1 == n - 1 + d;
    }
  }

  /** Wrapping an included makefile's outcome neither makes nor hides
      TooDeep. */
  lemma WrappedKeepsTooDeep(o: Outcome)
    ensures Wrapped(o) == TooDeep <==> o == TooDeep
  {
  }

  /** `r` is the sorted form of the collected outcome `spec`: the same
      help lines ordered by name, or the same failure. */
  ghost predicate SortedOutcome(r: Outcome, spec: Outcome)
  {
    if spec.Parsed? then
      r.Parsed? && SortedBy(r.help, NameOf) && multiset(r.help) == multiset(spec.help)
    else r == spec
  }

  /** ParseMakefile: the help lines of `source` and, when `recursive`, of
      the makefiles it includes, sorted by name; or the first error. */
  method ParseMakefile(host: Host, source: string, recursive: bool, fuel: nat) returns (r: Outcome)
    ensures SortedOutcome(r, Collect(host, source, recursive, fuel))
    decreases fuel, 2
  {
    var result := TargetMatches(source);
    var help: seq<HelpLine> := [];
    var i := 0;
    while i < |result|
      invariant 0 <= i <= |result|
      invariant help == HelpLinesOf(result[..i])
    {
      HelpLinesOfStep(result, i);
      help := help + [ToHelpLine(result[i])];
      i := i + 1;
    }
    assert result[..i] == result;
    if recursive {
      var filenames := IncludedFiles(host, source);
      if filenames.Failure? {
        return Failed(IncludeErrorPrefix + filenames.error);
      }
      var helpsIncluded := ParseIncludedFiles(host, filenames.value, fuel);
      if !helpsIncluded.Parsed? {
        return helpsIncluded;
      }
      CollectRecursive(host, source, fuel);
      help := help + helpsIncluded.help;
    }
    help := SortHelpLines(help);
    return Parsed(help);
  }

  /** `r` holds the help lines of the outcome `spec` in some order, or is
      the same failure. */
  ghost predicate PermutedOutcome(r: Outcome, spec: Outcome)
  {
    if spec.Parsed? then r.Parsed? && multiset(r.help) == multiset(spec.help) else r == spec
  }

  /** ParseMakefile's loop over the included files: parses each in turn
      and appends its help lines, returning at the first failure. */
  method ParseIncludedFiles(host: Host, files: seq<string>, fuel: nat) returns (r: Outcome)
    ensures PermutedOutcome(r, CollectAll(host, files, fuel))
    decreases fuel, 1
  {
    var help: seq<HelpLine> := [];
    var j := 0;
    while j < |files|
      invariant 0 <= j <= |files|
      invariant CollectAll(host, files[..j], fuel).Parsed?
      invariant multiset(help) == multiset(CollectAll(host, files[..j], fuel).help)
    {
      var helpsIncluded := ParseIncluded(host, files[j], fuel);
      if !helpsIncluded.Parsed? {
        CollectAllFails(host, files, j, fuel);
        return helpsIncluded;
      }
      CollectAllStep(host, files, j, fuel);
      help := help + helpsIncluded.help;
      j := j + 1;
    }
    assert files[..j] == files;
    return Parsed(help);
  }

  /** The body of ParseMakefile's loop over the included files: expands the
      name, reads the file (the process exits when it cannot) and parses it
      recursively, wrapping an error in IncludeErrorPrefix. */
  method ParseIncluded(host: Host, filename: string, fuel: nat) returns (r: Outcome)
    ensures SortedOutcome(r, CollectIncluded(host, filename, fuel))
    decreases fuel, 0
  {
    if fuel == 0 {
      return TooDeep;
    }
    var included := ExpandUserHome(host, filename);
    var text := ReadFile(host, included);
    if text.None? {
      return Exited(included);
    }
    var helpsIncluded := ParseMakefile(host, text.value, true, fuel - 1);
    if helpsIncluded.Failed? {
      return Failed(IncludeErrorPrefix + helpsIncluded.message);
    }
    return helpsIncluded;
  }

  /** sort.Sort(HelpLineSorter(help)): the slice, sorted in place by name
      with HelpLineSorter's Less and Swap. */
  method SortHelpLines(help: seq<HelpLine>) returns (sorted: seq<HelpLine>)
    ensures SortedBy(sorted, NameOf) && multiset(sorted) == multiset(help)
  {
    var a := new HelpLine[|help|](k requires 0 <= k < |help| => help[k]);
    assert a[..] == help;
    SortBy(a, NameOf);
    sorted := a[..];
  }

  /** The loop step of ParseMakefile's second loop, for a file that
      parses. */
  lemma CollectAllStep(host: Host, files: seq<string>, j: nat, fuel: nat)
    requires j < |files| && CollectAll(host, files[..j], fuel).Parsed?
    requires CollectIncluded(host, files[j], fuel).Parsed?
    ensures CollectAll(host, files[..j + 1], fuel)
      == Parsed(CollectAll(host, files[..j], fuel).help + CollectIncluded(host, files[j], fuel).help)
  {
    assert files[..j + 1][..j] == files[..j];
  }

  /** A file that does not parse, after files that do, decides the
      outcome of the whole list. */
  lemma CollectAllFails(host: Host, files: seq<string>, j: nat, fuel: nat)
    requires j < |files| && CollectAll(host, files[..j], fuel).Parsed?
    requires !CollectIncluded(host, files[j], fuel).Parsed?
    ensures CollectAll(host, files, fuel) == CollectIncluded(host, files[j], fuel)
  {
    assert files[..j + 1][..j] == files[..j];
    CollectAllStops(host, files, j + 1, fuel);
  }

  /** Recursive parsing when the include directives glob without error. */
  lemma CollectRecursive(host: Host, source: string, fuel: nat)
    requires IncludedFilesOf(host, source).Success?
    requires CollectAll(host, IncludedFilesOf(host, source).value, fuel).Parsed?
    ensures Collect(host, source, true, fuel)
      == Parsed(OwnHelpLines(source) + CollectAll(host, IncludedFilesOf(host, source).value, fuel).help)
  {
  }

  /** Once a prefix of the included files fails, so does the whole list,
      with the same outcome. */
  lemma {:induction false} CollectAllStops(host: Host, files: seq<string>, n: nat, fuel: nat)
    requires n <= |files| && !CollectAll(host, files[..n], fuel).Parsed?
    ensures CollectAll(host, files, fuel) == CollectAll(host, files[..n], fuel)
    decreases |files|
  {
    if n < |files| {
      var front := files[..|files| - 1];
      assert front[..n] == files[..n];
      CollectAllStops(host, front, n, fuel);
    } else {
      assert files[..n] == files;
    }
  }

  /** Every error that parsing reports comes from an included makefile and
      carries IncludeErrorPrefix. */
  lemma {:induction false} CollectErrorsArePrefixed(host: Host, source: string, recursive: bool, fuel: nat)
    requires Collect(host, source, recursive, fuel).Failed?
    ensures IncludeErrorPrefix <= Collect(host, source, recursive, fuel).message
  {
    if IncludedFilesOf(host, source).Success? {
      CollectAllErrorsArePrefixed(host, IncludedFilesOf(host, source).value, fuel);
    }
  }

  lemma {:induction false} CollectAllErrorsArePrefixed(host: Host, files: seq<string>, fuel: nat)
    requires CollectAll(host, files, fuel).Failed?
    ensures IncludeErrorPrefix <= CollectAll(host, files, fuel).message
    decreases |files|
  {
    var front := files[..|files| - 1];
    if CollectAll(host, front, fuel).Failed? {
      CollectAllErrorsArePrefixed(host, front, fuel);
    }
  }

  /** A help line as the parser makes them: a target name, and
      dependencies that hold no space and are not the single empty
      string. */
  predicate WellFormed(h: HelpLine)
  {
    && IsTargetName(h.name)
    && (forall k :: 0 <= k < |h.dependencies| ==> ' ' !in h.dependencies[k])
    && h.dependencies != [[]]
  }

  /** Every help line of the makefile text is well formed. */
  lemma OwnHelpLinesWellFormed(source: string)
    ensures forall k :: 0 <= k < |OwnHelpLines(source)| ==> WellFormed(OwnHelpLines(source)[k])
  {
    var ms := TargetMatches(source);
    MatchesInWellFormed(Split(source, '\n'));
    HelpLinesOfPointwise(ms);
    assert forall k :: 0 <= k < |ms| ==> OwnHelpLines(source)[k] == ToHelpLine(ms[k]);
  }

  /** Every help line parsing returns, from the makefile or the makefiles
      it includes, is well formed. */
  lemma {:induction false} CollectWellFormed(host: Host, source: string, recursive: bool, fuel: nat)
    requires Collect(host, source, recursive, fuel).Parsed?
    ensures forall k :: 0 <= k < |Collect(host, source, recursive, fuel).help| ==>
      WellFormed(Collect(host, source, recursive, fuel).help[k])
    decreases fuel, 2
  {
    OwnHelpLinesWellFormed(source);
    if recursive {
      var files := IncludedFilesOf(host, source).value;
      CollectAllWellFormed(host, files, fuel);
    }
  }

  lemma {:induction false} CollectAllWellFormed(host: Host, files: seq<string>, fuel: nat)
    requires CollectAll(host, files, fuel).Parsed?
    ensures forall k :: 0 <= k < |CollectAll(host, files, fuel).help| ==>
      WellFormed(CollectAll(host, files, fuel).help[k])
    decreases fuel, 1, |files|
  {
    if files != [] {
      var front := files[..|files| - 1];
      CollectAllWellFormed(host, front, fuel);
      var text := ReadFile(host, ExpandUserHome(host, files[|files| - 1]));
      CollectWellFormed(host, text.value, true, fuel - 1);
    }
  }

  /** A declaration line as makefiles write it: `name: deps # desc`. */
  function Declaration(name: string, deps: seq<string>, desc: string): string
  {
    name + (":" + (" " + ((Join(deps, " ") + " ") + ("#" + (" " + desc)))))
  }

  /** Dependencies that a declaration can carry and give back: no spaces,
      '#' or line breaks in them, and no white space at either end. */
  predicate PlainDependencies(deps: seq<string>)
  {
    && deps != []
    && (forall k :: 0 <= k < |deps| ==> ' ' !in deps[k] && '#' !in deps[k] && '\n' !in deps[k])
    && deps[0] != [] && !IsSpace(deps[0][0])
    && deps[|deps| - 1] != [] && !IsSpace(deps[|deps| - 1][|deps[|deps| - 1]| - 1])
  }

  /** The declaration pattern reads a declaration line back into its
      name, dependency text and description. */
  lemma DeclarationMatches(name: string, deps: seq<string>, desc: string)
    requires IsTargetName(name) && PlainDependencies(deps)
    requires '\n' !in desc && (desc == [] || !IsBlank(desc[0]))
    ensures TargetMatches(Declaration(name, deps, desc)) == [TargetMatch(name, Join(deps, " ") + " ", desc)]
  {
    var line := Declaration(name, deps, desc);
    DeclarationLineMatches(name, deps, desc);
    DeclarationIsOneLine(name, deps, desc);
    TargetMatchesOfLines([line]);
  }

  lemma DeclarationLineMatches(name: string, deps: seq<string>, desc: string)
    requires IsTargetName(name) && PlainDependencies(deps)
    requires desc == [] || !IsBlank(desc[0])
    ensures MatchTargetLine(Declaration(name, deps, desc)) == Some(TargetMatch(name, Join(deps, " ") + " ", desc))
  {
    var line := Declaration(name, deps, desc);
    JoinAvoids(deps, " ", '#');
    JoinFirst(deps, " ");
    var m := TargetMatch(name, Join(deps, " ") + " ", desc);
    assert ReadsAs(line, m, " ", " ");
    MatchTargetLineReads(line, m, " ", " ");
  }

  lemma DeclarationIsOneLine(name: string, deps: seq<string>, desc: string)
    requires IsTargetName(name) && PlainDependencies(deps) && '\n' !in desc
    ensures '\n' !in Declaration(name, deps, desc)
  {
    JoinAvoids(deps, " ", '\n');
    forall k | 0 <= k < |name| ensures name[k] != '\n' { assert IsNameChar(name[k]); }
  }

  /** A declaration line parses to the help line it declares: its name,
      its description and its dependencies, as written. */
  lemma DeclarationRoundTrip(name: string, deps: seq<string>, desc: string)
    requires IsTargetName(name) && PlainDependencies(deps)
    requires '\n' !in desc && (desc == [] || !IsBlank(desc[0]))
    ensures OwnHelpLines(Declaration(name, deps, desc)) == [HelpLine(name, desc, deps)]
  {
    DeclarationMatches(name, deps, desc);
    var m := TargetMatch(name, Join(deps, " ") + " ", desc);
    assert [m][..0] == [];
    DependenciesOfJoin(deps, " ");
    assert ToHelpLine(m) == HelpLine(name, desc, deps);
    assert HelpLinesOf([m]) == HelpLinesOf([]) + [ToHelpLine(m)];
  }
}

/** The make-help command's formatter: one line per target, the name in
    yellow and padded to the widest name, then the description and the
    dependencies. */
module HelpCommand {
  import opened Text
  import opened MakeTools

  /** The terminal escape sequences that switch to bright yellow and back. */
  const Yellow := "\U{1B}[93m"
  const Reset := "\U{1B}[0m"

  /** The width, in bytes, of the widest target name; 0 without help lines. */
  function Indent(help: seq<HelpLine>): (w: nat)
    ensures forall k :: 0 <= k < |help| ==> ByteLen(help[k].name) <= w
    ensures help == [] ==> w == 0
    ensures help != [] ==> exists k :: 0 <= k < |help| && w == ByteLen(help[k].name)
  {
    if help == [] then 0
    else
      var front := help[..|help| - 1];
      var w := Indent(front);
      var n := ByteLen(help[|help| - 1].name);
      assert forall k :: 0 <= k < |front| ==> front[k] == help[k];
      if w < n then n else w
  }

  /** The help lines printed: all of them, or with `mute` only those with a
      description; in their order. */
  function Shown(help: seq<HelpLine>, mute: bool): (s: seq<HelpLine>)
    ensures forall h :: h in s ==> h in help
  {
    if help == [] then []
    else
      var front := help[..|help| - 1];
      var last := help[|help| - 1];
      assert help == front + [last];
      if mute && last.description == "" then Shown(front, mute) else Shown(front, mute) + [last]
  }

  /** Muting drops exactly the help lines without a description; without
      it every help line is shown. */
  lemma {:induction false} ShownSelects(help: seq<HelpLine>, mute: bool)
    ensures !mute ==> Shown(help, mute) == help
    ensures forall h :: h in Shown(help, mute) <==> h in help && (!mute || h.description != "")
  {
    if help != [] {
      var front := help[..|help| - 1];
      ShownSelects(front, mute);
      assert help == front + [help[|help| - 1]];
    }
  }

  /** A single help line is shown unless it is muted. */
  lemma ShownOne(h: HelpLine, mute: bool)
    ensures Shown([h], mute) == if mute && h.description == "" then [] else [h]
  {
    assert [h][..0] == [];
  }

  /** Filtering runs of help lines one after the other is filtering them
      together: the shown lines keep their order, each once. With
      `ShownOne`, this fixes `Shown` as the filter that keeps order. */
  lemma {:induction false} ShownAppend(a: seq<HelpLine>, b: seq<HelpLine>, mute: bool)
    ensures Shown(a + b, mute) == Shown(a, mute) + Shown(b, mute)
    decreases |b|
  {
    if b == [] {
      assert a + b == a;
    } else {
      var front := b[..|b| - 1];
      var last := b[|b| - 1];
      ShownAppend(a, front, mute);
      assert (a + b)[..|a + b| - 1] == a + front;
      assert (a + b)[|a + b| - 1] == last;
      if !(mute && last.description == "") {
        assert Shown(a, mute) + Shown(front, mute) + [last] == Shown(a, mute) + (Shown(front, mute) + [last]);
      }
    }
  }

  /** No name of `shown` is wider than `indent`. */
  predicate Fits(shown: seq<HelpLine>, indent: nat)
  {
    forall k :: 0 <= k < |shown| ==> ByteLen(shown[k].name) <= indent
  }

  /** " " and the description, when there is one. */
  function Described(h: HelpLine): string
  {
    if h.description != "" then " " + h.description else ""
  }

  /** The dependencies, comma separated, in brackets, when there are some. */
  function Listed(h: HelpLine): string
  {
    if |h.dependencies| > 0 then " [" + Join(h.dependencies, ", ") + "]" else ""
  }

  /** The text after the padded name: the description, then the
      dependencies. */
  function Details(h: HelpLine): string
  {
    Described(h) + Listed(h)
  }

  /** The line printed for `h` when the widest name is `indent` bytes: the
      name in yellow, padded with spaces to `indent` bytes, then the
      details. */
  function FormatLine(h: HelpLine, indent: nat): string
    requires ByteLen(h.name) <= indent
  {
    Yellow + h.name + Reset + Spaces(indent - ByteLen(h.name)) + Details(h)
  }

  /** The line built in steps, first the padded name, then the
      description when there is one, then the dependencies when there are
      some, is the line of `h`. */
  lemma LineOfPieces(h: HelpLine, indent: nat, spaces: nat, padded: string, described: string, line: string)
    requires ByteLen(h.name) <= indent && spaces == indent - ByteLen(h.name)
    requires padded == Yellow + h.name + Reset + Spaces(spaces)
    requires described == if h.description != "" then padded + (" " + h.description) else padded
    requires line == if |h.dependencies| > 0 then described + (" [" + Join(h.dependencies, ", ") + "]") else described
    ensures line == FormatLine(h, indent)
  {
    assert line == (padded + Described(h)) + Listed(h);
    Associative(padded, Described(h), Listed(h));
  }

  /** The lines printed for `shown`. */
  function FormatLines(shown: seq<HelpLine>, indent: nat): (lines: seq<string>)
    requires Fits(shown, indent)
    ensures |lines| == |shown|
  {
    if shown == [] then []
    else FormatLines(shown[..|shown| - 1], indent) + [FormatLine(shown[|shown| - 1], indent)]
  }

  /** Every shown line fits the indentation of all the help lines. */
  lemma ShownFit(help: seq<HelpLine>, mute: bool, indent: nat)
    requires Fits(help, indent)
    ensures Fits(Shown(help, mute), indent)
  {
    var s := Shown(help, mute);
    ShownSelects(help, mute);
    forall k | 0 <= k < |s| ensures ByteLen(s[k].name) <= indent {
      assert s[k] in help;
    }
  }

  /** The printed text: the shown lines joined with newlines. */
  function HelpText(help: seq<HelpLine>, mute: bool): string
  {
    ShownFit(help, mute, Indent(help));
    Join(FormatLines(Shown(help, mute), Indent(help)), "\n")
  }

  /** One step of the second loop: the next help line adds its line, or
      nothing when it is muted. */
  lemma FormatLinesStep(help: seq<HelpLine>, mute: bool, i: nat, indent: nat)
    requires i < |help| && Fits(help, indent)
    ensures Fits(Shown(help[..i], mute), indent) && Fits(Shown(help[..i + 1], mute), indent)
    ensures FormatLines(Shown(help[..i + 1], mute), indent)
      == FormatLines(Shown(help[..i], mute), indent)
         + (if help[i].description == "" && mute then [] else [FormatLine(help[i], indent)])
  {
    assert help[..i + 1][..i] == help[..i];
    assert Fits(help[..i + 1], indent) && Fits(help[..i], indent);
    ShownFit(help[..i + 1], mute, indent);
    ShownFit(help[..i], mute, indent);
  }

  /** One step of the first loop: the next name widens the indentation
      when it is wider. */
  lemma IndentStep(help: seq<HelpLine>, i: nat)
    requires i < |help|
    ensures Indent(help[..i + 1])
      == if Indent(help[..i]) < ByteLen(help[i].name) then ByteLen(help[i].name) else Indent(help[..i])
  {
    assert help[..i + 1][..i] == help[..i];
  }

  /** HelpLineFormatter: a first loop finds the widest name, a second builds
      the line of every shown help line. */
  method HelpLineFormatter(help: seq<HelpLine>, mute: bool) returns (out: string)
    ensures out == HelpText(help, mute)
  {
    var indent := 0;
    for i := 0 to |help|
      invariant indent == Indent(help[..i])
    {
      IndentStep(help, i);
      if indent < ByteLen(help[i].name) {
        indent := ByteLen(help[i].name);
      }
    }
    assert help[..|help|] == help;
    var lines: seq<string> := [];
    for i := 0 to |help|
      invariant Fits(Shown(help[..i], mute), indent)
      invariant lines == FormatLines(Shown(help[..i], mute), indent)
    {
      FormatLinesStep(help, mute, i, indent);
      if help[i].description == "" && mute {
        continue;
      }
      var line := BuildLine(help[i], indent);
      lines := lines + [line];
    }
    out := Join(lines, "\n");
  }

  /** The body of the second loop: the padded, coloured name, then the
      description when there is one, then the dependencies when there are
      some. */
  method BuildLine(h: HelpLine, indent: nat) returns (line: string)
    requires ByteLen(h.name) <= indent
    ensures line == FormatLine(h, indent)
  {
    var spaces := indent - ByteLen(h.name);
    line := Yellow + h.name + Reset + Spaces(spaces);
    ghost var padded := line;
    if h.description != "" {
      line := line + (" " + h.description);
    }
    ghost var described := line;
    if |h.dependencies| > 0 {
      var dependencies := Join(h.dependencies, ", ");
      line := line + (" [" + dependencies + "]");
    }
    LineOfPieces(h, indent, spaces, padded, described, line);
  }

  /** The `k`-th printed line is the line of the `k`-th shown help line. */
  lemma {:induction false} FormatLinesPointwise(shown: seq<HelpLine>, indent: nat, k: nat)
    requires Fits(shown, indent) && k < |shown|
    ensures FormatLines(shown, indent)[k] == FormatLine(shown[k], indent)
  {
    var front := shown[..|shown| - 1];
    assert Fits(front, indent);
    var lines := FormatLines(front, indent);
    assert FormatLines(shown, indent) == lines + [FormatLine(shown[|shown| - 1], indent)];
    if k < |front| {
      FormatLinesPointwise(front, indent, k);
      assert front[k] == shown[k];
      assert (lines + [FormatLine(shown[|shown| - 1], indent)])[k] == lines[k];
      assert FormatLines(shown, indent)[k] == lines[k];
    } else {
      assert k == |shown| - 1;
      assert FormatLines(shown, indent)[k] == FormatLine(shown[|shown| - 1], indent);
    }
  }

  /** No text of `h` breaks a line. */
  predicate Unbroken(h: HelpLine)
  {
    '\n' !in h.name && '\n' !in h.description
    && forall d :: d in h.dependencies ==> '\n' !in d
  }

  /** No text of `h` breaks a line or starts a terminal escape sequence. */
  predicate Printable(h: HelpLine)
  {
    Unbroken(h) && '\U{1B}' !in h.name && '\U{1B}' !in h.description
    && forall d :: d in h.dependencies ==> '\U{1B}' !in d
  }

  /** A help line without line breaks is printed on one line. */
  lemma OneLine(h: HelpLine, indent: nat)
    requires ByteLen(h.name) <= indent && Unbroken(h)
    ensures '\n' !in FormatLine(h, indent)
  {
    var pad := Spaces(indent - ByteLen(h.name));
    JoinAvoids(h.dependencies, ", ", '\n');
    assert '\n' !in Details(h);
    assert '\n' !in pad;
    FormatLineShape(h, indent);
    assert '\n' !in Yellow && '\n' !in Reset;
  }

  /** The printed text reads back, line by line, as the lines of the shown
      help lines: one line per shown help line, in order. */
  lemma HelpTextLines(help: seq<HelpLine>, mute: bool)
    requires forall k :: 0 <= k < |help| ==> Unbroken(help[k])
    requires Shown(help, mute) != []
    ensures Fits(Shown(help, mute), Indent(help))
    ensures Split(HelpText(help, mute), '\n') == FormatLines(Shown(help, mute), Indent(help))
  {
    ShownFit(help, mute, Indent(help));
    ShownSelects(help, mute);
    var shown := Shown(help, mute);
    var lines := FormatLines(shown, Indent(help));
    forall k | 0 <= k < |lines| ensures '\n' !in lines[k] {
      FormatLinesPointwise(shown, Indent(help), k);
      assert shown[k] in help;
      OneLine(shown[k], Indent(help));
    }
    SplitOfJoin(lines, '\n');
  }

  /** Nothing is printed exactly when no help line is shown. */
  lemma HelpTextEmpty(help: seq<HelpLine>, mute: bool)
    ensures HelpText(help, mute) == [] <==> Shown(help, mute) == []
  {
    ShownFit(help, mute, Indent(help));
    var shown := Shown(help, mute);
    if shown != [] {
      var lines := FormatLines(shown, Indent(help));
      FormatLinesPointwise(shown, Indent(help), 0);
      var first := FormatLine(shown[0], Indent(help));
      FormatLineShape(shown[0], Indent(help));
      assert first != [];
      assert lines[0] == first;
      JoinFirst(lines, "\n");
    }
  }

  /** What a terminal displays of `s`: the text without its escape
      sequences, each running from an ESC character to the next 'm'. */
  function Visible(s: string): string
    decreases |s|
  {
    if s == [] then []
    else if s[0] == '\U{1B}' then
      var n := SpanLength(s, c => c != 'm');
      if n == |s| then [] else Visible(s[n + 1..])
    else [s[0]] + Visible(s[1..])
  }

  /** Text without escape sequences is displayed as it is. */
  lemma {:induction false} VisiblePlain(a: string, t: string)
    requires '\U{1B}' !in a
    ensures Visible(a + t) == a + Visible(t)
  {
    if a != [] {
      assert a[0] != '\U{1B}' && '\U{1B}' !in a[1..];
      assert (a + t)[0] == a[0] && (a + t)[1..] == a[1..] + t;
      VisiblePlain(a[1..], t);
      assert Visible(a + t) == [a[0]] + Visible(a[1..] + t);
      assert a + Visible(t) == [a[0]] + (a[1..] + Visible(t));
    } else {
      assert a + t == t && a + Visible(t) == Visible(t);
    }
  }

  /** An escape sequence is not displayed. */
  lemma VisibleSkipsEscape(params: string, t: string)
    requires 'm' !in params
    ensures Visible(['\U{1B}'] + params + ['m'] + t) == Visible(t)
  {
    var s := ['\U{1B}'] + params + ['m'] + t;
    var n := |params| + 1;
    forall i | 0 <= i < n ensures s[i] != 'm' {
      if i > 0 { assert s[i] == params[i - 1]; }
    }
    SpanLengthIs(s, c => c != 'm', n);
    assert s[n + 1..] == t;
  }

  /** A line is the coloured name, the padding and the details. */
  lemma FormatLineShape(h: HelpLine, indent: nat)
    requires ByteLen(h.name) <= indent
    ensures FormatLine(h, indent)
      == Yellow + (h.name + (Reset + (Spaces(indent - ByteLen(h.name)) + Details(h))))
  {
    var pad := Spaces(indent - ByteLen(h.name));
    Associative(Yellow + h.name + Reset, pad, Details(h));
    Associative(Yellow + h.name, Reset, pad + Details(h));
    Associative(Yellow, h.name, Reset + (pad + Details(h)));
  }

  /** The colours are not displayed. */
  lemma VisibleColoured(name: string, rest: string)
    requires '\U{1B}' !in name && '\U{1B}' !in rest
    ensures Visible(Yellow + (name + (Reset + rest))) == name + rest
  {
    assert Yellow == ['\U{1B}'] + "[93" + ['m'] && Reset == ['\U{1B}'] + "[0" + ['m'];
    VisiblePlain(rest, []);
    assert rest + [] == rest;
    VisibleSkipsEscape("[0", rest);
    VisiblePlain(name, Reset + rest);
    VisibleSkipsEscape("[93", name + (Reset + rest));
  }

  /** `name` followed by spaces up to a width of `indent` bytes. */
  function Padded(name: string, indent: nat): string
    requires ByteLen(name) <= indent
  {
    name + Spaces(indent - ByteLen(name))
  }

  /** The padded name is `indent` bytes wide: the name, then spaces. */
  lemma PaddedWidth(name: string, indent: nat)
    requires ByteLen(name) <= indent
    ensures var p := Padded(name, indent);
      ByteLen(p) == indent && |name| <= |p| && p[..|name|] == name
      && forall i :: |name| <= i < |p| ==> p[i] == ' '
  {
    var pad := Spaces(indent - ByteLen(name));
    var p := name + pad;
    ByteLenConcat(name, pad);
    assert p[..|name|] == name;
    forall i | |name| <= i < |p| ensures p[i] == ' ' {
      assert p[i] == pad[i - |name|];
    }
  }

  /** The displayed line of a printable help line: its name padded to
      `indent` bytes, then the description and the dependencies. With
      `indent` the widest name, the details of every line start at the same
      column. */
  lemma Aligned(h: HelpLine, indent: nat)
    requires ByteLen(h.name) <= indent && Printable(h)
    ensures Visible(FormatLine(h, indent)) == Padded(h.name, indent) + Details(h)
  {
    var pad := Spaces(indent - ByteLen(h.name));
    assert '\U{1B}' !in Details(h) by { JoinAvoids(h.dependencies, ", ", '\U{1B}'); }
    FormatLineShape(h, indent);
    VisibleColoured(h.name, pad + Details(h));
    var line := Yellow + (h.name + (Reset + (pad + Details(h))));
    assert FormatLine(h, indent) == line;
    assert Visible(line) == h.name + (pad + Details(h));
    assert Padded(h.name, indent) == h.name + pad;
    Associative(h.name, pad, Details(h));
  }

  /** Associativity of concatenation, as a lemma: the proofs that use it
      stay cheaper than when the verifier unfolds the concatenation. */
  lemma Associative(a: string, b: string, c: string)
    ensures (a + b) + c == a + (b + c)
  {
  }

  /** Every printed line displays the name padded to the width of the
      widest name of all the help lines, muted ones included, so the
      details of all lines start in one column. */
  lemma HelpTextAligned(help: seq<HelpLine>, mute: bool, k: nat)
    requires forall j :: 0 <= j < |help| ==> Printable(help[j])
    requires k < |Shown(help, mute)|
    ensures Fits(Shown(help, mute), Indent(help))
    ensures var shown := Shown(help, mute);
      Visible(FormatLines(shown, Indent(help))[k])
      == Padded(shown[k].name, Indent(help)) + Details(shown[k])
  {
    ShownFit(help, mute, Indent(help));
    var shown := Shown(help, mute);
    FormatLinesPointwise(shown, Indent(help), k);
    assert shown[k] in help;
    Aligned(shown[k], Indent(help));
  }
}

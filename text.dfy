/** The string operations of Go's `strings` package, and the string order,
    that the make tools rely on. A Go string is modelled as the sequence of
    Unicode scalar values its (valid) UTF-8 bytes encode. */
module Text {

  /** unicode.IsSpace: the characters with Unicode's White_Space property. */
  predicate IsSpace(c: char) {
    ('\t' <= c <= '\r') || c == ' ' || c == '\U{85}' || c == '\U{A0}' || c == '\U{1680}'
    || ('\U{2000}' <= c <= '\U{200A}') || c == '\U{2028}' || c == '\U{2029}'
    || c == '\U{202F}' || c == '\U{205F}' || c == '\U{3000}'
  }

  /** Length of the longest prefix of `s` whose characters all satisfy `p`. */
  function SpanLength(s: string, p: char -> bool): (n: nat)
    ensures n <= |s|
    ensures forall i :: 0 <= i < n ==> p(s[i])
    ensures n < |s| ==> !p(s[n])
  {
    if s == [] || !p(s[0]) then 0 else 1 + SpanLength(s[1..], p)
  }

  /** The span is the first `n` characters when they satisfy `p` and the
      next one does not. */
  lemma SpanLengthIs(s: string, p: char -> bool, n: nat)
    requires n <= |s| && (forall i :: 0 <= i < n ==> p(s[i])) && (n < |s| ==> !p(s[n]))
    ensures SpanLength(s, p) == n
  {
  }

  /** Length of the longest suffix of `s` whose characters all satisfy `p`. */
  function TrailingSpanLength(s: string, p: char -> bool): (n: nat)
    ensures n <= |s|
    ensures forall i :: |s| - n <= i < |s| ==> p(s[i])
    ensures n < |s| ==> !p(s[|s| - n - 1])
  {
    if s == [] || !p(s[|s| - 1]) then 0 else 1 + TrailingSpanLength(s[..|s| - 1], p)
  }

  /** strings.TrimLeftFunc(s, unicode.IsSpace). */
  function TrimLeadingSpace(s: string): (r: string)
    ensures var lead := SpanLength(s, IsSpace); lead + |r| == |s| && r == s[lead..]
    ensures r != [] ==> !IsSpace(r[0])
  {
    s[SpanLength(s, IsSpace)..]
  }

  /** strings.TrimRightFunc(s, unicode.IsSpace). */
  function TrimTrailingSpace(s: string): (r: string)
    ensures |r| <= |s| && r == s[..|r|]
    ensures forall i :: |r| <= i < |s| ==> IsSpace(s[i])
    ensures r != [] ==> !IsSpace(r[|r| - 1])
  {
    s[..|s| - TrailingSpanLength(s, IsSpace)]
  }

  /** strings.TrimSpace: `s` without its leading and trailing white space. */
  function TrimSpace(s: string): (r: string)
    ensures r == [] <==> forall i :: 0 <= i < |s| ==> IsSpace(s[i])
    ensures r != [] ==> !IsSpace(r[0]) && !IsSpace(r[|r| - 1])
    ensures var lead := SpanLength(s, IsSpace);
      lead + |r| <= |s| && s[lead..lead + |r|] == r
      && forall i :: lead + |r| <= i < |s| ==> IsSpace(s[i])
  {
    TrimBothEnds(s);
    TrimTrailingSpace(TrimLeadingSpace(s))
  }

  /** What is left after trimming both ends lies right after the leading
      white space, and only white space follows it. */
  lemma TrimBothEnds(s: string)
    ensures var r := TrimTrailingSpace(TrimLeadingSpace(s)); var lead := SpanLength(s, IsSpace);
      && (r == [] <==> forall i :: 0 <= i < |s| ==> IsSpace(s[i]))
      && lead + |r| <= |s| && s[lead..lead + |r|] == r
      && forall i :: lead + |r| <= i < |s| ==> IsSpace(s[i])
  {
    var rest := TrimLeadingSpace(s);
    var r := TrimTrailingSpace(rest);
    var lead := SpanLength(s, IsSpace);
    assert s[lead..lead + |r|] == r;
    assert forall i :: lead + |r| <= i < |s| ==> IsSpace(s[i]) by {
      forall i | lead + |r| <= i < |s| ensures IsSpace(s[i]) {
        assert s[i] == rest[i - lead];
      }
    }
    if r == [] {
      assert lead == |s|;
    } else {
      assert lead < |s| && !IsSpace(s[lead]) by { assert s[lead] == r[0]; }
    }
  }

  /** Trimming removes exactly the white space around a text whose ends are
      not white space. */
  lemma TrimSpaceOfPadded(t: string, pad: string)
    requires t != [] && !IsSpace(t[0]) && !IsSpace(t[|t| - 1])
    requires forall i :: 0 <= i < |pad| ==> IsSpace(pad[i])
    ensures TrimSpace(t + pad) == t
  {
    var s := t + pad;
    assert SpanLength(s, IsSpace) == 0 by { assert s[0] == t[0]; }
    assert forall i :: |t| <= i < |s| ==> IsSpace(s[i]) by {
      forall i | |t| <= i < |s| ensures IsSpace(s[i]) { assert s[i] == pad[i - |t|]; }
    }
    assert !IsSpace(s[|t| - 1]) by { assert s[|t| - 1] == t[|t| - 1]; }
    assert TrailingSpanLength(s, IsSpace) == |pad|;
    assert s[..|s| - |pad|] == t;
  }

  /** strings.Join(parts, sep). */
  function Join(parts: seq<string>, sep: string): string
  {
    if parts == [] then [] else if |parts| == 1 then parts[0] else parts[0] + sep + Join(parts[1..], sep)
  }

  /** A character in neither the pieces nor the separator is not in their
      join. */
  lemma {:induction false} JoinAvoids(parts: seq<string>, sep: string, c: char)
    requires c !in sep && forall k :: 0 <= k < |parts| ==> c !in parts[k]
    ensures c !in Join(parts, sep)
  {
    if |parts| > 1 {
      JoinAvoids(parts[1..], sep, c);
      assert Join(parts, sep) == parts[0] + sep + Join(parts[1..], sep);
    }
  }

  /** strings.Split(s, string(c)): the pieces of `s` between the occurrences
      of `c`, in order; one more piece than there are occurrences. */
  function Split(s: string, c: char): (parts: seq<string>)
    ensures parts != []
    ensures forall i :: 0 <= i < |parts| ==> c !in parts[i]
    ensures Join(parts, [c]) == s
    decreases |s|
  {
    var n := SpanLength(s, x => x != c);
    if n == |s| then
      assert s == s[..n];
      [s]
    else
      var rest := Split(s[n + 1..], c);
      assert s == s[..n] + [c] + s[n + 1..];
      [s[..n]] + rest
  }

  /** Splitting a joined list of pieces that do not contain the separator
      gives the pieces back. */
  lemma {:induction false} SplitOfJoin(parts: seq<string>, c: char)
    requires parts != []
    requires forall i :: 0 <= i < |parts| ==> c !in parts[i]
    ensures Split(Join(parts, [c]), c) == parts
  {
    var s := Join(parts, [c]);
    var n := SpanLength(s, x => x != c);
    if |parts| == 1 {
      assert forall i :: 0 <= i < |s| ==> s[i] != c by {
        forall i | 0 <= i < |s| ensures s[i] != c { assert s[i] in parts[0]; }
      }
      assert n == |s|;
    } else {
      var head := parts[0];
      assert s == head + [c] + Join(parts[1..], [c]);
      assert forall i :: 0 <= i < |head| ==> s[i] != c by {
        forall i | 0 <= i < |head| ensures s[i] != c { assert s[i] == head[i]; assert head[i] in head; }
      }
      assert s[|head|] == c;
      assert n == |head|;
      assert s[..n] == head;
      assert s[n + 1..] == Join(parts[1..], [c]);
      SplitOfJoin(parts[1..], c);
      assert Split(s, c) == [head] + Split(s[n + 1..], c);
      assert parts == [head] + parts[1..];
    }
  }

  /** Go's `a <= b` on strings. Go compares the UTF-8 bytes, and UTF-8 byte
      order is code point order, so this compares characters. */
  predicate StrLe(a: string, b: string)
  {
    a == [] || (b != [] && (a[0] < b[0] || (a[0] == b[0] && StrLe(a[1..], b[1..]))))
  }

  lemma {:induction false} StrLeReflexive(x: string)
    ensures StrLe(x, x)
  {
    if x != [] {
      StrLeReflexive(x[1..]);
    }
  }

  lemma {:induction false} StrLeTotal(a: string, b: string)
    ensures StrLe(a, b) || StrLe(b, a)
  {
    if a != [] && b != [] && a[0] == b[0] {
      StrLeTotal(a[1..], b[1..]);
    }
  }

  lemma {:induction false} StrLeTransitive(a: string, b: string, c: string)
    requires StrLe(a, b) && StrLe(b, c)
    ensures StrLe(a, c)
  {
    if a != [] && a[0] == b[0] && b[0] == c[0] {
      StrLeTransitive(a[1..], b[1..], c[1..]);
    }
  }

  lemma {:induction false} StrLeAntisymmetric(a: string, b: string)
    requires StrLe(a, b) && StrLe(b, a)
    ensures a == b
  {
    if a != [] {
      StrLeAntisymmetric(a[1..], b[1..]);
      assert a == [a[0]] + a[1..] && b == [b[0]] + b[1..];
    }
  }

  /** Number of bytes in the UTF-8 encoding of `c`. */
  function Utf8Width(c: char): nat
  {
    if c < '\U{80}' then 1 else if c < '\U{800}' then 2 else if c < '\U{10000}' then 3 else 4
  }

  /** Go's len(s): the number of bytes of the UTF-8 encoding of `s`. */
  function ByteLen(s: string): (n: nat)
    ensures n >= |s|
    ensures (forall i :: 0 <= i < |s| ==> s[i] < '\U{80}') ==> n == |s|
  {
    if s == [] then 0 else Utf8Width(s[0]) + ByteLen(s[1..])
  }

  lemma {:induction false} ByteLenConcat(a: string, b: string)
    ensures ByteLen(a + b) == ByteLen(a) + ByteLen(b)
  {
    if a == [] {
      assert a + b == b;
    } else {
      assert (a + b)[0] == a[0];
      assert (a + b)[1..] == a[1..] + b;
      ByteLenConcat(a[1..], b);
    }
  }

  /** strings.Repeat(" ", n). */
  function Spaces(n: nat): (r: string)
    ensures |r| == n && ByteLen(r) == n
    ensures forall i :: 0 <= i < n ==> r[i] == ' '
  {
    if n == 0 then [] else [' '] + Spaces(n - 1)
  }
}

/**
 * The settings text of the plugin: the stored URL list is shown in a text
 * area joined with line feeds, and every edit is turned back into a list by
 * splitting the text at line feeds, trimming each line and dropping the lines
 * left empty.
 */
module SettingsText {

  /**
   * The characters `String.prototype.trim` removes: ECMAScript WhiteSpace
   * (tab, vertical tab, form feed, no-break space, byte order mark and the
   * space separators) and LineTerminator (line feed, carriage return, line
   * and paragraph separators).
   */
  predicate IsWhitespace(c: char): (b: bool)
    ensures b ==> !('0' <= c <= '9') && !('a' <= c <= 'z') && !('A' <= c <= 'Z')
    ensures b ==> c != '&' && c != '/' && c != '.' && c != ':' && c != '?' && c != '='
  {
    || c == '\t' || c == '\n' || c == '\U{000B}' || c == '\U{000C}' || c == '\r' || c == ' '
    || c == '\U{00A0}' || c == '\U{1680}' || ('\U{2000}' <= c <= '\U{200A}')
    || c == '\U{2028}' || c == '\U{2029}' || c == '\U{202F}' || c == '\U{205F}'
    || c == '\U{3000}' || c == '\U{FEFF}'
  }

  /** Neither end of `s` is whitespace. */
  predicate IsTrimmed(s: string) {
    s == [] || (!IsWhitespace(s[0]) && !IsWhitespace(s[|s| - 1]))
  }

  /** `s` with its leading whitespace removed. */
  function TrimStart(s: string): (r: string)
    ensures |r| <= |s| && r == s[|s| - |r|..]
    ensures forall k :: 0 <= k < |s| - |r| ==> IsWhitespace(s[k])
    ensures r == [] || !IsWhitespace(r[0])
  {
    if s != [] && IsWhitespace(s[0]) then TrimStart(s[1..]) else s
  }

  /** `s` with its trailing whitespace removed. */
  function TrimEnd(s: string): (r: string)
    ensures |r| <= |s| && r == s[..|r|]
    ensures forall k :: |r| <= k < |s| ==> IsWhitespace(s[k])
    ensures r == [] || !IsWhitespace(r[|r| - 1])
  {
    if s != [] && IsWhitespace(s[|s| - 1]) then TrimEnd(s[..|s| - 1]) else s
  }

  /** Trimming: the text between the leading and the trailing whitespace. */
  function Trim(s: string): (r: string)
    ensures IsTrimmed(r)
    ensures forall c :: c in r ==> c in s
    ensures IsTrimmed(s) ==> r == s
    ensures r == [] <==> forall k :: 0 <= k < |s| ==> IsWhitespace(s[k])
  {
    TrimEnd(TrimStart(s))
  }

  /** Splitting at `sep`: the pieces between the separators, one more than there are separators. */
  function Split(s: string, sep: char): (pieces: seq<string>)
    ensures |pieces| >= 1
  {
    if s == [] then [[]]
    else if s[0] == sep then
      assert s == [s[0]] + s[1..];
      [[]] + Split(s[1..], sep)
    else
      var rest := Split(s[1..], sep);
      assert s == [s[0]] + s[1..];
      [[s[0]] + rest[0]] + rest[1..]
  }

  /** No piece contains the separator. */
  lemma {:induction false} SplitSeparatorFree(s: string, sep: char)
    ensures forall k :: 0 <= k < |Split(s, sep)| ==> sep !in Split(s, sep)[k]
  {
    if s != [] {
      SplitSeparatorFree(s[1..], sep);
      assert s == [s[0]] + s[1..];
    }
  }

  /** There is one piece more than there are separators. */
  lemma {:induction false} SplitCount(s: string, sep: char)
    ensures |Split(s, sep)| == multiset(s)[sep] + 1
  {
    if s != [] {
      SplitCount(s[1..], sep);
      assert s == [s[0]] + s[1..];
    }
  }

  /** The pieces one after another with `sep` between neighbours; the text starts with the first piece. */
  function Join(xs: seq<string>, sep: char): (r: string)
    ensures |xs| > 0 ==> xs[0] <= r
  {
    if |xs| == 0 then []
    else if |xs| == 1 then xs[0]
    else xs[0] + [sep] + Join(xs[1..], sep)
  }

  /** Separator-free pieces are joined by one separator fewer than there are pieces. */
  lemma {:induction false} JoinCount(xs: seq<string>, sep: char)
    requires |xs| > 0
    requires forall k :: 0 <= k < |xs| ==> sep !in xs[k]
    ensures multiset(Join(xs, sep))[sep] == |xs| - 1
  {
    if |xs| > 1 {
      JoinCount(xs[1..], sep);
      assert multiset(xs[0] + [sep] + Join(xs[1..], sep)) == multiset(xs[0]) + multiset{sep} + multiset(Join(xs[1..], sep));
    }
  }

  /** The non-empty entries of `lines`, in their order. */
  function KeepNonEmpty(lines: seq<string>): (r: seq<string>)
    ensures forall k :: 0 <= k < |r| ==> r[k] != []
    ensures forall x :: x in r <==> x in lines && x != []
    ensures forall x :: x != [] ==> multiset(r)[x] == multiset(lines)[x]
  {
    if lines == [] then []
    else
      assert lines == [lines[0]] + lines[1..];
      (if lines[0] != [] then [lines[0]] else []) + KeepNonEmpty(lines[1..])
  }

  /** The text area's lines, each trimmed: one per line feed, plus one. */
  function TrimmedLines(text: string): (lines: seq<string>)
    ensures |lines| == multiset(text)['\n'] + 1
    ensures forall k :: 0 <= k < |lines| ==> IsTrimmed(lines[k]) && '\n' !in lines[k]
  {
    SplitCount(text, '\n');
    SplitSeparatorFree(text, '\n');
    TrimEach(Split(text, '\n'))
  }

  /** Every piece trimmed, in place: one trimmed piece per piece, made of the piece's own characters. */
  function TrimEach(pieces: seq<string>): (r: seq<string>)
    ensures |r| == |pieces|
    ensures forall k :: 0 <= k < |r| ==> IsTrimmed(r[k]) && (forall c :: c in r[k] ==> c in pieces[k])
  {
    seq(|pieces|, k requires 0 <= k < |pieces| => Trim(pieces[k]))
  }

  lemma TrimEachAppend(p: seq<string>, q: seq<string>)
    ensures TrimEach(p + q) == TrimEach(p) + TrimEach(q)
  {
    assert forall k :: 0 <= k < |p| ==> (p + q)[k] == p[k];
    assert forall k :: |p| <= k < |p| + |q| ==> (p + q)[k] == q[k - |p|];
  }

  /** A URL list in the form every edit stores: no empty entry, no surrounding whitespace, no line feed. */
  predicate Normalized(urls: seq<string>) {
    forall k :: 0 <= k < |urls| ==> urls[k] != [] && IsTrimmed(urls[k]) && '\n' !in urls[k]
  }

  /** The list stored on every edit of the text area. */
  function Normalize(text: string): (urls: seq<string>)
    ensures Normalized(urls)
  {
    var lines := TrimmedLines(text);
    KeepNonEmptyNormalized(lines);
    KeepNonEmpty(lines)
  }

  /** Filtering trimmed, line-feed-free lines leaves a normalised list. */
  lemma {:induction false} KeepNonEmptyNormalized(lines: seq<string>)
    requires forall k :: 0 <= k < |lines| ==> IsTrimmed(lines[k]) && '\n' !in lines[k]
    ensures Normalized(KeepNonEmpty(lines))
  {
    if lines != [] {
      KeepNonEmptyNormalized(lines[1..]);
    }
  }

  /**
   * Nothing is deduplicated: every non-empty trimmed line is stored as often
   * as it occurs, and nothing else is stored.
   */
  lemma NormalizeKeepsEveryLine(text: string, u: string)
    requires u != []
    ensures multiset(Normalize(text))[u] == multiset(TrimmedLines(text))[u]
  {
  }

  /** Removing empty entries commutes with concatenation: the order of the kept entries is the order of the lines. */
  lemma {:induction false} KeepNonEmptyAppend(a: seq<string>, b: seq<string>)
    ensures KeepNonEmpty(a + b) == KeepNonEmpty(a) + KeepNonEmpty(b)
  {
    if a == [] {
      assert a + b == b;
    } else {
      assert (a + b)[0] == a[0];
      assert (a + b)[1..] == a[1..] + b;
      KeepNonEmptyAppend(a[1..], b);
    }
  }

  /** Splitting a text that starts with separator-free `a`: `a` heads the first piece. */
  lemma {:induction false} SplitPrepend(a: string, b: string, sep: char)
    requires sep !in a
    ensures Split(a + b, sep) == [a + Split(b, sep)[0]] + Split(b, sep)[1..]
  {
    var rest := Split(b, sep);
    if a == [] {
      assert a + b == b;
      assert a + rest[0] == rest[0];
      assert [rest[0]] + rest[1..] == rest;
    } else {
      assert (a + b)[0] == a[0] && a[0] != sep;
      assert (a + b)[1..] == a[1..] + b;
      SplitPrepend(a[1..], b, sep);
      assert [a[0]] + (a[1..] + rest[0]) == a + rest[0];
    }
  }

  /** Splitting a text that starts with the separator: an empty first piece. */
  lemma SplitConsSep(t: string, sep: char)
    ensures Split([sep] + t, sep) == [[]] + Split(t, sep)
  {
    assert ([sep] + t)[0] == sep && ([sep] + t)[1..] == t;
  }

  /** Splitting a text that starts with another character: it heads the first piece. */
  lemma SplitConsOther(c: char, t: string, sep: char)
    requires c != sep
    ensures Split([c] + t, sep) == [[c] + Split(t, sep)[0]] + Split(t, sep)[1..]
  {
    assert ([c] + t)[0] == c && ([c] + t)[1..] == t;
  }

  /** Splitting at one separator splits the two sides independently. */
  lemma {:induction false} SplitAround(a: string, b: string, sep: char)
    ensures Split(a + [sep] + b, sep) == Split(a, sep) + Split(b, sep)
  {
    if a == [] {
      SplitAroundEmpty(b, sep);
    } else {
      SplitAround(a[1..], b, sep);
      SplitAroundCons(a, b, sep);
    }
  }

  /** The base case of SplitAround: a leading separator gives an empty first piece. */
  lemma SplitAroundEmpty(b: string, sep: char)
    ensures Split([] + [sep] + b, sep) == Split([], sep) + Split(b, sep)
  {
    assert [] + [sep] + b == [sep] + b;
    SplitConsSep(b, sep);
  }

  /** The inductive step of SplitAround: one more character in front of the left side. */
  lemma SplitAroundCons(a: string, b: string, sep: char)
    requires a != []
    requires Split(a[1..] + [sep] + b, sep) == Split(a[1..], sep) + Split(b, sep)
    ensures Split(a + [sep] + b, sep) == Split(a, sep) + Split(b, sep)
  {
    var s := a + [sep] + b;
    assert s[0] == a[0] && s[1..] == a[1..] + [sep] + b;
    if a[0] != sep {
      ConsHeadAppend(a[0], Split(a[1..], sep), Split(b, sep));
    }
  }

  /** Putting `c` in front of the first piece commutes with appending more pieces. */
  lemma ConsHeadAppend(c: char, left: seq<string>, right: seq<string>)
    requires |left| >= 1
    ensures [[c] + (left + right)[0]] + (left + right)[1..] == ([[c] + left[0]] + left[1..]) + right
  {
    assert (left + right)[0] == left[0];
    assert (left + right)[1..] == left[1..] + right;
  }

  /** Joining the pieces of a split gives the text back. */
  lemma {:induction false} JoinSplit(s: string, sep: char)
    ensures Join(Split(s, sep), sep) == s
  {
    if s != [] {
      var rest := Split(s[1..], sep);
      JoinSplit(s[1..], sep);
      assert s == [s[0]] + s[1..];
      if s[0] == sep {
        var pieces := [[]] + rest;
        assert Split(s, sep) == pieces;
        assert pieces[1..] == rest;
        assert Join(pieces, sep) == [] + [sep] + Join(rest, sep);
      } else {
        var pieces := [[s[0]] + rest[0]] + rest[1..];
        assert Split(s, sep) == pieces;
        if |rest| == 1 {
          assert Join(pieces, sep) == [s[0]] + Join(rest, sep);
        } else {
          assert pieces[1..] == rest[1..];
          assert Join(rest, sep) == rest[0] + [sep] + Join(rest[1..], sep);
          assert Join(pieces, sep) == [s[0]] + rest[0] + [sep] + Join(rest[1..], sep);
        }
      }
    }
  }

  /** Splitting the join of separator-free pieces gives the pieces back. */
  lemma {:induction false} SplitJoin(xs: seq<string>, sep: char)
    requires |xs| >= 1
    requires forall k :: 0 <= k < |xs| ==> sep !in xs[k]
    ensures Split(Join(xs, sep), sep) == xs
  {
    if |xs| == 1 {
      assert Join(xs, sep) == xs[0] + [];
      SplitPrepend(xs[0], [], sep);
      assert Split([], sep) == [[]];
      assert [xs[0] + []] == xs;
    } else {
      var joined := Join(xs[1..], sep);
      SplitJoin(xs[1..], sep);
      var tail := [sep] + joined;
      assert Join(xs, sep) == xs[0] + tail;
      assert tail[0] == sep && tail[1..] == joined;
      assert Split(tail, sep) == [[]] + xs[1..];
      SplitPrepend(xs[0], tail, sep);
      assert xs[0] + [] == xs[0];
      assert [xs[0]] + xs[1..] == xs;
    }
  }

  /**
   * Round trip of the settings page: a normalised list, shown joined with
   * line feeds and saved again without edits, is stored unchanged.
   */
  lemma NormalizeJoin(urls: seq<string>)
    requires Normalized(urls)
    ensures Normalize(Join(urls, '\n')) == urls
  {
    if urls == [] {
      assert TrimmedLines([]) == [[]];
    } else {
      SplitJoin(urls, '\n');
      var lines := TrimmedLines(Join(urls, '\n'));
      assert lines == urls;
      KeepNonEmptyUnchanged(urls);
    }
  }

  /** A list without empty entries passes the filter unchanged. */
  lemma {:induction false} KeepNonEmptyUnchanged(lines: seq<string>)
    requires forall k :: 0 <= k < |lines| ==> lines[k] != []
    ensures KeepNonEmpty(lines) == lines
  {
    if lines != [] {
      KeepNonEmptyUnchanged(lines[1..]);
    }
  }

  /** Saving twice is saving once: normalising the display of a stored list changes nothing. */
  lemma NormalizeIdempotent(text: string)
    ensures Normalize(Join(Normalize(text), '\n')) == Normalize(text)
  {
    NormalizeJoin(Normalize(text));
  }

  /** Each line of the text area is handled on its own. */
  lemma NormalizeAround(a: string, b: string)
    ensures Normalize(a + "\n" + b) == Normalize(a) + Normalize(b)
  {
    SplitAround(a, b, '\n');
    assert a + "\n" + b == a + ['\n'] + b;
    TrimEachAppend(Split(a, '\n'), Split(b, '\n'));
    KeepNonEmptyAppend(TrimmedLines(a), TrimmedLines(b));
  }

  /** A single line is stored trimmed, or not at all when it is blank. */
  lemma NormalizeLine(line: string)
    requires '\n' !in line
    ensures Normalize(line) == if Trim(line) == [] then [] else [Trim(line)]
  {
    SplitPrepend(line, [], '\n');
    assert line + [] == line;
    assert Split(line, '\n') == [line];
    var t := Trim(line);
    assert TrimmedLines(line) == [t];
    assert [t][1..] == [];
    assert KeepNonEmpty([t]) == (if t != [] then [t] else []) + KeepNonEmpty([]);
  }

  /** Surrounding whitespace is exactly what `trim` removes. */
  lemma TrimStrips(lead: string, t: string, trail: string)
    requires forall k :: 0 <= k < |lead| ==> IsWhitespace(lead[k])
    requires forall k :: 0 <= k < |trail| ==> IsWhitespace(trail[k])
    requires t != [] && IsTrimmed(t)
    ensures Trim(lead + t + trail) == t
  {
    assert lead + t + trail == lead + (t + trail);
    TrimStartDrops(lead, t + trail);
    TrimEndDrops(t, trail);
  }

  /** Leading whitespace in front of a non-whitespace character is exactly what TrimStart drops. */
  lemma {:induction false} TrimStartDrops(lead: string, rest: string)
    requires forall k :: 0 <= k < |lead| ==> IsWhitespace(lead[k])
    requires rest != [] && !IsWhitespace(rest[0])
    ensures TrimStart(lead + rest) == rest
  {
    if lead == [] {
      assert lead + rest == rest;
    } else {
      assert (lead + rest)[0] == lead[0];
      assert (lead + rest)[1..] == lead[1..] + rest;
      TrimStartDrops(lead[1..], rest);
    }
  }

  /** Trailing whitespace after a non-whitespace character is exactly what TrimEnd drops. */
  lemma {:induction false} TrimEndDrops(rest: string, trail: string)
    requires forall k :: 0 <= k < |trail| ==> IsWhitespace(trail[k])
    requires rest != [] && !IsWhitespace(rest[|rest| - 1])
    ensures TrimEnd(rest + trail) == rest
  {
    if trail == [] {
      assert rest + trail == rest;
    } else {
      var s := rest + trail;
      assert s[|s| - 1] == trail[|trail| - 1];
      assert s[..|s| - 1] == rest + trail[..|trail| - 1];
      TrimEndDrops(rest, trail[..|trail| - 1]);
    }
  }

  /** A line made of whitespace only is dropped; a line with text is stored trimmed. */
  lemma NormalizePaddedLine(lead: string, t: string, trail: string)
    requires forall k :: 0 <= k < |lead| ==> IsWhitespace(lead[k]) && lead[k] != '\n'
    requires forall k :: 0 <= k < |trail| ==> IsWhitespace(trail[k]) && trail[k] != '\n'
    requires IsTrimmed(t) && '\n' !in t
    ensures Normalize(lead + t + trail) == if t == [] then [] else [t]
  {
    var line := lead + t + trail;
    NormalizeLine(line);
    if t != [] {
      TrimStrips(lead, t, trail);
    } else {
      assert forall k :: 0 <= k < |line| ==> IsWhitespace(line[k]);
    }
  }

  /** The first two lines of the example below: a padded line, then a blank one. */
  lemma ExampleHead()
    ensures Normalize(" a " + "\n" + "") == ["a"]
  {
    NormalizePaddedLine(" ", "a", " ");
    assert " " + "a" + " " == " a ";
    NormalizePaddedLine("", "", "");
    assert "" + "" + "" == "";
    NormalizeAround(" a ", "");
  }

  /** The last two lines of the example below: trailing space, then a line of one space. */
  lemma ExampleTail()
    ensures Normalize("b " + "\n" + " ") == ["b"]
  {
    NormalizePaddedLine("", "b", " ");
    assert "" + "b" + " " == "b ";
    NormalizePaddedLine(" ", "", "");
    assert " " + "" + "" == " ";
    NormalizeAround("b ", " ");
  }

  /**
   * Blank lines are dropped and the surrounding whitespace of each line is
   * removed: the text ` a \n\nb \n ` (written below line by line) is stored
   * as `["a", "b"]`.
   */
  lemma NormalizeExample()
    ensures Normalize(" a " + "\n" + "" + "\n" + ("b " + "\n" + " ")) == ["a", "b"]
  {
    ExampleHead();
    ExampleTail();
    NormalizeAround(" a " + "\n" + "", "b " + "\n" + " ");
  }
}

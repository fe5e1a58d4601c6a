/**
 * The three stages of `strip_whitespace`: comments, runs of whitespace, and the
 * table of spaces around punctuation.
 */
module CssMinify {
  import opened PhpStrings
  import opened CssUrls

  // ---------------------------------------------------------------------------
  // strip_whitespace
  // ---------------------------------------------------------------------------

  // `preg_replace( '#/\*.*?\*/#s', '', $s )`: from each opening "/*", text up to and
  // including the first closing "*/" after it is removed; an unclosed one stays.
  function StripComments(s: string): (r: string)
    ensures |r| <= |s|
    decreases |s|
  {
    match IndexFrom(s, "/*", 0)
    case None => s
    case Some(p) =>
      match IndexFrom(s, "*/", p + 2)
      case None => s
      case Some(q) => s[..p] + StripComments(s[q + 2..])
  }

  // s holds a complete comment: an opening "/*" and, not overlapping it, a later "*/".
  ghost predicate HasComment(s: string) {
    exists p, q :: OccursAt(s, "/*", p) && p + 2 <= q && OccursAt(s, "*/", q)
  }

  /** Comment stripping changes the text exactly when it holds a complete comment. */
  lemma StripCommentsChanges(s: string)
    ensures StripComments(s) == s <==> !HasComment(s)
  {
    match IndexFrom(s, "/*", 0)
    case None =>
    case Some(p) =>
      match IndexFrom(s, "*/", p + 2)
      case None =>
        forall p', q' | OccursAt(s, "/*", p') && p' + 2 <= q' ensures !OccursAt(s, "*/", q') {
          assert p <= p';
        }
      case Some(q) =>
        assert HasComment(s);
        assert |StripComments(s)| < |s|;
  }

  /** `preg_replace( '#\s\s+#', ' ', $s )`: every run of two or more whitespace characters becomes one space. */
  function Collapse(s: string): string
    decreases |s|
  {
    if s == [] then []
    else if IsSpace(s[0]) && RunEnd(s, 0, Space) >= 2 then " " + Collapse(s[RunEnd(s, 0, Space)..])
    else [s[0]] + Collapse(s[1..])
  }

  /** The non-whitespace characters of s, in order. */
  function Visible(s: string): string
    decreases |s|
  {
    if s == [] then [] else (if IsSpace(s[0]) then [] else [s[0]]) + Visible(s[1..])
  }

  lemma {:induction false} VisibleAppend(a: string, b: string)
    ensures Visible(a + b) == Visible(a) + Visible(b)
    decreases |a|
  {
    if a == [] {
      assert a + b == b;
    } else {
      assert (a + b)[0] == a[0];
      assert (a + b)[1..] == a[1..] + b;
      VisibleAppend(a[1..], b);
    }
  }

  lemma {:induction false} VisibleOfSpaces(s: string)
    requires AllIn(s, 0, |s|, Space)
    ensures Visible(s) == []
    decreases |s|
  {
    if s != [] {
      VisibleOfSpaces(s[1..]);
    }
  }

  /** The collapse keeps the text's first character, or replaces a leading run by one space. */
  lemma CollapseFirst(s: string)
    ensures Collapse(s) == [] <==> s == []
    ensures s != [] ==> (IsSpace(Collapse(s)[0]) <==> IsSpace(s[0]))
  {
  }

  /** After the collapse no two whitespace characters are adjacent. */
  lemma {:induction false} CollapseNoAdjacentSpaces(s: string)
    ensures var r := Collapse(s);
            forall i :: 0 <= i < |r| - 1 ==> !(IsSpace(r[i]) && IsSpace(r[i + 1]))
    decreases |s|
  {
    if s != [] {
      var e := RunEnd(s, 0, Space);
      if IsSpace(s[0]) && e >= 2 {
        var t := s[e..];
        CollapseNoAdjacentSpaces(t);
        CollapseFirst(t);
        assert Collapse(s) == " " + Collapse(t);
        assert t != [] ==> !IsSpace(t[0]);
      } else {
        var t := s[1..];
        CollapseNoAdjacentSpaces(t);
        CollapseFirst(t);
        assert Collapse(s) == [s[0]] + Collapse(t);
        assert IsSpace(s[0]) ==> t != [] ==> !IsSpace(t[0]);
      }
    }
  }

  /** The collapse keeps the visible characters of the text, in order. */
  lemma {:induction false} CollapseVisible(s: string)
    ensures Visible(Collapse(s)) == Visible(s)
    decreases |s|
  {
    if s != [] {
      var e := RunEnd(s, 0, Space);
      if IsSpace(s[0]) && e >= 2 {
        var t := s[e..];
        CollapseVisible(t);
        assert Collapse(s) == " " + Collapse(t);
        VisibleAppend(" ", Collapse(t));
        assert s == s[..e] + t;
        VisibleAppend(s[..e], t);
        RunEndSpan(s, 0, Space);
        assert AllIn(s[..e], 0, e, Space);
        VisibleOfSpaces(s[..e]);
      } else {
        var t := s[1..];
        CollapseVisible(t);
        assert Collapse(s) == [s[0]] + Collapse(t);
        VisibleAppend([s[0]], Collapse(t));
        assert s == [s[0]] + t;
        VisibleAppend([s[0]], t);
      }
    }
  }

  /** The second table of `strip_whitespace`; "\\n" is a backslash and an 'n', as in single quotes. */
  const StripTable: seq<(string, string)> := [
    (": ", ":"), ("; ", ";"), (" {", "{"), (" }", "}"), (", ", ","), ("{ ", "{"),
    (";}", "}"), (",\\n", ","), ("\\n}", "}"), ("} ", "}\n"), ("\\n", "")
  ]

  /** `str_replace( $search, $replace, $s )` with arrays: each pair in turn, on the result of the previous one. */
  function ReplaceEach(s: string, table: seq<(string, string)>): string
    requires forall i :: 0 <= i < |table| ==> |table[i].0| > 0
    decreases |table|
  {
    if table == [] then s else ReplaceEach(ReplaceAll(s, table[0].0, table[0].1), table[1..])
  }

  /** The number of times c occurs in s. */
  function CountChar(s: string, c: char): nat
    decreases |s|
  {
    if s == [] then 0 else (if s[0] == c then 1 else 0) + CountChar(s[1..], c)
  }

  lemma {:induction false} CountCharAppend(a: string, b: string, c: char)
    ensures CountChar(a + b, c) == CountChar(a, c) + CountChar(b, c)
    decreases |a|
  {
    if a != [] {
      assert (a + b)[0] == a[0];
      assert (a + b)[1..] == a[1..] + b;
      CountCharAppend(a[1..], b, c);
      assert CountChar(a + b, c) == (if a[0] == c then 1 else 0) + CountChar(a[1..] + b, c);
    } else {
      assert a + b == b;
    }
  }

  lemma {:induction false} CountCharAbsent(s: string, c: char)
    requires c !in s
    ensures CountChar(s, c) == 0
    decreases |s|
  {
    if s != [] {
      CountCharAbsent(s[1..], c);
    }
  }

  /** Replacing a string that does not hold c never removes an occurrence of c. */
  lemma {:induction false} ReplaceAllKeeps(s: string, p: string, r: string, c: char)
    requires |p| > 0 && c !in p
    ensures CountChar(ReplaceAll(s, p, r), c) >= CountChar(s, c)
    decreases |s|
  {
    if |s| >= |p| {
      if s[..|p|] == p {
        ReplaceAllKeeps(s[|p|..], p, r, c);
        assert s == p + s[|p|..];
        CountCharAppend(p, s[|p|..], c);
        CountCharAbsent(p, c);
        CountCharAppend(r, ReplaceAll(s[|p|..], p, r), c);
      } else {
        ReplaceAllKeeps(s[1..], p, r, c);
        assert s == [s[0]] + s[1..];
        CountCharAppend([s[0]], s[1..], c);
        CountCharAppend([s[0]], ReplaceAll(s[1..], p, r), c);
      }
    }
  }

  lemma {:induction false} ReplaceEachKeeps(s: string, table: seq<(string, string)>, c: char)
    requires forall i :: 0 <= i < |table| ==> |table[i].0| > 0 && c !in table[i].0
    ensures CountChar(ReplaceEach(s, table), c) >= CountChar(s, c)
    decreases |table|
  {
    if table != [] {
      ReplaceAllKeeps(s, table[0].0, table[0].1, c);
      ReplaceEachKeeps(ReplaceAll(s, table[0].0, table[0].1), table[1..], c);
    }
  }

  /**
   * The table removes the two-character text backslash-n, never a real line
   * feed: no search string holds one, so every line feed survives the table.
   */
  lemma StripTableKeepsLineFeeds(s: string)
    ensures CountChar(ReplaceEach(s, StripTable), '\n') >= CountChar(s, '\n')
  {
    var t := StripTable;
    forall i | 0 <= i < |t| ensures |t[i].0| > 0 && '\n' !in t[i].0 {
      assert t[i].0 == t[i].0;
    }
    ReplaceEachKeeps(s, t, '\n');
  }

  /** `strip_whitespace( $content )`. */
  function StripWhitespace(s: string): string {
    Trim(ReplaceEach(Collapse(StripComments(s)), StripTable))
  }

  lemma ContainsChars(s: string, p: string)
    requires |p| > 0
    ensures Contains(s, p) ==> forall i :: 0 <= i < |p| ==> p[i] in s
  {
    if Contains(s, p) {
      var j := IndexFrom(s, p, 0).value;
      forall i | 0 <= i < |p| ensures p[i] in s {
        assert s[j..j + |p|][i] == s[j + i];
      }
    }
  }

  lemma {:induction false} CollapseNoSpace(s: string)
    requires forall i :: 0 <= i < |s| ==> !IsSpace(s[i])
    ensures Collapse(s) == s
    decreases |s|
  {
    if s != [] {
      CollapseNoSpace(s[1..]);
    }
  }

  lemma NoCommentUnchanged(s: string)
    requires !Contains(s, "/*")
    ensures StripComments(s) == s
  {
  }

  // Text that is already minified (no whitespace, no backslash, no ";}", no "/*",
  // no NUL) is a fixed point of `strip_whitespace`.
  lemma StripWhitespaceMinified(s: string)
    requires forall i :: 0 <= i < |s| ==> !IsSpace(s[i]) && s[i] != '\\' && s[i] != '\0'
    requires !Contains(s, "/*") && !Contains(s, ";}")
    ensures StripWhitespace(s) == s
  {
    TrimNoSpace(s);
    NoCommentUnchanged(s);
    CollapseNoSpace(s);
    assert ' ' !in s && '\\' !in s;
    StripTableUnchanged(s);
    StagesUnchanged(s);
  }

  lemma TrimNoSpace(s: string)
    requires forall i :: 0 <= i < |s| ==> !IsSpace(s[i]) && s[i] != '\0'
    ensures Trim(s) == s
  {
    if s != [] {
      assert !IsSpace(s[0]) && s[0] != '\0';
      assert !IsSpace(s[|s| - 1]) && s[|s| - 1] != '\0';
    }
    TrimFixed(s);
  }

  lemma StagesUnchanged(s: string)
    requires StripComments(s) == s && Collapse(s) == s && ReplaceEach(s, StripTable) == s && Trim(s) == s
    ensures StripWhitespace(s) == s
  {
  }

  /** A string missing one of p's characters does not contain p. */
  lemma AbsentByChar(s: string, p: string, c: char)
    requires |p| > 0 && c in p && c !in s
    ensures !Contains(s, p)
  {
    ContainsChars(s, p);
  }

  lemma StripTableAbsent(s: string)
    requires ' ' !in s && '\\' !in s && !Contains(s, ";}")
    ensures forall i :: 0 <= i < |StripTable| ==> !Contains(s, StripTable[i].0)
  {
    var t := StripTable;
    forall i | 0 <= i < |t| ensures !Contains(s, t[i].0) {
      if i == 7 || i == 8 || i == 10 {
        AbsentByChar(s, t[i].0, '\\');
      } else if i != 6 {
        AbsentByChar(s, t[i].0, ' ');
      }
    }
  }

  lemma StripTableUnchanged(s: string)
    requires ' ' !in s && '\\' !in s && !Contains(s, ";}")
    ensures ReplaceEach(s, StripTable) == s
  {
    StripTableAbsent(s);
    ReplaceEachAbsent(s, StripTable);
  }

  lemma {:induction false} ReplaceEachAbsent(s: string, table: seq<(string, string)>)
    requires forall i :: 0 <= i < |table| ==> |table[i].0| > 0 && !Contains(s, table[i].0)
    ensures ReplaceEach(s, table) == s
    decreases |table|
  {
    if table != [] {
      ReplaceAllAbsent(s, table[0].0, table[0].1);
      ReplaceEachAbsent(s, table[1..]);
    }
  }
}

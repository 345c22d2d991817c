/**
 * The string operations behind the paragraph normalisation of
 * `scrapeKeyElements`: `str.strip`, the two `re.sub` calls, `str.casefold`
 * and `str.split(" ")`, over an ASCII approximation of Python's character
 * classes.
 */
module TextNormalize {

  /** Whitespace as Python's `str.isspace` sees it, restricted to ASCII. */
  predicate IsSpace(c: char) {
    c == ' ' || c == '\t' || c == '\n' || c == '\r' || c == '\U{B}' || c == '\U{C}'
    || ('\U{1C}' <= c <= '\U{1F}')
  }

  predicate AllSpace(s: string) {
    forall i :: 0 <= i < |s| ==> IsSpace(s[i])
  }

  predicate IsUpper(c: char) {
    'A' <= c <= 'Z'
  }

  /** No two adjacent spaces. */
  predicate NoDoubleSpace(s: string) {
    forall i :: 0 <= i < |s| - 1 ==> !(s[i] == ' ' && s[i + 1] == ' ')
  }

  /** `s.lstrip()`. */
  function StripLeft(s: string): string {
    if s != [] && IsSpace(s[0]) then StripLeft(s[1..]) else s
  }

  /** `s.rstrip()`. */
  function StripRight(s: string): string {
    if s != [] && IsSpace(s[|s| - 1]) then StripRight(s[..|s| - 1]) else s
  }

  /** `s.strip()`. */
  function Strip(s: string): string {
    StripRight(StripLeft(s))
  }

  /** `lstrip` removes the longest all-whitespace prefix and nothing else. */
  lemma {:induction false} StripLeftShape(s: string)
    ensures var r := StripLeft(s);
            |r| <= |s| && r == s[|s| - |r|..] && AllSpace(s[..|s| - |r|])
            && (r == [] || !IsSpace(r[0]))
  {
    if s != [] && IsSpace(s[0]) {
      var r := StripLeft(s[1..]);
      StripLeftShape(s[1..]);
      assert s[..|s| - |r|] == [s[0]] + s[1..][..|s| - 1 - |r|];
    }
  }

  /** `rstrip` removes the longest all-whitespace suffix and nothing else. */
  lemma {:induction false} StripRightShape(s: string)
    ensures var r := StripRight(s);
            |r| <= |s| && r == s[..|r|] && AllSpace(s[|r|..])
            && (r == [] || !IsSpace(r[|r| - 1]))
  {
    if s != [] && IsSpace(s[|s| - 1]) {
      var r := StripRight(s[..|s| - 1]);
      StripRightShape(s[..|s| - 1]);
      assert s[|r|..] == s[..|s| - 1][|r|..] + [s[|s| - 1]];
    }
  }

  /**
   * `strip` leaves a string with no whitespace at either end, obtained from
   * its argument by removing whitespace at the two ends only.
   */
  lemma StripShape(s: string)
    ensures var r := Strip(s);
            (r == [] || (!IsSpace(r[0]) && !IsSpace(r[|r| - 1])))
            && exists i :: 0 <= i <= |s| - |r| && r == s[i..i + |r|]
                           && AllSpace(s[..i]) && AllSpace(s[i + |r|..])
  {
    var l := StripLeft(s);
    var r := StripRight(l);
    StripLeftShape(s);
    StripRightShape(l);
    var i := |s| - |l|;
    assert r == s[i..i + |r|];
    assert s[i + |r|..] == l[|r|..];
  }

  /** The maximal run of `c` at the front of `s`, dropped. */
  function DropRun(s: string, c: char): (r: string)
    ensures |r| <= |s| && (s != [] && s[0] == c ==> |r| < |s|)
  {
    if s != [] && s[0] == c then DropRun(s[1..], c) else s
  }

  /** What `DropRun` removes is a prefix made only of `c`, and all of it. */
  lemma {:induction false} DropRunShape(s: string, c: char)
    ensures var r := DropRun(s, c);
            r == s[|s| - |r|..] && (forall i :: 0 <= i < |s| - |r| ==> s[i] == c)
            && (r == [] || r[0] != c)
  {
    if s != [] && s[0] == c {
      DropRunShape(s[1..], c);
    }
  }

  /**
   * `re.sub("\n+|\t+", " ", s)`: scanning left to right, every maximal run
   * of newlines and every maximal run of tabs becomes a single space.
   */
  function SubNewlineTabRuns(s: string): string
    decreases |s|
  {
    if s == [] then []
    else if s[0] == '\n' then
      [' '] + SubNewlineTabRuns(DropRun(s, '\n'))
    else if s[0] == '\t' then
      [' '] + SubNewlineTabRuns(DropRun(s, '\t'))
    else [s[0]] + SubNewlineTabRuns(s[1..])
  }

  /** After the substitution no newline and no tab is left. */
  lemma {:induction false} SubNewlineTabRunsClean(s: string)
    ensures forall i :: 0 <= i < |SubNewlineTabRuns(s)| ==>
              SubNewlineTabRuns(s)[i] != '\n' && SubNewlineTabRuns(s)[i] != '\t'
    decreases |s|
  {
    if s != [] {
      if s[0] == '\n' || s[0] == '\t' {
        SubNewlineTabRunsClean(DropRun(s, s[0]));
      } else {
        SubNewlineTabRunsClean(s[1..]);
      }
    }
  }

  /** The substitution keeps a last character that is neither newline nor tab. */
  lemma {:induction false} SubNewlineTabRunsLast(s: string)
    requires s != [] && s[|s| - 1] != '\n' && s[|s| - 1] != '\t'
    ensures SubNewlineTabRuns(s) != [] && SubNewlineTabRuns(s)[|SubNewlineTabRuns(s)| - 1] == s[|s| - 1]
    decreases |s|
  {
    if s[0] == '\n' || s[0] == '\t' {
      var t := DropRun(s, s[0]);
      DropRunShape(s, s[0]);
      assert t != [] && t[|t| - 1] == s[|s| - 1];
      SubNewlineTabRunsLast(t);
      assert SubNewlineTabRuns(s) == [' '] + SubNewlineTabRuns(t);
    } else if |s| > 1 {
      SubNewlineTabRunsLast(s[1..]);
      assert SubNewlineTabRuns(s) == [s[0]] + SubNewlineTabRuns(s[1..]);
    }
  }

  /** Without newlines and tabs there is nothing to substitute. */
  lemma {:induction false} SubNewlineTabRunsNoop(s: string)
    requires forall i :: 0 <= i < |s| ==> s[i] != '\n' && s[i] != '\t'
    ensures SubNewlineTabRuns(s) == s
    decreases |s|
  {
    if s != [] {
      SubNewlineTabRunsNoop(s[1..]);
    }
  }

  /** Text without newlines and tabs passes through the substitution untouched, even in front of more text. */
  lemma {:induction false} SubNewlineTabRunsPrefix(u: string, v: string)
    requires forall i :: 0 <= i < |u| ==> u[i] != '\n' && u[i] != '\t'
    ensures SubNewlineTabRuns(u + v) == u + SubNewlineTabRuns(v)
  {
    if u == [] {
      assert u + v == v;
    } else {
      assert (u + v)[0] == u[0] && (u + v)[1..] == u[1..] + v;
      SubNewlineTabRunsPrefix(u[1..], v);
      assert u == [u[0]] + u[1..];
    }
  }

  /**
   * A whole run of newlines, or a whole run of tabs, becomes exactly one
   * space: the words on either side stay apart.
   */
  lemma {:induction false} SubNewlineTabRunsRun(r: string, w: string, c: char)
    requires c == '\n' || c == '\t'
    requires r != [] && forall i :: 0 <= i < |r| ==> r[i] == c
    requires w == [] || w[0] != c
    ensures SubNewlineTabRuns(r + w) == [' '] + SubNewlineTabRuns(w)
  {
    assert (r + w)[0] == c;
    DropRunPrefix(r, w, c);
  }

  /** A line break between two words becomes a space: `"a\nb"` gives `"a b"`, two words. */
  lemma SubLineBreakExample()
    ensures SubNewlineTabRuns("a\nb") == "a b"
  {
    SubNewlineTabRunsNoop("b");
    SubNewlineTabRunsRun("\n", "b", '\n');
    SubNewlineTabRunsPrefix("a", "\nb");
    assert "a" + "\nb" == "a\nb";
    assert "\n" + "b" == "\nb";
  }

  /** `re.sub(" +", " ", s)`: every maximal run of spaces becomes one space. */
  function CollapseSpaces(s: string): string
    decreases |s|
  {
    if s == [] then []
    else if s[0] == ' ' then
      [' '] + CollapseSpaces(DropRun(s, ' '))
    else [s[0]] + CollapseSpaces(s[1..])
  }

  /** After collapsing no two spaces are adjacent. */
  lemma {:induction false} CollapseSpacesNoDouble(s: string)
    ensures NoDoubleSpace(CollapseSpaces(s))
    decreases |s|
  {
    if s != [] {
      var t := if s[0] == ' ' then DropRun(s, ' ') else s[1..];
      if s[0] == ' ' {
        DropRunShape(s, ' ');
      }
      CollapseSpacesNoDouble(t);
      var ct := CollapseSpaces(t);
      assert t != [] ==> ct[0] == t[0];
      var r := CollapseSpaces(s);
      assert r == [if s[0] == ' ' then ' ' else s[0]] + ct;
      forall i | 0 <= i < |r| - 1 ensures !(r[i] == ' ' && r[i + 1] == ' ') {
        if i > 0 {
          assert r[i] == ct[i - 1] && r[i + 1] == ct[i];
        }
      }
    }
  }

  /** Collapsing introduces no character that was not there. */
  lemma {:induction false} CollapseSpacesChars(s: string)
    ensures forall i :: 0 <= i < |CollapseSpaces(s)| ==> CollapseSpaces(s)[i] in s
    decreases |s|
  {
    if s != [] {
      var t := if s[0] == ' ' then DropRun(s, ' ') else s[1..];
      if s[0] == ' ' {
        DropRunShape(s, ' ');
      }
      CollapseSpacesChars(t);
      assert forall i :: 0 <= i < |t| ==> t[i] == s[|s| - |t| + i];
    }
  }

  /** Collapsing keeps a last character that is not a space. */
  lemma {:induction false} CollapseSpacesLast(s: string)
    requires s != [] && s[|s| - 1] != ' '
    ensures CollapseSpaces(s) != [] && CollapseSpaces(s)[|CollapseSpaces(s)| - 1] == s[|s| - 1]
    decreases |s|
  {
    if s[0] == ' ' {
      var t := DropRun(s, ' ');
      DropRunShape(s, ' ');
      assert t != [] && t[|t| - 1] == s[|s| - 1];
      CollapseSpacesLast(t);
      assert CollapseSpaces(s) == [' '] + CollapseSpaces(t);
    } else if |s| > 1 {
      CollapseSpacesLast(s[1..]);
      assert CollapseSpaces(s) == [s[0]] + CollapseSpaces(s[1..]);
    }
  }

  /** Without two adjacent spaces there is nothing to collapse. */
  lemma {:induction false} CollapseSpacesNoop(s: string)
    requires NoDoubleSpace(s)
    ensures CollapseSpaces(s) == s
    decreases |s|
  {
    if s != [] {
      assert NoDoubleSpace(s[1..]) by {
        forall i | 0 <= i < |s[1..]| - 1 ensures !(s[1..][i] == ' ' && s[1..][i + 1] == ' ') {
          assert s[1..][i] == s[i + 1] && s[1..][i + 1] == s[i + 2];
        }
      }
      if s[0] == ' ' {
        var t := DropRun(s, ' ');
        DropRunShape(s, ' ');
        assert |s| > 1 ==> s[1] != ' ';
        assert t == s[1..];
      }
      CollapseSpacesNoop(s[1..]);
    }
  }

  /** ASCII case folding of one character. */
  function Lower(c: char): char {
    if IsUpper(c) then (c as int + 32) as char else c
  }

  /** `s.casefold()`, restricted to ASCII letters. */
  function CaseFold(s: string): string {
    seq(|s|, i requires 0 <= i < |s| => Lower(s[i]))
  }

  /**
   * What normalisation guarantees of a paragraph: no newline, no tab, no
   * upper-case letter, no two adjacent spaces, no whitespace at either end.
   */
  predicate IsNormal(s: string) {
    && (forall i :: 0 <= i < |s| ==> s[i] != '\n' && s[i] != '\t' && !IsUpper(s[i]))
    && NoDoubleSpace(s)
    && (s == [] || (!IsSpace(s[0]) && !IsSpace(s[|s| - 1])))
  }

  /** Case folding touches letters only, so it keeps the other conditions of `IsNormal`. */
  lemma CaseFoldNormal(s: string)
    requires forall i :: 0 <= i < |s| ==> s[i] != '\n' && s[i] != '\t'
    requires NoDoubleSpace(s)
    requires s == [] || (!IsSpace(s[0]) && !IsSpace(s[|s| - 1]))
    ensures IsNormal(CaseFold(s))
  {
    var r := CaseFold(s);
    assert forall i :: 0 <= i < |s| ==> (r[i] == ' ' <==> s[i] == ' ') && (IsSpace(r[i]) <==> IsSpace(s[i]));
  }

  /**
   * The text of one paragraph as `scrapeKeyElements` stores it: stripped,
   * newline and tab runs made spaces, space runs collapsed, case-folded.
   */
  function Normalize(text: string): string {
    CaseFold(CollapseSpaces(SubNewlineTabRuns(Strip(text))))
  }

  /**
   * A normalised paragraph has no newline, no tab, no upper-case letter, no
   * two adjacent spaces and no whitespace at either end.
   */
  lemma NormalizeIsNormal(text: string)
    ensures IsNormal(Normalize(text))
  {
    var stripped := Strip(text);
    var subbed := SubNewlineTabRuns(stripped);
    var collapsed := CollapseSpaces(subbed);
    StripShape(text);
    SubNewlineTabRunsClean(stripped);
    CollapseSpacesChars(subbed);
    CollapseSpacesNoDouble(subbed);
    if stripped != [] {
      SubNewlineTabRunsLast(stripped);
      CollapseSpacesLast(subbed);
    }
    CaseFoldNormal(collapsed);
  }

  lemma CaseFoldOfLower(s: string)
    requires forall i :: 0 <= i < |s| ==> !IsUpper(s[i])
    ensures CaseFold(s) == s
  {
  }

  lemma StripOfTrimmed(s: string)
    requires s == [] || (!IsSpace(s[0]) && !IsSpace(s[|s| - 1]))
    ensures Strip(s) == s
  {
  }

  /** A string is a fixed point of normalisation exactly when it is normal. */
  lemma NormalizeFixpoint(s: string)
    ensures Normalize(s) == s <==> IsNormal(s)
  {
    NormalizeIsNormal(s);
    if IsNormal(s) {
      StripOfTrimmed(s);
      SubNewlineTabRunsNoop(s);
      CollapseSpacesNoop(s);
      CaseFoldOfLower(s);
    }
  }

  /** Normalising twice is normalising once. */
  lemma NormalizeIdempotent(text: string)
    ensures Normalize(Normalize(text)) == Normalize(text)
  {
    NormalizeIsNormal(text);
    NormalizeFixpoint(Normalize(text));
  }

  /** A space-free prefix passes through the space collapsing untouched. */
  lemma {:induction false} CollapseSpacesPrefix(u: string, v: string)
    requires forall i :: 0 <= i < |u| ==> u[i] != ' '
    ensures CollapseSpaces(u + v) == u + CollapseSpaces(v)
  {
    if u == [] {
      assert u + v == v;
    } else {
      assert (u + v)[0] == u[0] && (u + v)[1..] == u[1..] + v;
      CollapseSpacesPrefix(u[1..], v);
      assert u == [u[0]] + u[1..];
    }
  }

  // The worked example "Hello   World\n\n", one stage at a time.

  lemma StripRightExample()
    ensures StripRight("Hello   World\n\n") == "Hello   World"
  {
  }

  lemma StripLeftExample()
    ensures StripLeft("Hello   World\n\n") == "Hello   World\n\n"
  {
  }

  lemma StripExample()
    ensures Strip("Hello   World\n\n") == "Hello   World"
  {
    StripRightExample();
    StripLeftExample();
  }

  lemma SubExample()
    ensures SubNewlineTabRuns("Hello   World") == "Hello   World"
  {
    var t := "Hello   World";
    assert '\n' !in t && '\t' !in t;
    SubNewlineTabRunsNoop(t);
  }

  /** A run of spaces in front of text that does not start with one becomes one space. */
  lemma {:induction false} CollapseSpacesRun(r: string, w: string)
    requires r != [] && forall i :: 0 <= i < |r| ==> r[i] == ' '
    requires w == [] || w[0] != ' '
    ensures CollapseSpaces(r + w) == [' '] + CollapseSpaces(w)
  {
    DropRunPrefix(r, w, ' ');
  }

  lemma {:induction false} DropRunPrefix(r: string, w: string, c: char)
    requires forall i :: 0 <= i < |r| ==> r[i] == c
    requires w == [] || w[0] != c
    ensures DropRun(r + w, c) == w
    decreases |r|
  {
    if r != [] {
      assert (r + w)[1..] == r[1..] + w;
      DropRunPrefix(r[1..], w, c);
    } else {
      assert r + w == w;
    }
  }

  lemma CollapseTailExample()
    ensures CollapseSpaces("   World") == " World"
  {
    var w := "World";
    assert NoDoubleSpace(w);
    CollapseSpacesNoop(w);
    CollapseSpacesRun("   ", w);
    assert "   " + w == "   World";
  }

  lemma CollapseSplitExample()
    ensures CollapseSpaces("Hello" + "   World") == "Hello" + " World"
  {
    CollapseSpacesPrefix("Hello", "   World");
    CollapseTailExample();
  }

  lemma CollapseExample()
    ensures CollapseSpaces("Hello   World") == "Hello World"
  {
    CollapseSplitExample();
    assert "Hello" + "   World" == "Hello   World";
  }

  lemma CaseFoldExample()
    ensures CaseFold("Hello World") == "hello world"
  {
  }

  /** `Normalize("Hello   World\n\n") == "hello world"`. */
  lemma NormalizeExample()
    ensures Normalize("Hello   World\n\n") == "hello world"
  {
    StripExample();
    SubExample();
    CollapseExample();
    CaseFoldExample();
  }

  // ---------------------------------------------------------------------
  // Normalisation changes only whitespace and letter case.

  /** The non-whitespace characters of `s`, in order. */
  function Visible(s: string): string {
    if s == [] then [] else (if IsSpace(s[0]) then [] else [s[0]]) + Visible(s[1..])
  }

  lemma {:induction false} VisibleAppend(a: string, b: string)
    ensures Visible(a + b) == Visible(a) + Visible(b)
  {
    if a != [] {
      var head := if IsSpace(a[0]) then [] else [a[0]];
      assert (a + b)[0] == a[0] && (a + b)[1..] == a[1..] + b;
      VisibleAppend(a[1..], b);
      calc {
        Visible(a + b);
        head + Visible(a[1..] + b);
        head + (Visible(a[1..]) + Visible(b));
        (head + Visible(a[1..])) + Visible(b);
      }
    } else {
      assert a + b == b;
    }
  }

  lemma {:induction false} VisibleAllSpace(s: string)
    requires AllSpace(s)
    ensures Visible(s) == []
  {
    if s != [] {
      VisibleAllSpace(s[1..]);
    }
  }

  lemma VisibleStrip(s: string)
    ensures Visible(Strip(s)) == Visible(s)
  {
    var l := StripLeft(s);
    StripLeftShape(s);
    StripRightShape(l);
    var k := |s| - |l|;
    assert s == s[..k] + l;
    VisibleAppend(s[..k], l);
    VisibleAllSpace(s[..k]);
    var r := StripRight(l);
    assert l == r + l[|r|..];
    VisibleAppend(r, l[|r|..]);
    VisibleAllSpace(l[|r|..]);
  }

  /** Dropping a leading run of a whitespace character does not change the visible text. */
  lemma VisibleDropRun(s: string, c: char)
    requires IsSpace(c)
    ensures Visible(DropRun(s, c)) == Visible(s)
  {
    var t := DropRun(s, c);
    DropRunShape(s, c);
    var k := |s| - |t|;
    assert s == s[..k] + t;
    assert AllSpace(s[..k]);
    VisibleAppend(s[..k], t);
    VisibleAllSpace(s[..k]);
  }

  lemma {:induction false} VisibleSubNewlineTabRuns(s: string)
    ensures Visible(SubNewlineTabRuns(s)) == Visible(s)
    decreases |s|
  {
    if s == [] {
    } else if s[0] == '\n' || s[0] == '\t' {
      var t := DropRun(s, s[0]);
      VisibleSubNewlineTabRuns(t);
      VisibleDropRun(s, s[0]);
      VisibleAppend([' '], SubNewlineTabRuns(t));
    } else {
      VisibleSubNewlineTabRuns(s[1..]);
      VisibleAppend([s[0]], SubNewlineTabRuns(s[1..]));
    }
  }

  lemma {:induction false} VisibleCollapseSpaces(s: string)
    ensures Visible(CollapseSpaces(s)) == Visible(s)
    decreases |s|
  {
    if s == [] {
    } else if s[0] == ' ' {
      var t := DropRun(s, ' ');
      VisibleCollapseSpaces(t);
      VisibleDropRun(s, ' ');
      VisibleAppend([' '], CollapseSpaces(t));
    } else {
      VisibleCollapseSpaces(s[1..]);
      VisibleAppend([s[0]], CollapseSpaces(s[1..]));
    }
  }

  lemma CaseFoldAppend(a: string, b: string)
    ensures CaseFold(a + b) == CaseFold(a) + CaseFold(b)
  {
  }

  lemma {:induction false} VisibleCaseFold(s: string)
    ensures Visible(CaseFold(s)) == CaseFold(Visible(s))
  {
    if s != [] {
      var head := if IsSpace(s[0]) then [] else [s[0]];
      assert CaseFold(s) == [Lower(s[0])] + CaseFold(s[1..]);
      VisibleCaseFold(s[1..]);
      VisibleAppend([Lower(s[0])], CaseFold(s[1..]));
      assert Visible([Lower(s[0])]) == CaseFold(head);
      CaseFoldAppend(head, Visible(s[1..]));
    }
  }

  /**
   * Normalisation keeps every non-whitespace character of the paragraph, in
   * order, case-folded, and adds none.
   */
  lemma NormalizeKeepsText(text: string)
    ensures Visible(Normalize(text)) == CaseFold(Visible(text))
  {
    var stripped := Strip(text);
    var subbed := SubNewlineTabRuns(stripped);
    var collapsed := CollapseSpaces(subbed);
    VisibleStrip(text);
    VisibleSubNewlineTabRuns(stripped);
    VisibleCollapseSpaces(subbed);
    VisibleCaseFold(collapsed);
  }

  // ---------------------------------------------------------------------
  // `str.split(sep)` and `sep.join(parts)`.

  /** Occurrences of `c` in `s`. */
  function Count(s: string, c: char): nat {
    if s == [] then 0 else (if s[0] == c then 1 else 0) + Count(s[1..], c)
  }

  /**
   * `s.split(sep)` with an explicit separator: the pieces between
   * separators, empty pieces included, so never an empty list.
   */
  function Split(s: string, sep: char): (r: seq<string>)
    ensures |r| >= 1
  {
    if s == [] then [[]]
    else
      var rest := Split(s[1..], sep);
      if s[0] == sep then [[]] + rest else [[s[0]] + rest[0]] + rest[1..]
  }

  /** `sep.join(parts)`. */
  function Join(parts: seq<string>, sep: char): string {
    if |parts| == 0 then []
    else if |parts| == 1 then parts[0]
    else parts[0] + [sep] + Join(parts[1..], sep)
  }

  /** Joining the pieces of a split gives back the string. */
  lemma {:induction false} JoinSplit(s: string, sep: char)
    ensures Join(Split(s, sep), sep) == s
  {
    if s != [] {
      var rest := Split(s[1..], sep);
      JoinSplit(s[1..], sep);
      if s[0] == sep {
        assert Split(s, sep) == [[]] + rest;
        assert ([[]] + rest)[1..] == rest;
      } else {
        var parts := [[s[0]] + rest[0]] + rest[1..];
        if |rest| > 1 {
          assert parts[1..] == rest[1..];
          assert Join(rest, sep) == rest[0] + [sep] + Join(rest[1..], sep);
        }
      }
    }
  }

  /** `len(s.split(sep))` is one more than the number of separators in `s`. */
  lemma {:induction false} SplitLength(s: string, sep: char)
    ensures |Split(s, sep)| == Count(s, sep) + 1
  {
    if s != [] {
      SplitLength(s[1..], sep);
    }
  }

  lemma {:induction false} CountAppend(a: string, b: string, c: char)
    ensures Count(a + b, c) == Count(a, c) + Count(b, c)
  {
    if a != [] {
      assert (a + b)[0] == a[0] && (a + b)[1..] == a[1..] + b;
      CountAppend(a[1..], b, c);
      assert Count(a + b, c) == (if a[0] == c then 1 else 0) + Count(a[1..] + b, c);
    } else {
      assert a + b == b;
    }
  }

  /** `sep.join` of a list followed by one more part. */
  lemma {:induction false} JoinSnoc(parts: seq<string>, x: string, sep: char)
    ensures Join(parts + [x], sep) == if parts == [] then x else Join(parts, sep) + [sep] + x
    decreases |parts|
  {
    if |parts| > 1 {
      assert (parts + [x])[1..] == parts[1..] + [x];
      JoinSnoc(parts[1..], x, sep);
    } else if |parts| == 1 {
      assert (parts + [x])[1..] == [x];
    }
  }
}

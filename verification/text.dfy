/**
 * String primitives the stock checker relies on: Python's `phrase in text`,
 * lower-casing, finding a character, and iteration over the lines of a file.
 */
module Text {

  /** `phrase` occurs in `text` starting at position `i`. */
  ghost predicate OccursAt(text: string, phrase: string, i: int) {
    0 <= i && i + |phrase| <= |text| && text[i..i + |phrase|] == phrase
  }

  /** The declarative meaning of Python's `phrase in text`. */
  ghost predicate Mentions(text: string, phrase: string) {
    exists i :: OccursAt(text, phrase, i)
  }

  predicate StartsWith(text: string, prefix: string) {
    |prefix| <= |text| && text[..|prefix|] == prefix
  }

  /** Substring search, trying every start position from the left. */
  predicate Contains(text: string, phrase: string)
    decreases |text|
  {
    StartsWith(text, phrase) || (text != [] && Contains(text[1..], phrase))
  }

  /** The search finds `phrase` exactly when it occurs somewhere in `text`. */
  lemma {:induction false} ContainsMeansMentions(text: string, phrase: string)
    ensures Contains(text, phrase) <==> Mentions(text, phrase)
    decreases |text|
  {
    if StartsWith(text, phrase) {
      assert OccursAt(text, phrase, 0);
    } else if text == [] {
      assert |phrase| > 0;
    } else {
      ContainsMeansMentions(text[1..], phrase);
      if Mentions(text, phrase) {
        var i :| OccursAt(text, phrase, i);
        assert i != 0;
        OccursShifted(text, phrase, i - 1);
      }
      if Mentions(text[1..], phrase) {
        var j :| OccursAt(text[1..], phrase, j);
        OccursShifted(text, phrase, j);
      }
    }
  }

  /** Dropping the first character moves every occurrence one place to the left. */
  lemma OccursShifted(text: string, phrase: string, j: nat)
    requires text != []
    ensures OccursAt(text[1..], phrase, j) <==> OccursAt(text, phrase, j + 1)
  {
    if j + 1 + |phrase| <= |text| {
      var a, b := text[1..][j..j + |phrase|], text[j + 1..j + 1 + |phrase|];
      forall k | 0 <= k < |phrase|
        ensures a[k] == b[k]
      {
        assert a[k] == text[1..][j + k] == text[j + 1 + k];
      }
      assert a == b;
    }
  }

  /** An occurrence of `inner` inside an occurrence of `outer` is an occurrence in `text`. */
  lemma OccursWithin(text: string, outer: string, inner: string, i: int, j: int)
    requires OccursAt(text, outer, i)
    requires OccursAt(outer, inner, j)
    ensures OccursAt(text, inner, i + j)
  {
    assert text[i..i + |outer|] == outer;
    forall k | 0 <= k < |inner|
      ensures text[i + j + k] == inner[k]
    {
      assert inner[k] == outer[j + k] == text[i..i + |outer|][j + k];
    }
    assert text[i + j..i + j + |inner|] == inner;
  }

  /** A phrase placed between any two strings occurs in the result. */
  lemma MentionsInfix(prefix: string, phrase: string, suffix: string)
    ensures OccursAt(prefix + phrase + suffix, phrase, |prefix|)
    ensures Mentions(prefix + phrase + suffix, phrase)
  {
    var t := prefix + phrase + suffix;
    assert t[|prefix|..|prefix| + |phrase|] == phrase;
    assert OccursAt(t, phrase, |prefix|);
  }

  /** ASCII lower-casing of one character. */
  function LowerChar(c: char): char {
    if 'A' <= c <= 'Z' then (c as int + 32) as char else c
  }

  /** Lower-cases `s` character by character. */
  function Lower(s: string): (r: string)
    ensures |r| == |s|
    ensures forall i :: 0 <= i < |s| ==> r[i] == LowerChar(s[i])
  {
    if s == [] then [] else [LowerChar(s[0])] + Lower(s[1..])
  }

  /** `s` has no upper-case ASCII letter. */
  predicate IsLower(s: string) {
    forall i :: 0 <= i < |s| ==> !('A' <= s[i] <= 'Z')
  }

  /** Lower-casing leaves lower-case text alone. */
  lemma LowerKeepsLowerCase(s: string)
    requires IsLower(s)
    ensures Lower(s) == s
  {
  }

  /** A phrase holding a character the text lacks does not occur in the text. */
  lemma MissingCharRulesOut(text: string, phrase: string, c: char)
    requires c in phrase && c !in text
    ensures !Mentions(text, phrase)
  {
  }

  /** Lower-casing twice is lower-casing once. */
  lemma LowerIdempotent(s: string)
    ensures Lower(Lower(s)) == Lower(s)
  {
  }

  /** Lower-casing distributes over concatenation. */
  lemma LowerConcat(a: string, b: string)
    ensures Lower(a + b) == Lower(a) + Lower(b)
  {
  }

  /** Position of the first `c` in `s`, or `|s|` when `s` has none. */
  function IndexOf(s: string, c: char): (k: nat)
    ensures k <= |s|
    ensures forall j :: 0 <= j < k ==> s[j] != c
    ensures k < |s| ==> s[k] == c
    decreases |s|
  {
    if s == [] || s[0] == c then 0 else 1 + IndexOf(s[1..], c)
  }

  /**
   * The lines of a text file as Python's `for line in f` yields them, each with
   * its terminating newline removed; a last line without newline still counts.
   */
  function SplitLines(s: string): (lines: seq<string>)
    ensures forall k :: 0 <= k < |lines| ==> '\n' !in lines[k]
    decreases |s|
  {
    if s == [] then []
    else
      var k := IndexOf(s, '\n');
      if k == |s| then [s] else [s[..k]] + SplitLines(s[k + 1..])
  }

  /** Writes each line followed by a newline. */
  function JoinLines(lines: seq<string>): string {
    if lines == [] then "" else lines[0] + "\n" + JoinLines(lines[1..])
  }

  /** Writing one more line appends it and its newline to the text. */
  lemma {:induction false} JoinLinesAppend(lines: seq<string>, line: string)
    ensures JoinLines(lines + [line]) == JoinLines(lines) + line + "\n"
  {
    if lines == [] {
      assert [line][1..] == [];
    } else {
      assert (lines + [line])[1..] == lines[1..] + [line];
      JoinLinesAppend(lines[1..], line);
    }
  }

  /** Splitting written lines gives back the lines, provided none holds a newline. */
  lemma {:induction false} SplitJoin(lines: seq<string>)
    requires forall k :: 0 <= k < |lines| ==> '\n' !in lines[k]
    ensures SplitLines(JoinLines(lines)) == lines
  {
    if lines != [] {
      var s := JoinLines(lines);
      var rest := JoinLines(lines[1..]);
      assert s == lines[0] + "\n" + rest;
      FirstLineEnds(lines[0], rest);
      SplitJoin(lines[1..]);
    }
  }

  /** The first line of a text ends at the newline written after it. */
  lemma FirstLineEnds(line: string, rest: string)
    requires '\n' !in line
    ensures var s := line + "\n" + rest;
            IndexOf(s, '\n') == |line| && s[..|line|] == line && s[|line| + 1..] == rest
  {
    var s := line + "\n" + rest;
    assert forall j :: 0 <= j < |line| ==> s[j] == line[j];
    assert s[|line|] == '\n';
    assert s[..|line|] == line;
    assert s[|line| + 1..] == rest;
  }

  /** Joining the lines of `s` restores `s`, up to a missing final newline. */
  lemma {:induction false} JoinSplit(s: string)
    ensures JoinLines(SplitLines(s)) == s || JoinLines(SplitLines(s)) == s + "\n"
    decreases |s|
  {
    if s != [] {
      var k := IndexOf(s, '\n');
      if k < |s| {
        var first, rest := s[..k], s[k + 1..];
        JoinSplit(rest);
        JoinFirstLine(s, k);
        CutAtNewline(s, k);
        var j := JoinLines(SplitLines(rest));
        if j != rest {
          assert first + "\n" + (rest + "\n") == (first + "\n" + rest) + "\n";
        }
      } else {
        assert [s][1..] == [];
      }
    }
  }

  /** A text whose first newline is at `k` joins back as its first line, a newline and the rest. */
  lemma JoinFirstLine(s: string, k: nat)
    requires s != [] && k == IndexOf(s, '\n') && k < |s|
    ensures JoinLines(SplitLines(s)) == s[..k] + "\n" + JoinLines(SplitLines(s[k + 1..]))
  {
    var tail := SplitLines(s[k + 1..]);
    assert SplitLines(s) == [s[..k]] + tail;
    assert ([s[..k]] + tail)[1..] == tail;
  }

  /** A text is its part before a newline, the newline and its part after. */
  lemma CutAtNewline(s: string, k: nat)
    requires k < |s| && s[k] == '\n'
    ensures s == s[..k] + "\n" + s[k + 1..]
  {
    var t := s[..k] + "\n" + s[k + 1..];
    assert |t| == |s|;
    forall i | 0 <= i < |s|
      ensures t[i] == s[i]
    {
      if i < k {
        assert t[i] == s[..k][i];
      } else if i > k {
        assert t[i] == s[k + 1..][i - k - 1];
      }
    }
  }
}

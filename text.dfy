/** The JavaScript string primitives the search code relies on:
    `indexOf` with a start position, `includes`, `split('\n')` and `endsWith`,
    on strings as sequences of characters. */
module Text {

  /** `pat` occurs in `s` starting at offset `k`. */
  predicate OccursAt(s: string, pat: string, k: int)
  {
    0 <= k && k + |pat| <= |s| && s[k..k + |pat|] == pat
  }

  /** The first offset at or after `k` where `pat` occurs in `s`, or -1. */
  function FirstFrom(s: string, pat: string, k: nat): (r: int)
    requires k <= |s|
    decreases |s| - k
    ensures r == -1 || (k <= r <= |s| && OccursAt(s, pat, r))
    ensures r == -1 ==> forall j :: k <= j <= |s| ==> !OccursAt(s, pat, j)
    ensures r != -1 ==> forall j :: k <= j < r ==> !OccursAt(s, pat, j)
  {
    if k + |pat| > |s| then -1
    else if OccursAt(s, pat, k) then k
    else FirstFrom(s, pat, k + 1)
  }

  /** The start position of `indexOf`, clamped to the range 0..|s|. */
  function Clamp(s: string, position: int): nat
  {
    if position < 0 then 0 else if position > |s| then |s| else position
  }

  /** `String.prototype.indexOf(pat, position)`: the first occurrence at or
      after the clamped start position, or -1 when there is none. */
  function IndexOf(s: string, pat: string, position: int): (r: int)
    ensures r == -1 || (0 <= r <= |s| && OccursAt(s, pat, r))
    ensures r == -1 <==> forall j :: Clamp(s, position) <= j <= |s| ==> !OccursAt(s, pat, j)
    ensures r != -1 ==> Clamp(s, position) <= r && forall j :: Clamp(s, position) <= j < r ==> !OccursAt(s, pat, j)
  {
    FirstFrom(s, pat, Clamp(s, position))
  }

  /** With an empty pattern `indexOf` never returns -1: it returns the
      clamped start position itself. A loop that stops on -1 therefore never
      stops for an empty search text. */
  lemma EmptyPatternAlwaysFound(s: string, position: int)
    ensures IndexOf(s, "", position) == Clamp(s, position)
  {
  }

  /** `String.prototype.includes(t)`. */
  predicate Contains(s: string, t: string)
  {
    exists k | 0 <= k <= |s| - |t| :: OccursAt(s, t, k)
  }

  /** `includes` agrees with `indexOf(t) !== -1`. */
  lemma ContainsIffIndexOf(s: string, t: string)
    ensures Contains(s, t) <==> IndexOf(s, t, 0) != -1
  {
    if Contains(s, t) {
      var k :| 0 <= k <= |s| - |t| && OccursAt(s, t, k);
    }
    if IndexOf(s, t, 0) != -1 {
      var k := IndexOf(s, t, 0);
      assert OccursAt(s, t, k);
    }
  }

  /** Containment is transitive: if `a` contains `t` and `b` contains `a`,
      then `b` contains `t`. */
  lemma ContainsTransitive(b: string, a: string, t: string)
    requires Contains(a, t) && Contains(b, a)
    ensures Contains(b, t)
  {
    var i :| 0 <= i <= |b| - |a| && OccursAt(b, a, i);
    var j :| 0 <= j <= |a| - |t| && OccursAt(a, t, j);
    forall m | 0 <= m < |t| ensures b[i + j + m] == t[m] {
      assert b[i..i + |a|][j + m] == a[j + m];
      assert a[j..j + |t|][m] == t[m];
    }
    assert b[i + j..i + j + |t|] == t;
    assert OccursAt(b, t, i + j);
  }

  /** `String.prototype.endsWith(suffix)`. */
  predicate EndsWith(s: string, suffix: string)
  {
    |suffix| <= |s| && s[|s| - |suffix|..] == suffix
  }

  /** `content.split('\n')`: the pieces between newline characters, always
      at least one; no other character (a carriage return included) is
      treated specially. */
  function SplitLines(s: string): (r: seq<string>)
    ensures |r| >= 1
  {
    if s == [] then [""]
    else
      var rest := SplitLines(s[1..]);
      if s[0] == '\n' then [""] + rest
      else [[s[0]] + rest[0]] + rest[1..]
  }

  /** The inverse of `SplitLines`: the lines glued with newlines. */
  function JoinLines(lines: seq<string>): string
    requires |lines| >= 1
  {
    if |lines| == 1 then lines[0] else lines[0] + "\n" + JoinLines(lines[1..])
  }

  /** Number of occurrences of character `c` in `s`. */
  function CountChar(s: string, c: char): nat
  {
    if s == [] then 0 else (if s[0] == c then 1 else 0) + CountChar(s[1..], c)
  }

  /** There is one line more than there are newline characters. */
  lemma {:induction false} SplitLinesCount(s: string)
    ensures |SplitLines(s)| == CountChar(s, '\n') + 1
  {
    if s != [] {
      SplitLinesCount(s[1..]);
    }
  }

  /** No line contains a newline character. */
  lemma {:induction false} SplitLinesHaveNoNewline(s: string)
    ensures forall i :: 0 <= i < |SplitLines(s)| ==> '\n' !in SplitLines(s)[i]
  {
    if s != [] {
      SplitLinesHaveNoNewline(s[1..]);
    }
  }

  /** Splitting loses no character: the lines glued with newlines give the
      content back, carriage returns and all. */
  lemma {:induction false} JoinSplitLines(s: string)
    ensures JoinLines(SplitLines(s)) == s
  {
    if s != [] {
      var rest := SplitLines(s[1..]);
      JoinSplitLines(s[1..]);
      if s[0] != '\n' {
        var r := SplitLines(s);
        assert r[1..] == rest[1..];
        if |rest| > 1 {
          assert JoinLines(r) == [s[0]] + rest[0] + "\n" + JoinLines(rest[1..]);
          assert JoinLines(rest) == rest[0] + "\n" + JoinLines(rest[1..]);
        }
      } else {
        assert SplitLines(s)[1..] == rest;
      }
    }
  }

  /** Splitting a glued sequence of newline-free lines gives those lines
      back. */
  lemma {:induction false} SplitJoinLines(lines: seq<string>)
    requires |lines| >= 1
    requires forall i :: 0 <= i < |lines| ==> '\n' !in lines[i]
    ensures SplitLines(JoinLines(lines)) == lines
  {
    if |lines| == 1 {
      SplitNoNewline(lines[0]);
    } else {
      SplitJoinLines(lines[1..]);
      SplitPrefix(lines[0], JoinLines(lines[1..]));
    }
  }

  /** A newline-free string is a single line. */
  lemma {:induction false} SplitNoNewline(s: string)
    requires '\n' !in s
    ensures SplitLines(s) == [s]
  {
    if s != [] {
      assert '\n' !in s[1..] by {
        forall i | 0 <= i < |s[1..]| ensures s[1..][i] != '\n' { assert s[1..][i] == s[i + 1]; }
      }
      SplitNoNewline(s[1..]);
      assert [s[0]] + s[1..] == s;
    }
  }

  /** Splitting `w + "\n" + rest` for a newline-free `w` puts `w` first. */
  lemma {:induction false} SplitPrefix(w: string, rest: string)
    requires '\n' !in w
    ensures SplitLines(w + "\n" + rest) == [w] + SplitLines(rest)
  {
    if w == [] {
      assert w + "\n" + rest == ['\n'] + rest;
      assert (['\n'] + rest)[1..] == rest;
    } else {
      var s := w + "\n" + rest;
      assert s[0] == w[0];
      assert s[1..] == w[1..] + "\n" + rest;
      assert '\n' !in w[1..] by {
        forall i | 0 <= i < |w[1..]| ensures w[1..][i] != '\n' { assert w[1..][i] == w[i + 1]; }
      }
      SplitPrefix(w[1..], rest);
      assert [w[0]] + w[1..] == w;
    }
  }

  /** A carriage return before the newline stays part of the line. */
  lemma CarriageReturnStaysInLine()
    ensures SplitLines("ab\r\ncd") == ["ab\r", "cd"]
  {
    assert "ab\r\ncd" == "ab\r" + "\n" + "cd";
    SplitPrefix("ab\r", "cd");
    SplitNoNewline("cd");
  }
}

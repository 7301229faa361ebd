/** The plain substring scanner `searchDirectory` of server.js: a recursive
    walk from the root that splits every regular file on newlines and
    records every offset at which the search text starts, overlapping
    occurrences included, with 1-based line and column. */
module PlainSearch {
  import opened Text
  import opened Sequences
  import opened FileSystem

  /** One hit: `{file, line, column}`, both numbers 1-based. */
  datatype TextMatch = TextMatch(file: string, line: nat, column: nat)

  // ----- Specification -----

  /** The offsets `c >= k` at which `pat` occurs in `line`, increasing. */
  function OccurrencesFrom(line: string, pat: string, k: nat): seq<nat>
    decreases |line| + 1 - k
  {
    if k > |line| then []
    else (if OccursAt(line, pat, k) then [k] else []) + OccurrencesFrom(line, pat, k + 1)
  }

  /** Every offset at which `pat` occurs in `line`, in increasing order. */
  function Occurrences(line: string, pat: string): seq<nat>
  {
    OccurrencesFrom(line, pat, 0)
  }

  /** The records for the offsets `cols` of line number `lineNo`. */
  function Records(file: string, lineNo: nat, cols: seq<nat>): seq<TextMatch>
  {
    if cols == [] then []
    else Records(file, lineNo, cols[..|cols| - 1]) + [TextMatch(file, lineNo, cols[|cols| - 1] + 1)]
  }

  /** The record at position `i` reports offset `cols[i]` as column `cols[i] + 1`. */
  lemma {:induction false} RecordsAt(file: string, lineNo: nat, cols: seq<nat>)
    ensures |Records(file, lineNo, cols)| == |cols|
    ensures forall i :: 0 <= i < |cols| ==> Records(file, lineNo, cols)[i] == TextMatch(file, lineNo, cols[i] + 1)
  {
    if cols != [] {
      RecordsAt(file, lineNo, cols[..|cols| - 1]);
    }
  }

  /** The records for the line with 0-based index `lineIndex`. */
  function LineMatches(file: string, lineIndex: nat, line: string, pat: string): seq<TextMatch>
  {
    Records(file, lineIndex + 1, Occurrences(line, pat))
  }

  /** The records for a sequence of lines, line after line. */
  function LinesMatches(file: string, lines: seq<string>, pat: string): seq<TextMatch>
  {
    if lines == [] then []
    else LinesMatches(file, lines[..|lines| - 1], pat) + LineMatches(file, |lines| - 1, lines[|lines| - 1], pat)
  }

  /** The records for one file's text, split on newlines. */
  function FileMatches(file: string, content: string, pat: string): seq<TextMatch>
  {
    LinesMatches(file, SplitLines(content), pat)
  }

  /** The records for a sequence of files, file after file. */
  function MatchesIn(files: seq<FileAt>, pat: string): seq<TextMatch>
  {
    if files == [] then []
    else MatchesIn(files[..|files| - 1], pat) + FileMatches(files[|files| - 1].path, files[|files| - 1].content, pat)
  }

  /** `a` comes before `b`: on an earlier line, or on the same line at an
      earlier column. */
  predicate Before(a: TextMatch, b: TextMatch)
  {
    a.line < b.line || (a.line == b.line && a.column < b.column)
  }

  /** Every record comes strictly `Before` each later one. */
  predicate Ordered(ms: seq<TextMatch>)
  {
    forall i, j :: 0 <= i < j < |ms| ==> Before(ms[i], ms[j])
  }

  // ----- The scanner -----

  /** The `while` loop on one line: `indexOf` from 0, then from one past
      each hit, until -1. */
  method ScanLine(file: string, line: string, lineIndex: nat, searchText: string, matches: seq<TextMatch>)
    returns (result: seq<TextMatch>)
    requires |searchText| > 0
    ensures result == matches + LineMatches(file, lineIndex, line, searchText)
  {
    result := matches;
    ghost var done: seq<nat> := [];
    var column := IndexOf(line, searchText, 0);
    ScanStart(line, searchText);
    while column != -1
      invariant column == -1 || 0 <= column < |line|
      invariant result == matches + Records(file, lineIndex + 1, done)
      invariant Occurrences(line, searchText) ==
        done + (if column == -1 then [] else [column] + OccurrencesFrom(line, searchText, column + 1))
      decreases if column == -1 then 0 else |line| - column
    {
      ScanStep(line, searchText, column);
      AppendAssoc(done, [column], OccurrencesFrom(line, searchText, column + 1));
      RecordsSnoc(file, lineIndex + 1, done, column);
      AppendAssoc(matches, Records(file, lineIndex + 1, done), [TextMatch(file, lineIndex + 1, column + 1)]);
      result := result + [TextMatch(file, lineIndex + 1, column + 1)];
      done := done + [column];
      column := IndexOf(line, searchText, column + 1);
    }
    assert done + [] == done;
  }

  /** Before the line loop: the first `indexOf` heads the list of all
      occurrences. */
  lemma ScanStart(line: string, pat: string)
    requires |pat| > 0
    ensures var first := IndexOf(line, pat, 0);
      (first == -1 || 0 <= first < |line|) &&
      Occurrences(line, pat) == [] + (if first == -1 then [] else [first] + OccurrencesFrom(line, pat, first + 1))
  {
    var first := IndexOf(line, pat, 0);
    assert first == FirstFrom(line, pat, 0);
    OccurrencesFromFirst(line, pat, 0);
    var r := if first == -1 then [] else [first] + OccurrencesFrom(line, pat, first + 1);
    assert [] + r == r;
  }

  /** What one iteration of the line loop relies on: the next `indexOf`
      lies further right and heads the occurrences after the current one. */
  lemma ScanStep(line: string, pat: string, column: nat)
    requires |pat| > 0 && column < |line|
    ensures var next := IndexOf(line, pat, column + 1);
      (next == -1 || column < next < |line|) &&
      OccurrencesFrom(line, pat, column + 1) ==
        (if next == -1 then [] else [next] + OccurrencesFrom(line, pat, next + 1))
  {
    assert Clamp(line, column + 1) == column + 1;
    var next := FirstFrom(line, pat, column + 1);
    assert IndexOf(line, pat, column + 1) == next;
    assert next == -1 || (column < next && next + |pat| <= |line|);
    OccurrencesFromFirst(line, pat, column + 1);
  }

  /** One more offset appends one more record. */
  lemma RecordsSnoc(file: string, lineNo: nat, cols: seq<nat>, c: nat)
    ensures Records(file, lineNo, cols + [c]) == Records(file, lineNo, cols) + [TextMatch(file, lineNo, c + 1)]
  {
    assert (cols + [c])[..|cols|] == cols;
  }

  /** A regular file's branch of `searchFile`: split on newlines and scan
      each line with its index. */
  method ScanContent(file: string, content: string, searchText: string, matches: seq<TextMatch>)
    returns (result: seq<TextMatch>)
    requires |searchText| > 0
    ensures result == matches + FileMatches(file, content, searchText)
  {
    var lines := SplitLines(content);
    result := matches;
    for i := 0 to |lines|
      invariant result == matches + LinesMatches(file, lines[..i], searchText)
    {
      result := ScanLine(file, lines[i], i, searchText, result);
      assert lines[..i + 1][..i] == lines[..i];
    }
    assert lines[..|lines|] == lines;
  }

  /** `searchFile(filePath)`: a directory is walked entry by entry in
      listing order, a regular file is scanned, anything else is skipped.
      `statSync` follows links. */
  method SearchFile(filePath: string, e: Entry, searchText: string, matches: seq<TextMatch>)
    returns (result: seq<TextMatch>)
    requires |searchText| > 0
    ensures result == matches + MatchesIn(Files(e, filePath), searchText)
    decreases e
  {
    match e
    case Dir(_, es) =>
      result := SearchEntries(filePath, es, searchText, matches);
    case File(_, content) =>
      result := ScanContent(filePath, content, searchText, matches);
      MatchesInSingle(FileAt(filePath, content), searchText);
    case Link(_, target) =>
      result := SearchFile(filePath, target, searchText, matches);
    case Other(_) =>
      result := matches;
  }

  /** The records of a single file are that file's records. */
  lemma MatchesInSingle(f: FileAt, pat: string)
    ensures MatchesIn([f], pat) == FileMatches(f.path, f.content, pat)
  {
    assert [f][..0] == [];
  }

  /** The `forEach` over a directory listing: `searchFile` on
      `path.join(filePath, file)` for each entry in order. */
  method SearchEntries(filePath: string, es: seq<Entry>, searchText: string, matches: seq<TextMatch>)
    returns (result: seq<TextMatch>)
    requires |searchText| > 0
    ensures result == matches + MatchesIn(FilesOf(es, filePath), searchText)
    decreases es
  {
    result := matches;
    for i := 0 to |es|
      invariant result == matches + MatchesIn(FilesOf(es[..i], filePath), searchText)
    {
      assert es[i] in es;
      var childPath := JoinPath(filePath, es[i].name);
      result := SearchFile(childPath, es[i], searchText, result);
      EntriesStep(filePath, es, i, searchText, matches);
    }
    assert es[..|es|] == es;
  }

  /** One entry more of the listing appends that entry's records. */
  lemma EntriesStep(filePath: string, es: seq<Entry>, i: nat, pat: string, acc: seq<TextMatch>)
    requires i < |es|
    ensures acc + MatchesIn(FilesOf(es[..i], filePath), pat) + MatchesIn(Files(es[i], JoinPath(filePath, es[i].name)), pat) ==
      acc + MatchesIn(FilesOf(es[..i + 1], filePath), pat)
  {
    var childPath := JoinPath(filePath, es[i].name);
    assert es[..i + 1][..i] == es[..i];
    assert FilesOf(es[..i + 1], filePath) == FilesOf(es[..i], filePath) + Files(es[i], childPath);
    MatchesInAppend(FilesOf(es[..i], filePath), Files(es[i], childPath), pat);
    AppendAssoc(acc, MatchesIn(FilesOf(es[..i], filePath), pat), MatchesIn(Files(es[i], childPath), pat));
  }

  /** `searchDirectory(dir, searchText)`: the walk from the root, which is
      reached under the path `dir` itself. An empty search text is excluded:
      `indexOf` never returns -1 for it (`Text.EmptyPatternAlwaysFound`), so
      the line loop would not end. */
  method SearchDirectory(dir: string, root: Entry, searchText: string) returns (matches: seq<TextMatch>)
    requires |searchText| > 0
    ensures matches == MatchesIn(Files(root, dir), searchText)
  {
    matches := SearchFile(dir, root, searchText, []);
  }

  // ----- Lemmas -----

  /** The offsets listed from `k` are exactly the occurrences at or after
      `k`, strictly increasing. */
  lemma OccurrencesFromSpec(line: string, pat: string, k: nat)
    ensures forall c :: c in OccurrencesFrom(line, pat, k) <==> k <= c && OccursAt(line, pat, c)
    ensures forall i, j :: 0 <= i < j < |OccurrencesFrom(line, pat, k)| ==>
      OccurrencesFrom(line, pat, k)[i] < OccurrencesFrom(line, pat, k)[j]
  {
    OccurrencesFromMembers(line, pat, k);
    OccurrencesFromIncreasing(line, pat, k);
  }

  lemma {:induction false} OccurrencesFromMembers(line: string, pat: string, k: nat)
    ensures forall c :: c in OccurrencesFrom(line, pat, k) <==> k <= c && OccursAt(line, pat, c)
    decreases |line| + 1 - k
  {
    if k <= |line| {
      OccurrencesFromMembers(line, pat, k + 1);
    }
  }

  lemma {:induction false} OccurrencesFromIncreasing(line: string, pat: string, k: nat)
    ensures forall i, j :: 0 <= i < j < |OccurrencesFrom(line, pat, k)| ==>
      OccurrencesFrom(line, pat, k)[i] < OccurrencesFrom(line, pat, k)[j]
    decreases |line| + 1 - k
  {
    if k <= |line| {
      OccurrencesFromIncreasing(line, pat, k + 1);
      OccurrencesFromMembers(line, pat, k + 1);
      var rest := OccurrencesFrom(line, pat, k + 1);
      var r := OccurrencesFrom(line, pat, k);
      forall i, j | 0 <= i < j < |r| ensures r[i] < r[j] {
        if OccursAt(line, pat, k) {
          assert r[j] == rest[j - 1];
          if i > 0 { assert r[i] == rest[i - 1]; } else { assert rest[j - 1] in rest; }
        }
      }
    }
  }

  /** One step of the `indexOf` loop: from `k`, the listed offsets are the
      one `indexOf` finds followed by those from one past it, or none. */
  lemma {:induction false} OccurrencesFromFirst(line: string, pat: string, k: nat)
    requires k <= |line|
    ensures var c := FirstFrom(line, pat, k);
      if c == -1 then OccurrencesFrom(line, pat, k) == []
      else OccurrencesFrom(line, pat, k) == [c] + OccurrencesFrom(line, pat, c + 1)
    decreases |line| - k
  {
    if k + |pat| > |line| {
      NoOccurrencesNearEnd(line, pat, k);
    } else if !OccursAt(line, pat, k) {
      OccurrencesFromFirst(line, pat, k + 1);
      assert OccurrencesFrom(line, pat, k) == [] + OccurrencesFrom(line, pat, k + 1);
    }
  }

  /** Nothing is listed from an offset too close to the end for the
      pattern to fit. */
  lemma {:induction false} NoOccurrencesNearEnd(line: string, pat: string, k: nat)
    requires k + |pat| > |line|
    ensures OccurrencesFrom(line, pat, k) == []
    decreases |line| + 1 - k
  {
    if k <= |line| {
      NoOccurrencesNearEnd(line, pat, k + 1);
      assert !OccursAt(line, pat, k);
    }
  }

  /** Overlapping occurrences are all reported: "aa" in "aaa" is found at
      columns 1 and 2. */
  lemma OverlappingOccurrences()
    ensures LineMatches("f", 0, "aaa", "aa") == [TextMatch("f", 1, 1), TextMatch("f", 1, 2)]
  {
    assert OccursAt("aaa", "aa", 0) && OccursAt("aaa", "aa", 1) && !OccursAt("aaa", "aa", 2);
    assert Occurrences("aaa", "aa") == [0, 1];
    assert [0, 1][..1] == [0] && [0][..0] == [];
    assert Records("f", 1, [0, 1]) == Records("f", 1, [0]) + [TextMatch("f", 1, 2)];
    assert Records("f", 1, [0]) == Records("f", 1, []) + [TextMatch("f", 1, 1)];
  }

  /** Soundness and exhaustiveness for one file: a record is produced if and
      only if the search text occurs at its 0-based offset `column - 1` in the
      line with 0-based index `line - 1`. */
  lemma LinesMatchesExactly(file: string, lines: seq<string>, pat: string, m: TextMatch)
    ensures m in LinesMatches(file, lines, pat) <==>
      m.file == file && 1 <= m.line <= |lines| && 1 <= m.column &&
      OccursAt(lines[m.line - 1], pat, m.column - 1)
  {
    if m in LinesMatches(file, lines, pat) {
      LinesMatchesSound(file, lines, pat, m);
    }
    if m.file == file && 1 <= m.line <= |lines| && 1 <= m.column && OccursAt(lines[m.line - 1], pat, m.column - 1) {
      LinesMatchesComplete(file, lines, pat, m);
    }
  }

  /** Each record reports an occurrence at its coordinates. */
  lemma {:induction false} LinesMatchesSound(file: string, lines: seq<string>, pat: string, m: TextMatch)
    requires m in LinesMatches(file, lines, pat)
    ensures m.file == file && 1 <= m.line <= |lines| && 1 <= m.column &&
      OccursAt(lines[m.line - 1], pat, m.column - 1)
  {
    var n := |lines|;
    var init, line := lines[..n - 1], lines[n - 1];
    var first, last := LinesMatches(file, init, pat), LineMatches(file, n - 1, line, pat);
    assert LinesMatches(file, lines, pat) == first + last;
    if m in first {
      LinesMatchesSound(file, init, pat, m);
      assert init[m.line - 1] == lines[m.line - 1];
    } else {
      LineMatchesSound(file, n - 1, line, pat, m);
    }
  }

  /** Each occurrence is reported by a record at its coordinates. */
  lemma {:induction false} LinesMatchesComplete(file: string, lines: seq<string>, pat: string, m: TextMatch)
    requires m.file == file && 1 <= m.line <= |lines| && 1 <= m.column
    requires OccursAt(lines[m.line - 1], pat, m.column - 1)
    ensures m in LinesMatches(file, lines, pat)
  {
    var n := |lines|;
    var init, line := lines[..n - 1], lines[n - 1];
    var first, last := LinesMatches(file, init, pat), LineMatches(file, n - 1, line, pat);
    assert LinesMatches(file, lines, pat) == first + last;
    if m.line < n {
      assert init[m.line - 1] == lines[m.line - 1];
      LinesMatchesComplete(file, init, pat, m);
    } else {
      LineMatchesComplete(file, n - 1, line, pat, m.column - 1);
    }
  }

  /** A record of one line reports an occurrence in it. */
  lemma LineMatchesSound(file: string, lineIndex: nat, line: string, pat: string, m: TextMatch)
    requires m in LineMatches(file, lineIndex, line, pat)
    ensures m.file == file && m.line == lineIndex + 1 && 1 <= m.column && OccursAt(line, pat, m.column - 1)
  {
    var occ := Occurrences(line, pat);
    var last := LineMatches(file, lineIndex, line, pat);
    RecordsAt(file, lineIndex + 1, occ);
    var i :| 0 <= i < |last| && last[i] == m;
    OccurrencesFromMembers(line, pat, 0);
    assert occ[i] in occ;
  }

  /** An occurrence in one line is reported by a record of it. */
  lemma LineMatchesComplete(file: string, lineIndex: nat, line: string, pat: string, c: nat)
    requires OccursAt(line, pat, c)
    ensures TextMatch(file, lineIndex + 1, c + 1) in LineMatches(file, lineIndex, line, pat)
  {
    var occ := Occurrences(line, pat);
    OccurrencesFromMembers(line, pat, 0);
    assert c in occ;
    var i :| 0 <= i < |occ| && occ[i] == c;
    RecordsAt(file, lineIndex + 1, occ);
    assert LineMatches(file, lineIndex, line, pat)[i] == TextMatch(file, lineIndex + 1, c + 1);
  }

  /** Records come in increasing line order, and within a line in
      increasing column order; no record is repeated. */
  lemma {:induction false} LinesMatchesOrdered(file: string, lines: seq<string>, pat: string)
    ensures Ordered(LinesMatches(file, lines, pat))
  {
    if lines != [] {
      var n := |lines|;
      var init := lines[..n - 1];
      LinesMatchesOrdered(file, init, pat);
      var first, last := LinesMatches(file, init, pat), LineMatches(file, n - 1, lines[n - 1], pat);
      LineMatchesOrdered(file, n - 1, lines[n - 1], pat);
      LinesMatchesBelow(file, init, pat);
      OrderedAppend(first, last);
    }
  }

  /** The records of one line are ordered by column and carry its number. */
  lemma LineMatchesOrdered(file: string, lineIndex: nat, line: string, pat: string)
    ensures Ordered(LineMatches(file, lineIndex, line, pat))
    ensures forall i :: 0 <= i < |LineMatches(file, lineIndex, line, pat)| ==>
      LineMatches(file, lineIndex, line, pat)[i].line == lineIndex + 1
  {
    OccurrencesFromSpec(line, pat, 0);
    RecordsAt(file, lineIndex + 1, Occurrences(line, pat));
  }

  /** The records of `lines` lie on lines numbered at most `|lines|`. */
  lemma LinesMatchesBelow(file: string, lines: seq<string>, pat: string)
    ensures forall i :: 0 <= i < |LinesMatches(file, lines, pat)| ==> LinesMatches(file, lines, pat)[i].line <= |lines|
  {
    var ms := LinesMatches(file, lines, pat);
    forall i | 0 <= i < |ms| ensures ms[i].line <= |lines| {
      LinesMatchesSound(file, lines, pat, ms[i]);
    }
  }

  /** Two ordered runs, every record of the first before every record of
      the second, make an ordered run. */
  lemma OrderedAppend(a: seq<TextMatch>, b: seq<TextMatch>)
    requires Ordered(a) && Ordered(b)
    requires forall i, j :: 0 <= i < |a| && 0 <= j < |b| ==> a[i].line < b[j].line
    ensures Ordered(a + b)
  {
    forall i, j | 0 <= i < j < |a + b| ensures Before((a + b)[i], (a + b)[j]) {
      if j < |a| {
        assert (a + b)[i] == a[i] && (a + b)[j] == a[j];
      } else if i < |a| {
        assert (a + b)[i] == a[i] && (a + b)[j] == b[j - |a|];
      } else {
        assert (a + b)[i] == b[i - |a|] && (a + b)[j] == b[j - |a|];
      }
    }
  }

  /** Soundness and exhaustiveness for one file's text, with its lines
      obtained by splitting on newlines. */
  lemma FileMatchesExactly(file: string, content: string, pat: string, m: TextMatch)
    ensures m in FileMatches(file, content, pat) <==>
      m.file == file && 1 <= m.line <= |SplitLines(content)| && 1 <= m.column &&
      OccursAt(SplitLines(content)[m.line - 1], pat, m.column - 1)
  {
    LinesMatchesExactly(file, SplitLines(content), pat, m);
  }

  /** The records of a concatenation of file lists are the concatenation
      of their records. */
  lemma {:induction false} MatchesInAppend(a: seq<FileAt>, b: seq<FileAt>, pat: string)
    ensures MatchesIn(a + b, pat) == MatchesIn(a, pat) + MatchesIn(b, pat)
    decreases |b|
  {
    if b == [] {
      assert a + b == a;
    } else {
      var init, last := b[..|b| - 1], b[|b| - 1];
      assert (a + b)[..|a + b| - 1] == a + init;
      assert (a + b)[|a + b| - 1] == last;
      var own := FileMatches(last.path, last.content, pat);
      assert MatchesIn(a + b, pat) == MatchesIn(a + init, pat) + own;
      assert MatchesIn(b, pat) == MatchesIn(init, pat) + own;
      MatchesInAppend(a, init, pat);
      AppendAssoc(MatchesIn(a, pat), MatchesIn(init, pat), own);
    }
  }

  /** A record belongs to the walk's result if and only if it is a record
      of one of the walk's files. */
  lemma MatchesInExactly(files: seq<FileAt>, pat: string, m: TextMatch)
    ensures m in MatchesIn(files, pat) <==>
      exists k :: 0 <= k < |files| && m in FileMatches(files[k].path, files[k].content, pat)
  {
    if m in MatchesIn(files, pat) {
      var k := MatchesInFrom(files, pat, m);
    }
    if exists k :: 0 <= k < |files| && m in FileMatches(files[k].path, files[k].content, pat) {
      var k :| 0 <= k < |files| && m in FileMatches(files[k].path, files[k].content, pat);
      MatchesInHas(files, pat, k, m);
    }
  }

  /** The file a record of the walk's result comes from. */
  lemma {:induction false} MatchesInFrom(files: seq<FileAt>, pat: string, m: TextMatch) returns (k: nat)
    requires m in MatchesIn(files, pat)
    ensures k < |files| && m in FileMatches(files[k].path, files[k].content, pat)
  {
    var n := |files|;
    var init, last := files[..n - 1], files[n - 1];
    assert MatchesIn(files, pat) == MatchesIn(init, pat) + FileMatches(last.path, last.content, pat);
    if m in MatchesIn(init, pat) {
      k := MatchesInFrom(init, pat, m);
      assert init[k] == files[k];
    } else {
      k := n - 1;
    }
  }

  /** Every record of every file is in the walk's result. */
  lemma {:induction false} MatchesInHas(files: seq<FileAt>, pat: string, k: nat, m: TextMatch)
    requires k < |files| && m in FileMatches(files[k].path, files[k].content, pat)
    ensures m in MatchesIn(files, pat)
  {
    var n := |files|;
    var init, last := files[..n - 1], files[n - 1];
    assert MatchesIn(files, pat) == MatchesIn(init, pat) + FileMatches(last.path, last.content, pat);
    if k < n - 1 {
      assert init[k] == files[k];
      MatchesInHas(init, pat, k, m);
    }
  }

  /** Soundness and exhaustiveness of the whole walk: `searchDirectory`
      reports `{file, line, column}` if and only if `file` is the path of a
      regular file met by the walk whose line `line` holds the search text
      at column `column`. */
  lemma SearchDirectoryExactly(dir: string, root: Entry, pat: string, m: TextMatch)
    ensures m in MatchesIn(Files(root, dir), pat) <==>
      exists k :: 0 <= k < |Files(root, dir)| &&
        var f := Files(root, dir)[k];
        m.file == f.path && 1 <= m.line <= |SplitLines(f.content)| && 1 <= m.column &&
        OccursAt(SplitLines(f.content)[m.line - 1], pat, m.column - 1)
  {
    var files := Files(root, dir);
    MatchesInExactly(files, pat, m);
    forall k | 0 <= k < |files| {
      FileMatchesExactly(files[k].path, files[k].content, pat, m);
    }
  }
}

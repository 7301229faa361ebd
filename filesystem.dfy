/** An in-memory directory tree standing for what `fs.statSync`,
    `fs.lstatSync`, `fs.readdirSync` and `fs.readFileSync` report, and the
    order in which the recursive plain-text walk meets the regular files. */
module FileSystem {

  /** A directory entry. A directory lists its entries in `readdirSync`
      order; a symbolic link carries the entry it resolves to; anything that
      is neither a directory, a regular file nor a link is `Other`. */
  datatype Entry =
    | Dir(name: string, entries: seq<Entry>)
    | File(name: string, content: string)
    | Link(name: string, target: Entry)
    | Other(name: string)

  /** `path.join(dir, name)`, without normalisation. */
  function JoinPath(dir: string, name: string): string
  {
    dir + "/" + name
  }

  /** What `statSync` and `readdirSync` see at an entry: links followed to
      the entry they resolve to. */
  function Resolve(e: Entry): (r: Entry)
    ensures !r.Link?
  {
    match e
    case Link(_, target) => Resolve(target)
    case _ => e
  }

  /** A regular file met by the walk: the path it was reached under and its
      text. */
  datatype FileAt = FileAt(path: string, content: string)

  /** The regular files the recursive walk reaches from `e`, reached under
      `path`, in the order they are read. `statSync` follows links, so a link
      is walked as its target under the link's own path. */
  function Files(e: Entry, path: string): seq<FileAt>
    decreases e
  {
    match e
    case Dir(_, es) => FilesOf(es, path)
    case File(_, content) => [FileAt(path, content)]
    case Link(_, target) => Files(target, path)
    case Other(_) => []
  }

  /** The files under the directory entries `es` of directory `dir`, entry
      after entry. */
  function FilesOf(es: seq<Entry>, dir: string): seq<FileAt>
    decreases es
  {
    if es == [] then []
    else FilesOf(es[..|es| - 1], dir) + Files(es[|es| - 1], JoinPath(dir, es[|es| - 1].name))
  }

  // ----- Locations: an independent description of where the files are -----

  /** `loc` is a sequence of listing indices that leads from `e` through
      directories (and through links, transparently) to an entry. */
  predicate ValidLoc(e: Entry, loc: seq<nat>)
    decreases e
  {
    match e
    case Link(_, target) => ValidLoc(target, loc)
    case Dir(_, es) => loc == [] || (loc[0] < |es| && ValidLoc(es[loc[0]], loc[1..]))
    case _ => loc == []
  }

  /** The entry (links resolved) that `loc` leads to. */
  function EntryAt(e: Entry, loc: seq<nat>): Entry
    requires ValidLoc(e, loc)
    decreases e
  {
    match e
    case Link(_, target) => EntryAt(target, loc)
    case Dir(_, es) => if loc == [] then e else EntryAt(es[loc[0]], loc[1..])
    case _ => e
  }

  /** The path under which the walk reaches the entry at `loc`. */
  function PathAt(e: Entry, path: string, loc: seq<nat>): string
    requires ValidLoc(e, loc)
    decreases e
  {
    match e
    case Link(_, target) => PathAt(target, path, loc)
    case Dir(_, es) =>
      if loc == [] then path else PathAt(es[loc[0]], JoinPath(path, es[loc[0]].name), loc[1..])
    case _ => path
  }

  /** `loc` leads to a regular file. */
  predicate IsFileLoc(e: Entry, loc: seq<nat>)
  {
    ValidLoc(e, loc) && EntryAt(e, loc).File?
  }

  /** The file met at location `loc`. */
  function FileAtLoc(e: Entry, path: string, loc: seq<nat>): FileAt
    requires IsFileLoc(e, loc)
  {
    FileAt(PathAt(e, path, loc), EntryAt(e, loc).content)
  }

  /** Strict lexicographic order on locations that diverge (neither is a
      prefix of the other): the order of a depth-first, listing-order walk. */
  predicate LexLess(a: seq<nat>, b: seq<nat>)
  {
    |a| > 0 && |b| > 0 && (a[0] < b[0] || (a[0] == b[0] && LexLess(a[1..], b[1..])))
  }

  predicate StrictlySorted(locs: seq<seq<nat>>)
  {
    forall i, j :: 0 <= i < j < |locs| ==> LexLess(locs[i], locs[j])
  }

  /** The locations of the regular files under `e`, in walk order. */
  function FileLocs(e: Entry): seq<seq<nat>>
    decreases e
  {
    match e
    case Dir(_, es) => ChildLocs(es, |es|)
    case File(_, _) => [[]]
    case Link(_, target) => FileLocs(target)
    case Other(_) => []
  }

  /** The file locations under the first `n` entries of a directory. */
  function ChildLocs(es: seq<Entry>, n: nat): seq<seq<nat>>
    requires n <= |es|
    decreases es, n
  {
    if n == 0 then [] else ChildLocs(es, n - 1) + Prefixed(n - 1, FileLocs(es[n - 1]))
  }

  function Prefixed(i: nat, locs: seq<seq<nat>>): (r: seq<seq<nat>>)
    ensures |r| == |locs| && forall k :: 0 <= k < |locs| ==> r[k] == [i] + locs[k]
  {
    seq(|locs|, k requires 0 <= k < |locs| => [i] + locs[k])
  }

  /** Every location listed leads to a regular file. */
  lemma {:induction false} FileLocsSound(e: Entry)
    ensures forall k :: 0 <= k < |FileLocs(e)| ==> IsFileLoc(e, FileLocs(e)[k])
    decreases e
  {
    match e
    case Dir(_, es) =>
      ChildLocsSound(es, |es|);
      forall k | 0 <= k < |FileLocs(e)| ensures IsFileLoc(e, FileLocs(e)[k]) {
        var loc := FileLocs(e)[k];
        assert [loc[0]] + loc[1..] == loc;
      }
    case File(_, _) =>
    case Link(_, target) => FileLocsSound(target);
    case Other(_) =>
  }

  lemma {:induction false} ChildLocsSound(es: seq<Entry>, n: nat)
    requires n <= |es|
    ensures forall k :: 0 <= k < |ChildLocs(es, n)| ==>
      var loc := ChildLocs(es, n)[k];
      loc != [] && loc[0] < n && IsFileLoc(es[loc[0]], loc[1..])
    decreases es, n
  {
    if n > 0 {
      ChildLocsSound(es, n - 1);
      FileLocsSound(es[n - 1]);
      var first, last := ChildLocs(es, n - 1), Prefixed(n - 1, FileLocs(es[n - 1]));
      forall k | 0 <= k < |ChildLocs(es, n)|
        ensures var loc := ChildLocs(es, n)[k]; loc != [] && loc[0] < n && IsFileLoc(es[loc[0]], loc[1..])
      {
        if k >= |first| {
          var loc := last[k - |first|];
          assert loc[1..] == FileLocs(es[n - 1])[k - |first|];
        }
      }
    }
  }

  /** Every location that leads to a regular file is listed. */
  lemma {:induction false} FileLocsComplete(e: Entry, loc: seq<nat>)
    requires IsFileLoc(e, loc)
    ensures loc in FileLocs(e)
    decreases e
  {
    match e
    case Dir(_, es) =>
      FileLocsComplete(es[loc[0]], loc[1..]);
      ChildLocsContain(es, |es|, loc[0], loc[1..]);
      assert [loc[0]] + loc[1..] == loc;
    case File(_, _) =>
    case Link(_, target) => FileLocsComplete(target, loc);
    case Other(_) =>
  }

  lemma {:induction false} ChildLocsContain(es: seq<Entry>, n: nat, i: nat, loc: seq<nat>)
    requires i < n <= |es| && loc in FileLocs(es[i])
    ensures [i] + loc in ChildLocs(es, n)
  {
    if i < n - 1 {
      ChildLocsContain(es, n - 1, i, loc);
    } else {
      var k :| 0 <= k < |FileLocs(es[i])| && FileLocs(es[i])[k] == loc;
      assert Prefixed(i, FileLocs(es[i]))[k] == [i] + loc;
    }
  }

  /** The walk meets the file locations in strictly increasing
      lexicographic order, so each regular file is met exactly once, in
      listing order. */
  lemma {:induction false} FileLocsOrdered(e: Entry)
    ensures StrictlySorted(FileLocs(e))
    decreases e
  {
    match e
    case Dir(_, es) => ChildLocsOrdered(es, |es|);
    case File(_, _) =>
    case Link(_, target) => FileLocsOrdered(target);
    case Other(_) =>
  }

  lemma {:induction false} ChildLocsOrdered(es: seq<Entry>, n: nat)
    requires n <= |es|
    ensures StrictlySorted(ChildLocs(es, n))
    decreases es, n
  {
    if n > 0 {
      ChildLocsOrdered(es, n - 1);
      FileLocsOrdered(es[n - 1]);
      ChildLocsSound(es, n - 1);
      var first, inner := ChildLocs(es, n - 1), FileLocs(es[n - 1]);
      var last := Prefixed(n - 1, inner);
      var all := ChildLocs(es, n);
      assert all == first + last;
      forall i, j | 0 <= i < j < |all| ensures LexLess(all[i], all[j]) {
        if j < |first| {
          assert all[i] == first[i] && all[j] == first[j];
        } else if i < |first| {
          assert all[i] == first[i] && all[j] == last[j - |first|];
          assert first[i][0] < n - 1;
        } else {
          assert all[i] == [n - 1] + inner[i - |first|] && all[j] == [n - 1] + inner[j - |first|];
          assert LexLess(inner[i - |first|], inner[j - |first|]);
          assert all[i][1..] == inner[i - |first|] && all[j][1..] == inner[j - |first|];
        }
      }
    }
  }

  /** The walk's files are exactly the files at the listed locations, in
      that order. */
  lemma {:induction false} FilesAreFileLocs(e: Entry, path: string)
    ensures |Files(e, path)| == |FileLocs(e)|
    ensures forall k :: 0 <= k < |FileLocs(e)| ==>
      IsFileLoc(e, FileLocs(e)[k]) && Files(e, path)[k] == FileAtLoc(e, path, FileLocs(e)[k])
    decreases e
  {
    FileLocsSound(e);
    match e
    case Dir(_, es) =>
      ChildFilesAreFileLocs(e, path, |es|);
      assert es[..|es|] == es;
    case File(_, _) =>
    case Link(_, target) => FilesAreFileLocs(target, path);
    case Other(_) =>
  }

  lemma {:induction false} ChildFilesAreFileLocs(d: Entry, path: string, n: nat)
    requires d.Dir? && n <= |d.entries|
    ensures |FilesOf(d.entries[..n], path)| == |ChildLocs(d.entries, n)|
    ensures forall k :: 0 <= k < |ChildLocs(d.entries, n)| ==>
      IsFileLoc(d, ChildLocs(d.entries, n)[k]) &&
      FilesOf(d.entries[..n], path)[k] == FileAtLoc(d, path, ChildLocs(d.entries, n)[k])
    decreases d, n
  {
    var es := d.entries;
    if n > 0 {
      ChildFilesAreFileLocs(d, path, n - 1);
      var child := es[n - 1];
      var childPath := JoinPath(path, child.name);
      FilesAreFileLocs(child, childPath);
      assert es[..n][..n - 1] == es[..n - 1];
      var before, files := FilesOf(es[..n - 1], path), Files(child, childPath);
      assert FilesOf(es[..n], path) == before + files;
      var first, inner := ChildLocs(es, n - 1), FileLocs(child);
      assert ChildLocs(es, n) == first + Prefixed(n - 1, inner);
      forall k | |first| <= k < |ChildLocs(es, n)|
        ensures IsFileLoc(d, ChildLocs(es, n)[k])
        ensures FilesOf(es[..n], path)[k] == FileAtLoc(d, path, ChildLocs(es, n)[k])
      {
        var r := inner[k - |first|];
        assert ChildLocs(es, n)[k] == [n - 1] + r;
        assert (before + files)[k] == files[k - |first|];
        DirLoc(d, path, n - 1, r);
      }
    }
  }

  /** Stepping into entry `i` of a directory: the location gains `i` in
      front, and the path gains the entry's name. */
  lemma DirLoc(d: Entry, path: string, i: nat, loc: seq<nat>)
    requires d.Dir? && i < |d.entries| && IsFileLoc(d.entries[i], loc)
    ensures IsFileLoc(d, [i] + loc)
    ensures FileAtLoc(d, path, [i] + loc) == FileAtLoc(d.entries[i], JoinPath(path, d.entries[i].name), loc)
  {
    assert ([i] + loc)[0] == i && ([i] + loc)[1..] == loc;
  }
}

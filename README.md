# Code search core of server.js

server.js offers two searches over a directory of source files.

`searchDirectory` is the plain-text search. It walks the directory tree recursively, following symbolic links because it uses `statSync`, and splits every regular file on `'\n'`. Each line is scanned with `indexOf`, resuming one character after each hit. Every occurrence, overlapping ones included, is reported as `{file, line, column}` with 1-based line and column.

`searchInDirectory` is the structural search. It looks only at the top-level entries of a directory, and keeps those that `lstatSync` calls regular files and whose names end in `.js`. It parses each such file and walks the syntax tree in pre-order over named children (`traverseNode`). Every visited node whose text contains the target becomes a record of its text, type and start and end positions.

The Dafny model has five modules, one per concern of the code, and a small `Sequences` module of concatenation facts that the proofs share:

- `Text`: the JavaScript string primitives the code relies on. These are `indexOf` with a start position (clamped as the language defines it), `includes`, `split('\n')` and `endsWith`.
- `FileSystem`: the directory tree as a value (directories, regular files, symbolic links, other entries), `path.join`, and the order in which the recursive walk meets the regular files. That order is described twice: once by the walk itself (`Files`), and once independently by the listing-index locations of the files (`FileLocs`). Lemmas tie the two together.
- `PlainSearch`: `searchDirectory`, `searchFile` and the per-line scanning loop as methods with loops. Each method is proved equal to a specification function over the whole input. Lemmas then characterise that function exactly: which records it holds and in what order.
- `SyntaxTree`: the parse tree as a value. It defines the pre-order visit over named children and named paths from the root, and shows that the visit meets precisely the nodes at named paths, each once, ancestors first.
- `StructuralSearch`: `traverseNode`, `searchInFile` and `searchInDirectory` as methods proved equal to specification functions. Lemmas cover emission if and only if containment, visit order, containment closure and the top-level `.js` filter.

The parser, `readFileSync`, `readdirSync` and the `stat` calls are not executed. The directory tree is a parameter of type `Entry`, and the parser is a parameter `parse: string -> Node`.

## Model

| member | source | states |
|---|---|---|
| Text.FirstFrom | server.js:33-40 | the result is -1 exactly when no occurrence starts at or after the start offset; otherwise it is an occurrence and no earlier one exists from that offset |
| Text.IndexOf | server.js:33-40 | `indexOf` returns the first offset at or after the clamped start position where the search text occurs, and -1 exactly when there is none |
| Text.EmptyPatternAlwaysFound | server.js:33-40 | with an empty search text `indexOf` returns the clamped start position and never -1, so the scanning loop can never stop |
| Text.ContainsIffIndexOf | server.js:64 | `includes` holds exactly when `indexOf` from 0 is not -1 |
| Text.ContainsTransitive | server.js:64 | a text that contains a string containing the target also contains the target |
| Text.Contains | server.js:64 | `includes`: the search text occurs at some offset of the string |
| Text.EndsWith | server.js:93 | `endsWith`: the string's last characters are the suffix |
| Text.SplitLines | server.js:30 | `split('\n')`: the pieces between newline characters, always at least one |
| Text.SplitLinesCount | server.js:30 | `split('\n')` gives one line more than there are newline characters |
| Text.SplitLinesHaveNoNewline | server.js:30 | no line holds a newline character |
| Text.JoinSplitLines | server.js:30 | gluing the lines back with newlines gives the content back, so no character is lost |
| Text.SplitJoinLines | server.js:30 | splitting glued newline-free lines gives those lines back |
| Text.CarriageReturnStaysInLine | server.js:30 | a carriage return before the newline stays part of the line, so it counts in columns |
| FileSystem.Resolve | server.js:88 | following links always ends at an entry that is not a link, as `readdirSync` here and `statSync` at server.js:17 do |
| FileSystem.JoinPath | server.js:23 | `path.join` of a directory path and an entry name, also used at server.js:91 |
| FileSystem.Files | server.js:16-27 | the regular files `searchFile` reaches from one entry, depth first, each with the path the joins build |
| FileSystem.FilesOf | server.js:20-25 | the regular files reached from a listing, entry after entry, in listing order |
| FileSystem.FileLocsSound | server.js:16-27 | every location the walk lists leads to a regular file |
| FileSystem.FileLocsComplete | server.js:16-27 | every location that leads to a regular file, through directories and links, is listed |
| FileSystem.FileLocsOrdered | server.js:20-25 | listed locations are strictly increasing in lexicographic listing order, so each file is met once, depth-first, in `readdirSync` order |
| FileSystem.FilesAreFileLocs | server.js:16-46 | the files the walk reads are exactly the files at the listed locations, in that order, each under the path the joins build |
| PlainSearch.RecordsAt | server.js:35-39 | the records for a line keep the hits' order and carry the 1-based line and `offset + 1` as column |
| PlainSearch.ScanLine | server.js:33-41 | the scanning loop appends exactly the records of all occurrences in the line, in increasing offset order |
| PlainSearch.ScanStep | server.js:40 | resuming `indexOf` at `column + 1` finds the next occurrence in the list of all occurrences, or -1 once none is left |
| PlainSearch.ScanContent | server.js:29-42 | scanning every line of `split('\n')` appends the records of the whole file, line after line |
| PlainSearch.SearchFile | server.js:16-44 | `searchFile` appends the records of every regular file the walk reaches from the entry: a directory entry by entry, a link as its target, nothing for other entries |
| PlainSearch.SearchEntries | server.js:20-25 | the `forEach` over a listing appends each entry's records in listing order under the joined path |
| PlainSearch.SearchDirectory | server.js:11-48 | the result is the concatenation, in walk order, of the records of every regular file under the root |
| PlainSearch.OccurrencesFromSpec | server.js:33-41 | the offsets the scan collects are exactly those where the search text occurs, in strictly increasing order |
| PlainSearch.OccurrencesFromFirst | server.js:40 | the collected offsets from a start begin at the first occurrence `indexOf` finds from there |
| PlainSearch.ScanStart | server.js:33 | the first `indexOf` from 0 heads the list of all occurrences in the line |
| PlainSearch.LineMatchesSound | server.js:33-39 | every record of a line reports an occurrence of the search text at that line's column |
| PlainSearch.LineMatchesComplete | server.js:33-40 | every occurrence in a line is reported by a record of that line |
| PlainSearch.LineMatchesOrdered | server.js:33-41 | the records of one line carry its 1-based number and strictly increasing columns |
| PlainSearch.OverlappingOccurrences | server.js:40 | overlapping occurrences are all reported: "aa" in "aaa" gives columns 1 and 2 |
| PlainSearch.LinesMatchesExactly | server.js:32-41 | a record is reported for the lines if and only if its line and column are 1-based coordinates of an occurrence |
| PlainSearch.LinesMatchesOrdered | server.js:32-41 | records are ordered strictly by line and then column, so none is reported twice |
| PlainSearch.FileMatchesExactly | server.js:29-42 | a record is reported for a file if and only if its coordinates locate an occurrence in a line of `split('\n')` of the content |
| PlainSearch.MatchesInAppend | server.js:22-24 | the records of consecutive files are the records of each, concatenated |
| PlainSearch.MatchesInExactly | server.js:16-47 | a record is reported for a list of files if and only if it locates an occurrence in one of them, under that file's path |
| PlainSearch.SearchDirectoryExactly | server.js:11-48 | a record is in the result if and only if some regular file reached from the root has that path and an occurrence at those coordinates |
| SyntaxTree.NamedOfSound | server.js:75 | the named children are drawn from the children and are all named |
| SyntaxTree.NamedOfExactly | server.js:75 | a node is among the named children if and only if it is a named child |
| SyntaxTree.NamedChildren | server.js:75 | `node.namedChildren`: the children that are named, in order |
| SyntaxTree.PreOrder | server.js:62-75 | the nodes `traverseNode` visits: the node, then the visits of its named children in order |
| SyntaxTree.PreOrderListNamed | server.js:75 | visiting the named children is visiting every child while skipping the unnamed ones |
| SyntaxTree.PreOrderVisitsNamedOnly | server.js:62-75 | the visit starts at the root and every other visited node is named |
| SyntaxTree.PreOrderAround | server.js:62-75 | a node's visit is the node, then its left named siblings' visits, then the child's visit, then the remaining siblings' visits |
| SyntaxTree.PreIndexLocates | server.js:62-78 | the node at every named path is visited, at the position the path determines |
| SyntaxTree.PreIndexInjective | server.js:62-78 | distinct named paths are visited at distinct positions, so each node is visited once |
| SyntaxTree.VisitHasPath | server.js:62-78 | every visit is the visit of the node at some named path, so nothing off the named paths is visited |
| SyntaxTree.PathStep | server.js:75 | a named path is a step to a named child followed by a named path from that child |
| SyntaxTree.AncestorVisitedFirst | server.js:62-75 | a node is visited before every node below it on its named path |
| SyntaxTree.AncestorTextContains | server.js:64-75 | when child text lies within parent text, every ancestor's text contains whatever a descendant's text contains |
| StructuralSearch.TraverseNode | server.js:62-76 | `traverseNode` appends the records of the visited nodes whose text contains the target, in visit order |
| StructuralSearch.SearchInFile | server.js:55-81 | `searchInFile` returns the records of the parsed tree's visited nodes whose text contains the target |
| StructuralSearch.SearchInDirectory | server.js:84-102 | a non-directory root has no listing; otherwise the result is the `.js` regular files' records concatenated in listing order |
| StructuralSearch.Record | server.js:65-71 | the record of a node: file, type, text, and its start and end row and column |
| StructuralSearch.IsJsFile | server.js:93 | a top-level entry is searched exactly when `lstatSync` calls it a regular file and its name ends in ".js" |
| StructuralSearch.TreeMatchesExactly | server.js:62-78 | a record is reported if and only if it is the record of a node at a named path whose text contains the target |
| StructuralSearch.VisitEmitsIffContains | server.js:64-72 | the visit of a node adds one record, that node's, if its text contains the target, and nothing otherwise |
| StructuralSearch.MatchingNodeEmitted | server.js:64-72 | a matching node's record sits in the output at the number of records emitted before its visit |
| StructuralSearch.ContainmentClosure | server.js:64-75 | in a well-nested tree, every ancestor of a matching node is reported too, at an earlier position |
| StructuralSearch.EmptyTargetMatchesEveryNode | server.js:64 | an empty target records every visited node, in visit order, one record per visit |
| StructuralSearch.DirectoryMatchesExactly | server.js:88-98 | a record is reported if and only if it comes from the tree of a top-level regular file whose name ends in ".js" |
| StructuralSearch.LinkedFileSkipped | server.js:93 | a link named "a.js" to a regular file is skipped by the structural driver but read by the plain walk |
| StructuralSearch.SubdirectoryIgnored | server.js:93 | a subdirectory contributes nothing: the driver does not recurse |

## Left out

- The HTTP and SSE transport, the Express routes and the global transport variable (server.js:156-180) are left out. They are I/O and connection handling, not search logic.
- The MCP server object, its tool registration and the zod argument schemas (server.js:105-154) are left out. They only forward arguments to the searches.
- The formatting of results into the tool's text replies (server.js:127 and server.js:150) is left out. It is string presentation with no property of the search.
- The tree-sitter parser (server.js:7-8, 51-52, 57) is not part of this model. It is a parameter `parse` that maps file text to a tree. The lemma ContainmentClosure demands of that tree only that child text lies within parent text (`WellNested`).
- The file system calls are not executed. `statSync`, `lstatSync`, `readdirSync` and `readFileSync` are read off an `Entry` value.
- Errors those calls throw for a missing path, a dangling link, a permission failure or a read error are not modelled. The one exception is `readdirSync` on a structural root that is not a directory, which is the `NotADirectory` outcome.
- Symbolic link cycles cannot be represented, because an `Entry` value is finite. On a real cycle the walk does not loop forever: once a path passes through too many links (40 on Linux), `statSync` throws `ELOOP`, and that uncaught error aborts the whole search.
- `path.join` is modelled as `dir + "/" + name`, without its normalisation of `.`, `..` and repeated separators.
- Strings are sequences of characters. UTF-8 decoding, and JavaScript's UTF-16 code units in `indexOf` columns, are not modelled.
- PlainSearch.ScanLine: requires a non-empty search text. With an empty one the source loop never terminates (EmptyPatternAlwaysFound), so there is no result to specify. The same precondition is carried by ScanContent, SearchFile, SearchEntries and SearchDirectory.
- The model accumulates results in a sequence that each method takes and returns. It does not use one shared array that the closures push to in place.

# maskfs in Dafny

maskfs is an HTTP file server that serves the machine's root directory under
`/files/` and hides every entry that a gitignore-style *mask* does not select.
This project models its decision logic as pure functions and proves what that
logic promises. The logic covers:

- **Compiling the mask.** `NewGlobMask` splits the rules text on newlines and
  trims each line. It drops blank lines and `#` comments and keeps the rest
  in order.
- **The mask verdict.** `GlobMask.Masked` masks a nil entry. It masks any
  other entry unless the last rule that matches the entry's slash-separated
  path is a selecting rule.
- **Entries and listings.** `GetEntry` copies stat results into an `Entry`,
  and its link is `/files/` followed by the percent-escaped path.
  `GetEntries` keeps the unmasked children of a directory in `ReadDir` order.
  `WriteHTML` checks its inputs, then renders an optional parent row and one
  row per entry.
- **Requests.** `ServeHTTP` takes a request through these steps:
  1. The method check.
  2. Percent-decoding.
  3. `filepath.Clean`.
  4. The stat.
  5. The mask.
  6. Either a name-sorted listing or the file.

  `New` builds the server from its configuration. A root handler answers `/`.

The filesystem is abstract. It has two parts: a map from slash-separated paths
to what `fs.Stat` reports, and a map from directory paths to the child names
`fs.ReadDir` reports. How one gitignore pattern matches one path belongs to
go-git, which is not part of this model. It is the function parameter `pm`
(`Mask.PatternMatch`). `Mask.RespectsPolarity` states go-git's convention that
only `!` rules deselect.

Modules, one per file:

| file | module | content |
|---|---|---|
| `wrappers.dfy` | `Wrappers` | `Option`, `Result` |
| `errors.dfy` | `Errors` | the errors the core reports |
| `strings.dfy` | `GoStrings` | Go strings as byte sequences: `strings.Split`, `Join`, `TrimSpace` and `<` on strings |
| `seqs.dfy` | `Seqs` | order-preserving filtering |
| `escape.dfy` | `PercentEncoding` | `url.PathEscape` and `url.PathUnescape` (sections 2.1 and 3.3 of RFC 3986) |
| `filepath.dfy` | `FilePath` | `filepath.Clean`, `filepath.Join`, io/fs valid names |
| `entry.dfy` | `Index` | pkg/index/entry.go |
| `glob.dfy` | `Mask` | pkg/mask/glob.go |
| `namesort.dfy` | `NameSort` | the `sort.Slice` by name in `ServeHTTP` |
| `server.dfy` | `Server` | pkg/server/server.go: `New`, the root handler, `ServeHTTP` |

## Model

| member | source | states |
|---|---|---|
| Mask.NewGlobMask | pkg/mask/glob.go:31-44 | Compiling never fails. Every compiled pattern is a trimmed line that is neither empty nor a `#` comment. |
| Mask.CompileLinesAppend | pkg/mask/glob.go:33-39 | Lines compile one at a time, in order: compiling two runs of lines gives the patterns of the first run, then those of the second. |
| Mask.CompileLines | pkg/mask/glob.go:33-39 | The loop over the lines yields at most one pattern per line, and every pattern is a trimmed rule line: non-empty and not a `#` comment. |
| Mask.CompileOneLine | pkg/mask/glob.go:34-38 | A single line yields its trimmed text as a pattern exactly when that text is non-empty and does not start with `#`. Otherwise it yields nothing. |
| Mask.NewGlobMaskOfLines | pkg/mask/glob.go:33 | For a rules text written as newline-free lines joined by `\n`, the mask holds the patterns of exactly those lines. |
| Mask.CompileWithoutRules | pkg/mask/glob.go:35-37 | A rules text made only of blank and comment lines, indented ones included, compiles to no pattern. |
| Mask.IgnoredLineChangesNothing | pkg/mask/glob.go:34-37 | Inserting a blank or comment line anywhere in the rules text gives the same mask, so no verdict changes. |
| Mask.MatcherMatch | pkg/mask/glob.go:25 | go-git's `Matcher.Match`, scanning the patterns from the last one back: a path is selected only if some pattern selects it. |
| Mask.LastMatchWins | pkg/mask/glob.go:28-29 | The matcher selects a path exactly when the last pattern in declaration order that matches the path is a selecting one. |
| Mask.NoMatchSelectsNothing | pkg/mask/glob.go:25 | A path that no pattern matches is not selected. |
| Mask.LaterRulesOverride | pkg/mask/glob.go:29 | Once some later rule matches a path, any rules placed before the later ones make no difference to the verdict. |
| Mask.Masked | pkg/mask/glob.go:15-26 | A nil entry is masked. Any other entry is masked exactly when its `/`-split path and directory flag are not selected by the last matching pattern. |
| Mask.MaskedReadsOnlyPathAndKind | pkg/mask/glob.go:22-25 | Two entries with the same path and directory flag get the same verdict, whatever their name, size, mode, time or link. |
| Mask.EmptyRulesMaskEverything | pkg/mask/glob.go:25 | With no rules every entry, nil or not, is masked. |
| Mask.UnmatchedEntryIsMasked | pkg/mask/glob.go:25-30 | An entry that no rule matches is masked: rules select what to include. |
| Mask.LastMatchingRuleDecides | pkg/mask/glob.go:25-30 | Under go-git's polarity, an entry is masked exactly when the last rule matching it is a `!` rule. |
| Mask.LaterRuleReincludes | pkg/mask/glob.go:29 | With rules `glob`, `!name`, `name`, the file `name` is shown whenever its own rule matches it: the last rule overrides the negation. |
| Mask.UnnegatedRulesShowEveryMatch | pkg/mask/glob.go:25-30 | In a mask without `!` rules, an entry is shown exactly when some rule matches it. A rule such as `**/secrets/` therefore only adds entries. |
| Index.GetEntry | pkg/index/entry.go:14-35 | A failed stat gives an error and no entry. Otherwise the fields are copied from the stat record, the path is kept exactly, and the link is `LinkFor(path)`. |
| Index.LinkFor | pkg/index/entry.go:21 | Every link is rooted. It lies under `/files/` exactly when the path is not `""`, `.` or `..`, and then what follows `/files/` is a single segment without `/`. |
| Index.LinkIsJoinURLPath | pkg/index/entry.go:21 | `LinkFor` equals `url.JoinPath("/files", url.PathEscape(path))` for every path. `""` and `.` link to `/files`, `..` links to `/`, and any other path to `/files/` plus its escaped form. |
| Index.JoinURLPath | pkg/index/entry.go:21 | `url.JoinPath` onto `/files` gives a rooted path, and a trailing `/` on the joined element is kept. |
| Index.JoinOfPlainPath | pkg/index/entry.go:21 | For every path but `""`, `.` and `..`, the escaped path contains no `/`, and joining it onto `/files` appends it unchanged as one segment. |
| Index.LinkRoundTrip | pkg/index/entry.go:21 | For every path but `""`, `.` and `..`, the link starts with `/files/`, and what follows holds no `/`. Percent-decoding that remainder gives back the path. |
| Index.LinkIsRootOnlyForDotDot | pkg/index/entry.go:137 | A link is `/` exactly for the path `..`. |
| Index.CollectEntries | pkg/index/entry.go:66-78 | The loop succeeds exactly when every child can be statted. It then returns the kept children in order. Otherwise it reports the first child whose stat failed, wrapped. |
| Index.GetEntries | pkg/index/entry.go:57-81 | A failed `ReadDir` is an error. The call succeeds exactly when the directory is listable and every child resolves, and the result is the order-preserving filter of the children by the mask. |
| Index.GetEntriesIsOrderedFilter | pkg/index/entry.go:66-78 | The listed entries sit at increasing positions among the children. Each is unmasked, and every unmasked child is listed. |
| Index.GetEntriesWithoutMask | pkg/index/entry.go:72 | With a nil mask every child is listed, in `ReadDir` order. |
| Index.GetEntriesSkipsRejectedChild | pkg/index/entry.go:72-75 | Removing a masked child from the directory leaves the outcome of `GetEntries` unchanged: same success or failure, same entries. |
| Index.ChildrenResolveAppend | pkg/index/entry.go:66-70 | A run of child names resolves exactly when both of its parts do. |
| Index.GetEntriesDistinctNames | pkg/index/entry.go:59-81 | In a well-formed filesystem no two listed entries share a name. |
| Index.EntryRows | pkg/index/entry.go:145-152 | One row per entry, in order. Each row links to the entry's link and shows its name, mode and time. The size cell is `-` exactly for a directory and the size otherwise. |
| Index.WriteHTML | pkg/index/entry.go:83-152 | A nil directory or any nil entry is an error before anything is rendered. A failing writer is an error too. Otherwise the page heading is `/` plus the directory's path, and a parent row comes first exactly when the directory's link is not `/`. Then comes one row per entry, in order. |
| Server.New | pkg/server/server.go:30-41 | Building a server never fails, and its mask holds only trimmed rule lines. |
| Server.NewReadsOnlyTheMask | pkg/server/server.go:30-41 | The port plays no part: configurations with the same mask text build the same server. |
| Server.MaskWithoutRulesHidesEverything | pkg/server/server.go:32 | A mask text with no rule lines hides every entry. |
| Server.RootHandler | pkg/server/server.go:55-62 | The root handler answers 200 for exactly `/` and 404 for any other path. |
| Server.StatusCode | pkg/server/server.go:100-157 | Every outcome maps to one of 200, 400, 404, 405 and 500. This is the code the handler asks for, or, for a file handed to `http.ServeFileFS`, that call's code for a successful serve. The code is 200 exactly for the root's empty answer, a listing and a successfully served file. |
| Server.Lookup | pkg/server/server.go:118-157 | A path answers 404 exactly when it is missing or masked. A file is served only under its own path, unmasked and not a directory. A listing is given only for an unmasked directory. The answer is 500 exactly when listing that directory or writing its page fails. |
| Server.ListDirectory | pkg/server/server.go:136-153 | A directory is either listed or answered 500, and 500 exactly when `GetEntries` fails or the page cannot be written. |
| Server.ServeHTTP | pkg/server/server.go:97-158 | The answer is 405 exactly for a method other than GET or HEAD. A read is 400 exactly when the path does not percent-decode or cleans to `.`. Any other read gets the lookup of its decoded, cleaned path, so a file or listing is produced only for a path that resolves and is unmasked. The handler never gives the root's empty 200. |
| Server.MaskedPathIsAbsent | pkg/server/server.go:120-134 | A masked entry is answered 404, just as it would be if it did not exist. |
| Server.MaskedRequestIsAbsent | pkg/server/server.go:106-134 | Any read request that reaches a masked path gets the answer it would get if the path were deleted. |
| Server.MaskedChildIsUnlisted | pkg/server/server.go:136-151 | A listing is the same whether or not a masked child exists in the directory. |
| Server.ListingShowsVisibleChildren | pkg/server/server.go:136-151 | The entry rows of a listing, after at most one parent row, show exactly the unmasked children of the directory, sorted by name. |
| Server.ListingOrderIsDetermined | pkg/server/server.go:144-147 | In a well-formed filesystem any name-sorted arrangement of the visible children is the one the listing shows, so the unstable sort leaves no choice. |
| Server.ListingHasParentRow | pkg/index/entry.go:137-144 | In a well-formed filesystem every listing starts with the parent row for the directory's link. |
| Server.ServedPathStaysInside | pkg/server/server.go:111-157 | In a well-formed filesystem a served path is a valid relative name other than `.`. It is neither rooted nor starting with `..`. |
| Server.LeavingRequestIsNotFound | pkg/server/server.go:106-125 | In a well-formed filesystem a request that decodes to a rooted path, or to one starting with `..`, is answered 404. |
| Server.DotPathIsBadRequest | pkg/server/server.go:111-114 | A request whose decoded path cleans to `.` is 400 whatever the filesystem and the mask. |
| Server.FollowLink | pkg/server/server.go:65 | Following a link, after net/http's one decoding and `StripPrefix("/files/")`, gives a GET request exactly when the link lies under `/files/` and its remainder is well escaped. The path handed on is no longer than that remainder. |
| Server.FollowLinkCarriesPath | pkg/server/server.go:65 | Following the link of any path but `""`, `.` and `..` hands exactly that path to `ServeHTTP`. |
| Server.DecodingAgainIsHarmlessWithoutPercent | pkg/server/server.go:106 | For a path without `%`, the second decoding changes nothing. |
| Server.DoubleDecodingRejectsListedName | pkg/server/server.go:106-110 | As written, following the link of a listed valid name that does not percent-decode is answered 400. |
| Server.HundredPercentIsRejected | pkg/server/server.go:106-110 | `100%` is a valid file name that `url.PathUnescape` rejects. |
| Server.ServeHTTPSingleDecode | pkg/server/server.go:97-158 | The handler without the second decoding: 405 for other methods, 400 exactly when the path cleans to `.`, and otherwise the lookup of the cleaned path. |
| Server.LinkLeadsToEntry | pkg/server/server.go:106-157 | With a single decoding, following the link of any valid name other than `.` answers what a lookup of that name answers. |
| NameSort.SortByName | pkg/server/server.go:145-147 | The sort gives a permutation of its input ordered by name, in byte order. |
| NameSort.SortedOrderIsUnique | pkg/server/server.go:145-147 | Two name-sorted sequences with the same entries and distinct names are equal. |
| NameSort.DistinctNamesOfPermutation | pkg/server/server.go:145-147 | Rearranging entries keeps their names distinct. |
| GoStrings.LessIsLexicographic | pkg/server/server.go:146 | Go's `<` on strings is lexicographic by byte: a proper prefix, or a smaller byte at the first difference. |
| GoStrings.Less | pkg/server/server.go:146 | A name is never less than itself, and a prefix of another name is less than it exactly when it is shorter. |
| GoStrings.LessTransitive | pkg/server/server.go:146 | The comparator is transitive. |
| GoStrings.LessTrichotomy | pkg/server/server.go:146 | Any two names are equal or ordered one way or the other. |
| GoStrings.JoinSplit | pkg/mask/glob.go:22 | Joining the pieces of `strings.Split` gives back the text. |
| GoStrings.Split | pkg/mask/glob.go:33 | `strings.Split` on one separator byte gives at least one piece, and no piece contains the separator. |
| GoStrings.SplitJoin | pkg/mask/glob.go:33 | Splitting a join of newline-free pieces gives back the pieces. |
| GoStrings.TrimSpaceInfix | pkg/mask/glob.go:34 | Trimming removes only white space, and only from the two ends. |
| GoStrings.TrimSpace | pkg/mask/glob.go:34 | The result starts and ends with no white space and is no longer than the input. |
| GoStrings.TrimSpaceOfPadded | pkg/mask/glob.go:34 | A trimmed text padded with white space trims back to itself. |
| PercentEncoding.PathEscape | pkg/index/entry.go:21 | The escaped path holds no `/`, and every byte left unescaped is one a path segment may carry. Its length is one to three times the input's. |
| PercentEncoding.UnescapeEscape | pkg/index/entry.go:21 | Decoding undoes escaping for every byte string. |
| PercentEncoding.PathUnescape | pkg/server/server.go:106-110 | Decoding never lengthens the text. A failure reports the offending fragment, which starts with `%` and is at most three bytes long. |
| PercentEncoding.UnescapeSucceedsIffWellEscaped | pkg/server/server.go:106-110 | Decoding fails exactly when some `%` is not followed by two hex digits. |
| PercentEncoding.EscapeIsIdentityIff | pkg/index/entry.go:21 | Escaping leaves a path unchanged exactly when none of its bytes needs escaping. |
| FilePath.Clean | pkg/server/server.go:111 | The result is a clean, non-empty path, and it is rooted exactly when the input is. |
| FilePath.CleanIdempotent | pkg/server/server.go:111 | Cleaning twice is cleaning once. |
| FilePath.RootedCleanHasNoDotDot | pkg/server/server.go:111 | A rooted path never climbs above `/`: no `..` segment survives cleaning. |
| FilePath.CleanKeepsLeavingRoot | pkg/server/server.go:111 | Cleaning a path that is rooted or starts with `..` gives a path that is rooted or starts with `..`. |
| FilePath.CleanOfValidName | pkg/server/server.go:111 | A valid io/fs name is already clean. |
| FilePath.JoinPath | pkg/index/entry.go:67 | `filepath.Join` is empty exactly when both parts are empty, and otherwise its result is clean. |

## Left out

- `Run`'s server lifecycle (pkg/server/server.go:44-95) is not modelled. This covers the mux, the goroutine, `ListenAndServe` and the five-second shutdown, all of which are concurrency and network I/O. Logging and pkg/cli are not part of this model either.
- go-git's gitignore parsing and per-pattern glob matching are the parameter `pm`. Only the rule that combines the patterns' verdicts is modelled. Conclusions about concrete globs (what `**/*.go` matches) are therefore out of reach.
- `fs.Stat`, `fs.ReadDir` and `os.DirFS("/")` are two maps. The io/fs rule that rejects names which are not valid paths is the assumption `Index.WellFormed`, stated on the maps, and nothing checks it. The traversal lemmas hold under that assumption only.
- `http.ServeFileFS` is the outcome `FileContents(path)`. Its own checks (a 400 for `..` in the URL, redirects for `index.html` and trailing slashes, ranges, content types) are not modelled.
- Server.StatusCode: maps `FileContents` to 200, the code of a successful serve. `http.ServeFileFS` picks its status itself. It answers 403, 404 or 500 when opening the file fails after the stat succeeded, for example 403 for an unmasked file the server's user may not read. It answers 304 or 412 to conditional requests. None of these answers is modelled.
- `html/template` output is a list of rows, not HTML. Escaping, the CSS, `FileMode`'s text form and the RFC 3339 formatting of times are not modelled; the time is kept as its text.
- The writer is one flag, `writerFails`. The partial page written before a failure is not modelled.
- Server.ListDirectory: answers `InternalError` when the writer fails, which is the status the handler asks for with `http.Error`. Once `WriteHTML` has written anything, net/http has already sent an implicit 200 and ignores the later `WriteHeader(500)`. The client then gets 200, a cut-off page and the text "Internal Server Error", and the 500 is never sent. `Server.StatusCode` gives the requested code in this case too.
- net/http's parsing, the mux's path cleaning and redirects, and `StripPrefix` are not modelled: `Server.Request` holds the path `ServeHTTP` reads. `Server.FollowLink` models only the one decoding net/http applies to a link.
- The `err` branch after `url.JoinPath` (pkg/index/entry.go:22-24) is not modelled. It is unreachable, because the base `/files` is a constant that always parses.
- The `entry == nil` test in `GetEntries` (pkg/index/entry.go:72) is not modelled separately. `GetEntry` never returns nil without an error.
- GoStrings.TrimSpace: trims ASCII white space only. Go's `strings.TrimSpace` also removes multi-byte Unicode white space, which would need UTF-8 decoding.
- NameSort.SortByName: is an insertion sort, not Go's pattern-defeating quicksort. When two entries share a name, Go's order is unspecified. `NameSort.SortedOrderIsUnique` shows that distinct names, which a well-formed filesystem guarantees, leave no such choice.
- Mask.LastMatchWins: states the combination rule for an arbitrary `pm`. That a `!` rule deselects is the separate assumption `Mask.RespectsPolarity`.
- A mask text such as `**/*.go` followed by `**/secrets/` does not exclude `secrets/`, although that would be a natural reading of it. Every line without `!` is a selecting rule, and `Mask.UnnegatedRulesShowEveryMatch` proves that such a line can only add entries. The model follows the code.
- The parent row is shown exactly when the directory's link is not `/`. Only the path `..` has that link, and no valid name is `..`. So in a well-formed filesystem every listing has a parent row (`Server.ListingHasParentRow`). The root itself is never listed, because `/files/` cleans to `.` and is answered 400 (`Server.DotPathIsBadRequest`). For the same reason, the parent row of every directory is broken. Each directory is linked as one escaped segment, so its parent link `/files/<escaped path>/..` (for `a/b`, `/files/a%2Fb/..`) resolves in a browser to `/files/`, which is answered 400. The browser's resolution of `..` is not modelled.

## Findings

| source | as written | input that shows it | evidently intended | confidence | as-written member | corrected member |
|---|---|---|---|---|---|---|
| pkg/server/server.go:106 | `ServeHTTP` percent-decodes `r.URL.Path`, which net/http has already decoded once. The links that `GetEntry` builds with one level of escaping are therefore decoded twice. | A file named `100%` is listed with the link `/files/100%25`. Following it hands `100%` to the handler, whose second decoding fails, so the answer is 400. Likewise a file named `%41` is looked up as `A`. | Following a listed link reaches the listed entry: the handler cleans the path it is given without decoding it again. | medium, not executed | Server.DoubleDecodingRejectsListedName | Server.LinkLeadsToEntry |

`Server.ServeHTTP` models the handler as written, and the proofs about
requests hold for it. `Server.ServeHTTPSingleDecode` is the corrected handler.
`Server.LinkLeadsToEntry` proves that with it every link of a valid name leads
to that name's lookup. `Server.DecodingAgainIsHarmlessWithoutPercent` shows
that the two handlers agree on every path without `%`.

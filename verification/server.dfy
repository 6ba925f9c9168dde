/**
 * The HTTP front of maskfs (pkg/server/server.go): building a server from its
 * configuration, the root handler, and ServeHTTP, the decision procedure for
 * a request under `/files/`:
 *
 *   method -> percent-decode -> clean -> stat -> mask -> listing or file.
 *
 * The filesystem is the abstract `FileSystem` of the Index module standing for
 * os.DirFS("/"), and the response is the decision the handler takes, not the
 * bytes it writes.
 */
module Server {
  import opened Wrappers
  import opened GoStrings
  import opened Errors
  import opened Seqs
  import opened PercentEncoding
  import opened FilePath
  import opened Index
  import opened Mask
  import opened NameSort

  /** The server configuration. */
  datatype Config = Config(port: GoString, mask: GoString)

  datatype Server = Server(mask: GlobMask)

  /** New: compile the configured mask; a parse failure would be wrapped as
      "failed to parse path mask", but NewGlobMask never fails. */
  function New(cfg: Config): (r: Result<Server, Error>)
    ensures r.Ok?
    ensures forall k :: 0 <= k < |r.value.mask.patterns| ==> IsPatternSource(r.value.mask.patterns[k])
  {
    match NewGlobMask(cfg.mask)
    case Err(e) => Err(MaskParseFailed(e))
    case Ok(m) => Ok(Server(m))
  }

  /** The port plays no part in what the server hides: two configurations
      with the same mask build the same server. */
  lemma NewReadsOnlyTheMask(a: Config, b: Config)
    requires a.mask == b.mask
    ensures New(a) == New(b)
  {
  }

  /** A mask made only of blank and comment lines hides everything. */
  lemma MaskWithoutRulesHidesEverything(cfg: Config, pm: PatternMatch, entry: Option<Entry>)
    requires forall i :: 0 <= i < |Split(cfg.mask, '\n')| ==> !IsRuleLine(TrimSpace(Split(cfg.mask, '\n')[i]))
    ensures Masked(New(cfg).value.mask, pm, entry)
  {
    CompileWithoutRules(Split(cfg.mask, '\n'));
    EmptyRulesMaskEverything(pm, entry);
  }

  // ---------------------------------------------------------------------------
  // Requests and responses
  // ---------------------------------------------------------------------------

  /** A request as ServeHTTP sees it: the method (`verb`) and r.URL.Path with the
      `/files/` prefix already stripped. */
  datatype Request = Request(verb: GoString, path: GoString)

  /** What the handler decides to answer. */
  datatype Response =
    | Ok200                     // the root handler's empty 200
    | MethodNotAllowed
    | BadRequest
    | NotFound
    | InternalError
    | Listing(page: Page)       // an HTML index of a directory
    | FileContents(path: GoString)   // http.ServeFileFS of that path

  function StatusCode(r: Response): (code: int)
    ensures code in {200, 400, 404, 405, 500}
    ensures code == 200 <==> r.Ok200? || r.Listing? || r.FileContents?
  {
    match r
    case Ok200 => 200
    case MethodNotAllowed => 405
    case BadRequest => 400
    case NotFound => 404
    case InternalError => 500
    case Listing(_) => 200
    case FileContents(_) => 200
  }

  /** The root handler registered for `/`: 200 for exactly `/`, and 404 for
      every other path no more specific route takes. */
  function RootHandler(path: GoString): (r: Response)
    ensures r == Ok200 || r == NotFound
    ensures StatusCode(r) == 200 <==> path == "/"
  {
    if path != "/" then NotFound else Ok200
  }

  predicate IsReadMethod(verb: GoString) {
    verb == "GET" || verb == "HEAD"
  }

  /** The mask as the index.Mask interface GetEntries calls. */
  function MaskOf(s: Server, pm: PatternMatch): (masked: Entry -> bool) {
    (e: Entry) => Masked(s.mask, pm, Some(e))
  }

  /** Whether the entry at `fsPath` is missing or hidden. */
  predicate Hidden(s: Server, pm: PatternMatch, fsys: FileSystem, fsPath: GoString) {
    fsPath !in fsys.files || Masked(s.mask, pm, Some(GetEntry(fsys, fsPath).value))
  }

  function Somes(es: seq<Entry>): (r: seq<Option<Entry>>)
    ensures |r| == |es| && AllPresent(r)
    ensures forall i :: 0 <= i < |es| ==> r[i] == Some(es[i])
  {
    seq(|es|, i requires 0 <= i < |es| => Some(es[i]))
  }

  /** The listing of a visible directory: its unmasked children sorted by
      name, rendered with the directory itself as the heading. */
  function ListDirectory(s: Server, pm: PatternMatch, fsys: FileSystem, dir: Entry, writerFails: bool)
    : (r: Response)
    ensures r.Listing? || r == InternalError
    ensures r == InternalError <==> GetEntries(fsys, dir.fsPath, Some(MaskOf(s, pm))).Err? || writerFails
  {
    match GetEntries(fsys, dir.fsPath, Some(MaskOf(s, pm)))
    case Err(_) => InternalError
    case Ok(masked) =>
      match WriteHTML(Some(dir), Somes(SortByName(masked)), writerFails)
      case Err(_) => InternalError
      case Ok(page) => Listing(page)
  }

  /** ServeHTTP from the stat onwards, for the cleaned path `fsPath`: a
      missing or masked entry is 404, a directory is listed, a file is served. */
  function Lookup(s: Server, pm: PatternMatch, fsys: FileSystem, fsPath: GoString, writerFails: bool)
    : (r: Response)
    ensures r == NotFound <==> Hidden(s, pm, fsys, fsPath)
    ensures r.FileContents? ==> r.path == fsPath && fsPath in fsys.files && !fsys.files[fsPath].isDir
    ensures r.Listing? ==> fsPath in fsys.files && fsys.files[fsPath].isDir && r.page.heading == "/" + fsPath
    ensures r == InternalError <==>
      !Hidden(s, pm, fsys, fsPath) && fsys.files[fsPath].isDir
      && (GetEntries(fsys, fsPath, Some(MaskOf(s, pm))).Err? || writerFails)
    ensures !r.Ok200? && !r.MethodNotAllowed? && !r.BadRequest?
  {
    match GetEntry(fsys, fsPath)
    case Err(_) => NotFound
    case Ok(entry) =>
      if Masked(s.mask, pm, Some(entry)) then NotFound
      else if entry.isDir then ListDirectory(s, pm, fsys, entry, writerFails)
      else FileContents(entry.fsPath)
  }

  /** ServeHTTP as written: it percent-decodes the path it is handed. */
  function ServeHTTP(s: Server, pm: PatternMatch, fsys: FileSystem, req: Request, writerFails: bool)
    : (r: Response)
    ensures !IsReadMethod(req.verb) ==> r == MethodNotAllowed
    ensures r == BadRequest <==>
      IsReadMethod(req.verb) && (PathUnescape(req.path).Err? || Clean(PathUnescape(req.path).value) == ".")
    ensures r.FileContents? || r.Listing? ==>
      && IsReadMethod(req.verb) && PathUnescape(req.path).Ok?
      && var p := Clean(PathUnescape(req.path).value);
         p != "." && !Hidden(s, pm, fsys, p) && r == Lookup(s, pm, fsys, p, writerFails)
    ensures IsReadMethod(req.verb) && PathUnescape(req.path).Ok? && Clean(PathUnescape(req.path).value) != "." ==>
      r == Lookup(s, pm, fsys, Clean(PathUnescape(req.path).value), writerFails)
    ensures r == MethodNotAllowed <==> !IsReadMethod(req.verb)
    ensures !r.Ok200?
  {
    if !IsReadMethod(req.verb) then MethodNotAllowed
    else
      match PathUnescape(req.path)
      case Err(_) => BadRequest
      case Ok(decoded) =>
        var fsPath := Clean(decoded);
        if fsPath == "." then BadRequest
        else Lookup(s, pm, fsys, fsPath, writerFails)
  }

  // ---------------------------------------------------------------------------
  // Masked is absent
  // ---------------------------------------------------------------------------

  /** A masked entry answers exactly as a missing one: removing it from the
      filesystem changes nothing a client can see at its path. */
  lemma MaskedPathIsAbsent(s: Server, pm: PatternMatch, fsys: FileSystem, p: GoString, writerFails: bool)
    requires p in fsys.files && Masked(s.mask, pm, Some(GetEntry(fsys, p).value))
    ensures Lookup(s, pm, fsys, p, writerFails) == NotFound
    ensures Lookup(s, pm, fsys.(files := fsys.files - {p}), p, writerFails) == NotFound
  {
  }

  /** The same at the level of requests: whatever request reaches a masked
      path gets the answer it would get if the path did not exist. */
  lemma MaskedRequestIsAbsent(s: Server, pm: PatternMatch, fsys: FileSystem, req: Request, p: GoString,
                              writerFails: bool)
    requires p in fsys.files && Masked(s.mask, pm, Some(GetEntry(fsys, p).value))
    requires PathUnescape(req.path).Ok? && Clean(PathUnescape(req.path).value) == p
    ensures ServeHTTP(s, pm, fsys, req, writerFails)
         == ServeHTTP(s, pm, fsys.(files := fsys.files - {p}), req, writerFails)
  {
    MaskedPathIsAbsent(s, pm, fsys, p, writerFails);
  }

  /** A masked child is as good as absent from its directory's listing:
      dropping its name from the directory changes nothing in the response. */
  lemma MaskedChildIsUnlisted(s: Server, pm: PatternMatch, fsys: FileSystem, dir: GoString,
                              before: seq<GoString>, child: GoString, after: seq<GoString>, writerFails: bool)
    requires dir in fsys.dirs && fsys.dirs[dir] == before + [child] + after
    requires JoinPath(dir, child) in fsys.files
    requires Masked(s.mask, pm, Some(GetEntry(fsys, JoinPath(dir, child)).value))
    ensures Lookup(s, pm, fsys, dir, writerFails)
         == Lookup(s, pm, fsys.(dirs := fsys.dirs[dir := before + after]), dir, writerFails)
  {
    GetEntriesSkipsRejectedChild(fsys, dir, before, child, after, Some(MaskOf(s, pm)));
    var smaller := fsys.(dirs := fsys.dirs[dir := before + after]);
    assert GetEntry(fsys, dir) == GetEntry(smaller, dir);
  }

  // ---------------------------------------------------------------------------
  // Listings
  // ---------------------------------------------------------------------------

  /** Sorting the accepted elements keeps exactly them. */
  lemma SortedVisibleMembers(keep: Entry -> bool, kids: seq<Entry>)
    ensures var shown := SortByName(Filter(keep, kids));
      && (forall i :: 0 <= i < |shown| ==> keep(shown[i]) && shown[i] in kids)
      && (forall i :: 0 <= i < |kids| && keep(kids[i]) ==> kids[i] in shown)
  {
    var visible := Filter(keep, kids);
    var shown := SortByName(visible);
    FilterIsSubset(keep, kids);
    forall i | 0 <= i < |shown| ensures keep(shown[i]) && shown[i] in kids {
      assert shown[i] in multiset(visible);
    }
    forall i | 0 <= i < |kids| && keep(kids[i]) ensures kids[i] in shown {
      assert kids[i] in multiset(visible);
    }
  }

  /** `rows` show the entries `es`, one row each, in order. */
  predicate RowsShow(rows: seq<Row>, es: seq<Entry>) {
    |rows| == |es| && forall i :: 0 <= i < |es| ==> RowShows(rows[i], es[i])
  }

  /** The page of a listing: an optional parent row, then one row per entry
      shown, in the order shown. */
  lemma ListDirectoryRows(s: Server, pm: PatternMatch, fsys: FileSystem, dir: Entry, writerFails: bool)
    requires ListDirectory(s, pm, fsys, dir, writerFails).Listing?
    ensures GetEntries(fsys, dir.fsPath, Some(MaskOf(s, pm))).Ok?
    ensures var shown := SortByName(GetEntries(fsys, dir.fsPath, Some(MaskOf(s, pm))).value);
      var rows := ListDirectory(s, pm, fsys, dir, writerFails).page.rows;
      var parent := |rows| - |shown|;
      && (parent == 0 || parent == 1)
      && (parent == 1 <==> dir.linkPath != "/")
      && RowsShow(rows[parent..], shown)
  {
    var shown := SortByName(GetEntries(fsys, dir.fsPath, Some(MaskOf(s, pm))).value);
    var page := WriteHTML(Some(dir), Somes(shown), writerFails);
    assert ListDirectory(s, pm, fsys, dir, writerFails) == Listing(page.value);
    PageRows(dir, shown, writerFails);
  }

  /** The rows WriteHTML renders for present entries `shown`. */
  lemma PageRows(dir: Entry, shown: seq<Entry>, writerFails: bool)
    requires !writerFails
    ensures WriteHTML(Some(dir), Somes(shown), writerFails).Ok?
    ensures var rows := WriteHTML(Some(dir), Somes(shown), writerFails).value.rows;
      var parent := |rows| - |shown|;
      && (parent == 0 || parent == 1)
      && (parent == 1 <==> dir.linkPath != "/")
      && RowsShow(rows[parent..], shown)
  {
    var es := Somes(shown);
    var parentRows := if dir.linkPath != "/" then [ParentRow(dir.linkPath + "/..")] else [];
    var rows := WriteHTML(Some(dir), es, writerFails).value.rows;
    assert rows == parentRows + EntryRows(es);
    assert rows[|parentRows|..] == EntryRows(es);
    EntryRowsShow(shown);
  }

  /** One row per entry, in order. */
  lemma EntryRowsShow(shown: seq<Entry>)
    ensures RowsShow(EntryRows(Somes(shown)), shown)
  {
    var es := Somes(shown);
    forall i | 0 <= i < |shown| ensures RowShows(EntryRows(es)[i], shown[i]) {
      assert es[i].value == shown[i];
    }
  }

  /** The rows of a listing, seen from the path that was looked up. */
  lemma ListingRows(s: Server, pm: PatternMatch, fsys: FileSystem, p: GoString, writerFails: bool)
    requires Lookup(s, pm, fsys, p, writerFails).Listing?
    ensures GetEntries(fsys, p, Some(MaskOf(s, pm))).Ok?
    ensures var shown := SortByName(GetEntries(fsys, p, Some(MaskOf(s, pm))).value);
      var rows := Lookup(s, pm, fsys, p, writerFails).page.rows;
      var parent := |rows| - |shown|;
      && (parent == 0 || parent == 1)
      && (parent == 1 <==> LinkFor(p) != "/")
      && RowsShow(rows[parent..], shown)
  {
    var entry := GetEntry(fsys, p).value;
    assert entry.fsPath == p && entry.linkPath == LinkFor(p);
    assert Lookup(s, pm, fsys, p, writerFails) == ListDirectory(s, pm, fsys, entry, writerFails);
    ListDirectoryRows(s, pm, fsys, entry, writerFails);
  }

  /** A listing shows exactly the unmasked children of the directory, in
      name order, after at most one parent row. */
  lemma ListingShowsVisibleChildren(s: Server, pm: PatternMatch, fsys: FileSystem, p: GoString, writerFails: bool)
    returns (shown: seq<Entry>)
    requires Lookup(s, pm, fsys, p, writerFails).Listing?
    ensures p in fsys.dirs && ChildrenResolve(fsys, p, fsys.dirs[p])
    ensures var kids := ChildEntries(fsys, p, fsys.dirs[p]);
      && SortedByName(shown)
      && multiset(shown) == multiset(Filter(Keep(Some(MaskOf(s, pm))), kids))
      && (forall i :: 0 <= i < |shown| ==> !Masked(s.mask, pm, Some(shown[i])) && shown[i] in kids)
      && (forall i :: 0 <= i < |kids| && !Masked(s.mask, pm, Some(kids[i])) ==> kids[i] in shown)
    ensures var rows := Lookup(s, pm, fsys, p, writerFails).page.rows;
      var parent := |rows| - |shown|;
      && (parent == 0 || parent == 1)
      && (parent == 1 <==> LinkFor(p) != "/")
      && RowsShow(rows[parent..], shown)
  {
    ListingRows(s, pm, fsys, p, writerFails);
    var keep := Keep(Some(MaskOf(s, pm)));
    var kids := ChildEntries(fsys, p, fsys.dirs[p]);
    shown := SortByName(GetEntries(fsys, p, Some(MaskOf(s, pm))).value);
    VisibleMembers(s, pm, kids);
  }

  /** The sorted visible children are unmasked children, and every unmasked
      child is among them. */
  lemma VisibleMembers(s: Server, pm: PatternMatch, kids: seq<Entry>)
    ensures var shown := SortByName(Filter(Keep(Some(MaskOf(s, pm))), kids));
      && (forall i :: 0 <= i < |shown| ==> !Masked(s.mask, pm, Some(shown[i])) && shown[i] in kids)
      && (forall i :: 0 <= i < |kids| && !Masked(s.mask, pm, Some(kids[i])) ==> kids[i] in shown)
  {
    var keep := Keep(Some(MaskOf(s, pm)));
    forall e ensures keep(e) == !Masked(s.mask, pm, Some(e)) {
      KeepIsUnmasked(s, pm, e);
    }
    KeptMembers(keep, s, pm, kids);
  }

  lemma KeptMembers(keep: Entry -> bool, s: Server, pm: PatternMatch, kids: seq<Entry>)
    requires forall e :: keep(e) == !Masked(s.mask, pm, Some(e))
    ensures var shown := SortByName(Filter(keep, kids));
      && (forall i :: 0 <= i < |shown| ==> !Masked(s.mask, pm, Some(shown[i])) && shown[i] in kids)
      && (forall i :: 0 <= i < |kids| && !Masked(s.mask, pm, Some(kids[i])) ==> kids[i] in shown)
  {
    SortedVisibleMembers(keep, kids);
  }

  lemma KeepIsUnmasked(s: Server, pm: PatternMatch, e: Entry)
    ensures Keep(Some(MaskOf(s, pm)))(e) == !Masked(s.mask, pm, Some(e))
  {
  }

  /** In a well-formed filesystem the order of a listing is fully determined:
      any name-sorted arrangement of the visible children is the one shown. */
  lemma ListingOrderIsDetermined(s: Server, pm: PatternMatch, fsys: FileSystem, p: GoString,
                                 writerFails: bool, other: seq<Entry>)
    requires WellFormed(fsys)
    requires Lookup(s, pm, fsys, p, writerFails).Listing?
    requires p in fsys.dirs && ChildrenResolve(fsys, p, fsys.dirs[p])
    requires SortedByName(other)
    requires multiset(other) == multiset(Filter(Keep(Some(MaskOf(s, pm))), ChildEntries(fsys, p, fsys.dirs[p])))
    ensures other == SortByName(GetEntries(fsys, p, Some(MaskOf(s, pm))).value)
  {
    var listed := GetEntries(fsys, p, Some(MaskOf(s, pm))).value;
    GetEntriesDistinctNames(fsys, p, Some(MaskOf(s, pm)));
    var sorted := SortByName(listed);
    DistinctNamesOfPermutation(listed, sorted);
    SortedOrderIsUnique(sorted, other);
  }

  /** The first row of `page` links to the parent of `link`. */
  predicate StartsWithParentRow(page: Page, link: GoString) {
    |page.rows| > 0 && page.rows[0] == ParentRow(link + "/..")
  }

  /** In a well-formed filesystem every listing has its parent row. */
  lemma ListingHasParentRow(s: Server, pm: PatternMatch, fsys: FileSystem, p: GoString, writerFails: bool)
    requires Lookup(s, pm, fsys, p, writerFails).Listing?
    requires WellFormed(fsys)
    ensures StartsWithParentRow(Lookup(s, pm, fsys, p, writerFails).page, LinkFor(p))
  {
    assert p in fsys.files;
    DotDotIsInvalid();
    assert p != "..";
    LinkIsRootOnlyForDotDot(p);
    var entry := GetEntry(fsys, p).value;
    assert entry.linkPath == LinkFor(p);
    assert Lookup(s, pm, fsys, p, writerFails) == ListDirectory(s, pm, fsys, entry, writerFails);
    ListDirectoryParentRow(s, pm, fsys, entry, writerFails);
  }

  /** A listing of a directory other than the root's parent starts with the
      parent row. */
  lemma ListDirectoryParentRow(s: Server, pm: PatternMatch, fsys: FileSystem, dir: Entry, writerFails: bool)
    requires ListDirectory(s, pm, fsys, dir, writerFails).Listing?
    requires dir.linkPath != "/"
    ensures StartsWithParentRow(ListDirectory(s, pm, fsys, dir, writerFails).page, dir.linkPath)
  {
    var shown := SortByName(GetEntries(fsys, dir.fsPath, Some(MaskOf(s, pm))).value);
    var page := WriteHTML(Some(dir), Somes(shown), writerFails);
    assert ListDirectory(s, pm, fsys, dir, writerFails) == Listing(page.value);
  }

  lemma DotDotIsInvalid()
    ensures !ValidName("..")
  {
    SplitPiece("..", '/');
    assert Split("..", '/')[0] in Split("..", '/');
  }

  // ---------------------------------------------------------------------------
  // Traversal
  // ---------------------------------------------------------------------------

  /** Whatever the handler serves or lists lies inside the served root: a
      valid io/fs name, so neither rooted nor climbing with `..`. */
  lemma ServedPathStaysInside(s: Server, pm: PatternMatch, fsys: FileSystem, req: Request, writerFails: bool)
    requires WellFormed(fsys)
    requires ServeHTTP(s, pm, fsys, req, writerFails).FileContents?
    ensures var q := ServeHTTP(s, pm, fsys, req, writerFails).path;
      ValidName(q) && q != "." && !LeavesRoot(q)
  {
    var q := ServeHTTP(s, pm, fsys, req, writerFails).path;
    if LeavesRoot(q) {
      LeavingRootIsInvalid(q);
    }
  }

  /** A request that decodes to a path leaving the root (rooted, or starting
      with `..`) is answered 404 whatever the filesystem holds. */
  lemma LeavingRequestIsNotFound(s: Server, pm: PatternMatch, fsys: FileSystem, req: Request, writerFails: bool)
    requires WellFormed(fsys) && IsReadMethod(req.verb)
    requires PathUnescape(req.path).Ok? && LeavesRoot(PathUnescape(req.path).value)
    ensures ServeHTTP(s, pm, fsys, req, writerFails) == NotFound
  {
    var p := Clean(PathUnescape(req.path).value);
    CleanKeepsLeavingRoot(PathUnescape(req.path).value);
    LeavingRootIsInvalid(p);
    UnescapeSucceedsIffWellEscaped(req.path);
  }

  /** A request whose path cleans to `.` is a bad request whatever the
      filesystem and the mask. */
  lemma DotPathIsBadRequest(s: Server, pm: PatternMatch, fsys: FileSystem, req: Request, writerFails: bool)
    requires IsReadMethod(req.verb)
    requires PathUnescape(req.path).Ok? && Clean(PathUnescape(req.path).value) == "."
    ensures ServeHTTP(s, pm, fsys, req, writerFails) == BadRequest
  {
    UnescapeSucceedsIffWellEscaped(req.path);
  }

  // ---------------------------------------------------------------------------
  // Following a link
  // ---------------------------------------------------------------------------

  /** The request a browser sends when it follows `link`: net/http decodes the
      URL path once, and StripPrefix removes "/files/" before ServeHTTP runs.
      None when the link is not under "/files/" or does not decode. */
  function FollowLink(link: GoString): (r: Option<Request>)
    ensures r.Some? <==> HasPrefix(link, "/files/") && WellEscaped(link[|"/files/"|..])
    ensures r.Some? ==> r.value.verb == "GET" && |r.value.path| <= |link| - |"/files/"|
  {
    if !HasPrefix(link, "/files/") then None
    else
      UnescapeSucceedsIffWellEscaped(link[|"/files/"|..]);
      match PathUnescape(link[|"/files/"|..])
      case Err(_) => None
      case Ok(path) => Some(Request("GET", path))
  }

  /** The link of every path but "", "." and ".." brings the path itself to
      ServeHTTP, undecoded by one level. */
  lemma FollowLinkCarriesPath(p: GoString)
    requires !IsDotPath(p)
    ensures FollowLink(LinkFor(p)) == Some(Request("GET", p))
  {
    LinkRoundTrip(p);
  }

  /** ServeHTTP with the percent-decoding it should not do left out: r.URL.Path
      is already decoded when it arrives, so it is only cleaned. */
  function ServeHTTPSingleDecode(s: Server, pm: PatternMatch, fsys: FileSystem, req: Request, writerFails: bool)
    : (r: Response)
    ensures !IsReadMethod(req.verb) ==> r == MethodNotAllowed
    ensures r == BadRequest <==> IsReadMethod(req.verb) && Clean(req.path) == "."
    ensures IsReadMethod(req.verb) && Clean(req.path) != "." ==> r == Lookup(s, pm, fsys, Clean(req.path), writerFails)
  {
    if !IsReadMethod(req.verb) then MethodNotAllowed
    else
      var fsPath := Clean(req.path);
      if fsPath == "." then BadRequest
      else Lookup(s, pm, fsys, fsPath, writerFails)
  }

  /** With a single decoding every link on a listing leads back to its entry:
      the link of a valid name answers what a lookup of that name answers. */
  lemma LinkLeadsToEntry(s: Server, pm: PatternMatch, fsys: FileSystem, p: GoString, writerFails: bool)
    requires ValidName(p) && p != "."
    ensures FollowLink(LinkFor(p)).Some?
    ensures ServeHTTPSingleDecode(s, pm, fsys, FollowLink(LinkFor(p)).value, writerFails)
         == Lookup(s, pm, fsys, p, writerFails)
  {
    ValidNameIsContained(p);
    FollowLinkCarriesPath(p);
    CleanOfValidName(p);
  }

  /** As written, the handler decodes the path a second time; for names
      without `%` this changes nothing, so both handlers agree on them. */
  lemma DecodingAgainIsHarmlessWithoutPercent(s: Server, pm: PatternMatch, fsys: FileSystem, req: Request,
                                              writerFails: bool)
    requires '%' !in req.path
    ensures ServeHTTP(s, pm, fsys, req, writerFails) == ServeHTTPSingleDecode(s, pm, fsys, req, writerFails)
  {
    UnescapeWithoutPercent(req.path);
  }

  /** As written, a listed file whose valid name does not percent-decode
      (it holds a `%` not followed by two hex digits) cannot be fetched through
      its own link: following the link is answered 400, where a single
      decoding looks the file up. */
  lemma DoubleDecodingRejectsListedName(s: Server, pm: PatternMatch, fsys: FileSystem, p: GoString,
                                        writerFails: bool)
    requires ValidName(p) && p != "." && PathUnescape(p).Err?
    ensures FollowLink(LinkFor(p)) == Some(Request("GET", p))
    ensures ServeHTTP(s, pm, fsys, FollowLink(LinkFor(p)).value, writerFails) == BadRequest
    ensures ServeHTTPSingleDecode(s, pm, fsys, FollowLink(LinkFor(p)).value, writerFails)
         == Lookup(s, pm, fsys, p, writerFails)
  {
    LinkLeadsToEntry(s, pm, fsys, p, writerFails);
    ValidNameIsContained(p);
    FollowLinkCarriesPath(p);
    var req := Request("GET", p);
    assert IsReadMethod(req.verb);
    assert ServeHTTP(s, pm, fsys, req, writerFails) == BadRequest;
  }

  /** A name that shows it: "100%" is a valid file name, listed with the link
      "/files/100%25", and ServeHTTP's second decoding fails on its lone `%`. */
  lemma HundredPercentIsRejected()
    ensures ValidName("100%") && PathUnescape("100%").Err?
  {
    var p: GoString := "100%";
    SplitPiece(p, '/');
    assert Split(p, '/')[0] == p;
  }
}

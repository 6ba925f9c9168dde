/**
 * Entries and directory listings (pkg/index/entry.go): resolving a path to
 * its metadata and link, collecting the unmasked children of a directory, and
 * the rows a listing page shows.
 *
 * The filesystem is abstract: a map from slash-separated paths to what
 * fs.Stat reports, and a map from directory paths to the child names
 * fs.ReadDir reports.  A path missing from the first map fails to stat; a
 * path missing from the second fails to list.
 */
module Index {
  import opened Wrappers
  import opened GoStrings
  import opened Errors
  import opened Seqs
  import opened PercentEncoding
  import opened FilePath

  newtype Int64 = x: int | -0x8000_0000_0000_0000 <= x < 0x8000_0000_0000_0000

  /** fs.FileMode: permission and type bits in a uint32. */
  newtype FileMode = x: int | 0 <= x < 0x1_0000_0000

  /** What fs.Stat reports about one path.  The modification time is kept as
      the RFC 3339 text GetEntry stores; formatting it is not modelled. */
  datatype FileInfo = FileInfo(name: GoString, size: Int64, mode: FileMode, modTime: GoString, isDir: bool)

  datatype FileSystem = FileSystem(files: map<GoString, FileInfo>, dirs: map<GoString, seq<GoString>>)

  function Stat(fsys: FileSystem, path: GoString): (r: Result<FileInfo, Error>)
  {
    if path in fsys.files then Ok(fsys.files[path]) else Err(StatFailed(path))
  }

  function ReadDir(fsys: FileSystem, path: GoString): (r: Result<seq<GoString>, Error>)
  {
    if path in fsys.dirs then Ok(fsys.dirs[path]) else Err(ReadDirFailed(path))
  }

  /** What a served root directory behaves like: every path is a valid io/fs
      name, within a directory no two children share a name, and statting a
      child reports that child's own name.  The model assumes this of the
      filesystem; it does not check it. */
  ghost predicate WellFormed(fsys: FileSystem) {
    && (forall p :: p in fsys.files ==> ValidName(p))
    && (forall d, i, j :: d in fsys.dirs && 0 <= i < j < |fsys.dirs[d]| ==> fsys.dirs[d][i] != fsys.dirs[d][j])
    && (forall d, i :: d in fsys.dirs && 0 <= i < |fsys.dirs[d]| && JoinPath(d, fsys.dirs[d][i]) in fsys.files
           ==> fsys.files[JoinPath(d, fsys.dirs[d][i])].name == fsys.dirs[d][i])
  }

  /** File or directory metadata for a listing page. */
  datatype Entry = Entry(
    name: GoString,
    size: Int64,
    mode: FileMode,
    modTime: GoString,
    isDir: bool,
    fsPath: GoString,    // path relative to the filesystem root
    linkPath: GoString   // URL-encoded path for links
  )

  const FilesRoute: GoString := "/files"

  /** url.JoinPath("/files", elem): path.Join cleans the joined path, and a
      trailing slash of `elem` is kept. url.JoinPath then stores the result
      with setPath and returns its EscapedPath; that re-escaping is left out
      because it gives the path back unchanged when, as for every link here,
      the path is already escaped (valid percent triples and no byte that
      needs escaping). */
  function JoinURLPath(elem: GoString): (r: GoString)
    ensures HasPrefix(r, "/")
    ensures HasSuffix(elem, "/") ==> HasSuffix(r, "/")
  {
    var p := JoinPath(FilesRoute, elem);
    if HasSuffix(elem, "/") && !HasSuffix(p, "/") then p + "/" else p
  }

  /** The link GetEntry builds, url.JoinPath("/files", url.PathEscape(path)),
      in closed form (LinkIsJoinURLPath proves the two agree): the whole path
      escaped as ONE segment under "/files/", except for the three paths that
      path.Join rewrites. */
  function LinkFor(path: GoString): (r: GoString)
    ensures HasPrefix(r, "/")
    ensures HasPrefix(r, "/files/") <==> !IsDotPath(path)
    ensures !IsDotPath(path) ==> |r| > |"/files/"| && '/' !in r[|"/files/"|..]
  {
    if path == [] || path == "." then FilesRoute
    else if path == ".." then "/"
    else "/files/" + PathEscape(path)
  }

  /** GetEntry: stat the path and copy what it reports into an Entry. */
  function GetEntry(fsys: FileSystem, path: GoString): (r: Result<Entry, Error>)
    ensures r.Err? <==> path !in fsys.files
    ensures r.Err? ==> r.error == StatFailed(path)
    ensures r.Ok? ==>
      var info := fsys.files[path];
      && r.value.fsPath == path
      && r.value.name == info.name && r.value.size == info.size && r.value.mode == info.mode
      && r.value.modTime == info.modTime && r.value.isDir == info.isDir
      && r.value.linkPath == LinkFor(path)
  {
    match Stat(fsys, path)
    case Err(e) => Err(e)
    case Ok(info) => Ok(Entry(info.name, info.size, info.mode, info.modTime, info.isDir, path, LinkFor(path)))
  }

  // ---------------------------------------------------------------------------
  // Links
  // ---------------------------------------------------------------------------

  /** The paths whose escaped form path.Join would rewrite. */
  predicate IsDotPath(path: GoString) {
    path == [] || path == "." || path == ".."
  }

  lemma EscapedIsPlainSegment(path: GoString)
    requires !IsDotPath(path)
    ensures IsKeptSegment(PathEscape(path)) && PathEscape(path) != ".."
  {
    var e := PathEscape(path);
    if e == "." || e == ".." {
      EscapeWithoutPercent(path);
    }
  }

  /** For every path but "", "." and "..", joining the escaped path onto
      "/files" just appends it: it is one clean segment. */
  lemma JoinOfPlainPath(path: GoString)
    requires !IsDotPath(path)
    ensures JoinURLPath(PathEscape(path)) == "/files/" + PathEscape(path)
    ensures '/' !in PathEscape(path)
  {
    var e := PathEscape(path);
    EscapedIsPlainSegment(path);
    var link := "/files/" + e;
    assert FilesRoute + "/" + e == link;
    FilesThenSegmentIsClean(e);
    CleanOfClean(link);
    assert JoinPath(FilesRoute, e) == link;
    assert !HasSuffix(e, "/");
  }

  /** "/files/" followed by one kept segment other than ".." is clean. */
  lemma FilesThenSegmentIsClean(e: GoString)
    requires IsKeptSegment(e) && e != ".."
    ensures IsClean("/files/" + e)
  {
    var link := "/files/" + e;
    var body := "files/" + e;
    assert link[1..] == body;
    assert body == "files" + ['/'] + e;
    SplitAfterPiece("files", '/', e);
    SplitPiece(e, '/');
    assert Split(body, '/') == ["files", e];
  }

  lemma JoinOfEmpty()
    ensures JoinURLPath(PathEscape([])) == "/files"
  {
    assert PathEscape([]) == [];
    assert FilesRoute + "/" + [] == "/files/" + [];
    SplitFilesThen([]);
    var st := Reduce([], [[], "files", []], true);
    assert st == ["files"];
    assert Render(st, true) == "/files";
  }

  lemma JoinOfDot()
    ensures JoinURLPath(PathEscape(".")) == "/files"
  {
    assert PathEscape(".") == ".";
    assert FilesRoute + "/" + "." == "/files/" + ".";
    SplitFilesThen(".");
    var st := Reduce([], [[], "files", "."], true);
    assert st == ["files"];
    assert Render(st, true) == "/files";
  }

  lemma JoinOfDotDot()
    ensures JoinURLPath(PathEscape("..")) == "/"
  {
    assert PathEscape("..") == "..";
    assert FilesRoute + "/" + ".." == "/files/" + "..";
    SplitFilesThen("..");
    var st := Reduce([], [[], "files", ".."], true);
    assert st == [];
    assert Render(st, true) == "/";
  }

  lemma SplitFilesThen(e: GoString)
    requires '/' !in e
    ensures Split("/files/" + e, '/') == [[], "files", e]
  {
    assert "/files/" + e == [] + ['/'] + ("files" + ['/'] + e);
    SplitAfterPiece([], '/', "files" + ['/'] + e);
    SplitAfterPiece("files", '/', e);
    SplitPiece(e, '/');
  }

  /** The closed form is what url.JoinPath computes, for every path: "" and
      "." link to "/files", ".." to "/", and every other path to "/files/"
      followed by its escaped form. */
  lemma LinkIsJoinURLPath(path: GoString)
    ensures LinkFor(path) == JoinURLPath(PathEscape(path))
  {
    if path == [] {
      JoinOfEmpty();
    } else if path == "." {
      JoinOfDot();
    } else if path == ".." {
      JoinOfDotDot();
    } else {
      JoinOfPlainPath(path);
    }
  }

  /** Link round trip: stripping "/files/" from the link and percent-decoding
      what is left gives back the path. */
  lemma LinkRoundTrip(path: GoString)
    requires !IsDotPath(path)
    ensures HasPrefix(LinkFor(path), "/files/")
    ensures '/' !in LinkFor(path)[|"/files/"|..]
    ensures PathUnescape(LinkFor(path)[|"/files/"|..]) == Ok(path)
  {
    assert LinkFor(path)[|"/files/"|..] == PathEscape(path);
    UnescapeEscape(path);
  }

  /** A link is "/" only for the path "..", which no well-formed filesystem
      holds; so the parent row of a listing is always rendered. */
  lemma LinkIsRootOnlyForDotDot(path: GoString)
    ensures LinkFor(path) == "/" <==> path == ".."
  {
    if !IsDotPath(path) {
      assert LinkFor(path)[1] == 'f';
    }
  }

  // ---------------------------------------------------------------------------
  // GetEntries
  // ---------------------------------------------------------------------------

  /** The filter GetEntries applies: keep everything when there is no mask,
      otherwise keep what the mask does not mask. */
  function Keep(mask: Option<Entry -> bool>): (keep: Entry -> bool) {
    (e: Entry) => mask.None? || !mask.value(e)
  }

  /** Every child of `dir` named in `names` can be statted. */
  ghost predicate ChildrenResolve(fsys: FileSystem, dir: GoString, names: seq<GoString>) {
    forall i :: 0 <= i < |names| ==> JoinPath(dir, names[i]) in fsys.files
  }

  /** `i` is the first child of `dir` that cannot be statted. */
  ghost predicate FirstUnresolved(fsys: FileSystem, dir: GoString, names: seq<GoString>, i: int) {
    && 0 <= i < |names|
    && JoinPath(dir, names[i]) !in fsys.files
    && forall j :: 0 <= j < i ==> JoinPath(dir, names[j]) in fsys.files
  }

  /** The entries of all the children, in ReadDir order. */
  function ChildEntries(fsys: FileSystem, dir: GoString, names: seq<GoString>): (es: seq<Entry>)
    requires ChildrenResolve(fsys, dir, names)
    ensures |es| == |names|
    ensures forall i :: 0 <= i < |names| ==> GetEntry(fsys, JoinPath(dir, names[i])) == Ok(es[i])
    decreases |names|
  {
    if |names| == 0 then []
    else [GetEntry(fsys, JoinPath(dir, names[0])).value] + ChildEntries(fsys, dir, names[1..])
  }

  /** The loop of GetEntries over the child names. */
  function CollectEntries(fsys: FileSystem, dir: GoString, names: seq<GoString>, mask: Option<Entry -> bool>)
    : (r: Result<seq<Entry>, Error>)
    ensures r.Ok? <==> ChildrenResolve(fsys, dir, names)
    ensures r.Ok? ==> r.value == Filter(Keep(mask), ChildEntries(fsys, dir, names))
    ensures r.Err? ==> exists i :: FirstUnresolved(fsys, dir, names, i)
                                   && r.error == EntryFailed(StatFailed(JoinPath(dir, names[i])))
    decreases |names|
  {
    if |names| == 0 then Ok([])
    else
      match GetEntry(fsys, JoinPath(dir, names[0]))
      case Err(e) =>
        assert FirstUnresolved(fsys, dir, names, 0);
        Err(EntryFailed(e))
      case Ok(entry) =>
        match CollectEntries(fsys, dir, names[1..], mask)
        case Err(e) =>
          ghost var i :| FirstUnresolved(fsys, dir, names[1..], i) && e == EntryFailed(StatFailed(JoinPath(dir, names[1..][i])));
          assert FirstUnresolved(fsys, dir, names, i + 1);
          Err(e)
        case Ok(rest) =>
          Ok(if Keep(mask)(entry) then [entry] + rest else rest)
  }

  /** GetEntries: the unmasked children of `path`, in ReadDir order. */
  function GetEntries(fsys: FileSystem, path: GoString, mask: Option<Entry -> bool>): (r: Result<seq<Entry>, Error>)
    ensures path !in fsys.dirs ==> r == Err(ReadDirFailed(path))
    ensures r.Ok? <==> path in fsys.dirs && ChildrenResolve(fsys, path, fsys.dirs[path])
    ensures r.Ok? ==> r.value == Filter(Keep(mask), ChildEntries(fsys, path, fsys.dirs[path]))
  {
    match ReadDir(fsys, path)
    case Err(e) => Err(e)
    case Ok(names) => CollectEntries(fsys, path, names, mask)
  }

  /** The entries of two runs of child names are the entries of each run. */
  lemma {:induction false} ChildEntriesAppend(fsys: FileSystem, dir: GoString, a: seq<GoString>, b: seq<GoString>)
    requires ChildrenResolve(fsys, dir, a) && ChildrenResolve(fsys, dir, b)
    ensures ChildrenResolve(fsys, dir, a + b)
    ensures ChildEntries(fsys, dir, a + b) == ChildEntries(fsys, dir, a) + ChildEntries(fsys, dir, b)
    decreases |a|
  {
    var ab := a + b;
    assert ChildrenResolve(fsys, dir, ab) by {
      forall i | 0 <= i < |ab| ensures JoinPath(dir, ab[i]) in fsys.files {
        if i >= |a| { assert ab[i] == b[i - |a|]; }
      }
    }
    if |a| == 0 {
      assert ab == b;
    } else {
      assert ab[1..] == a[1..] + b;
      assert ChildrenResolve(fsys, dir, a[1..]) by {
        forall i | 0 <= i < |a[1..]| ensures JoinPath(dir, a[1..][i]) in fsys.files {
          assert a[1..][i] == a[i + 1];
        }
      }
      ChildEntriesAppend(fsys, dir, a[1..], b);
    }
  }

  /** The entries around one child of a directory, with and without it. */
  lemma ChildEntriesAround(fsys: FileSystem, dir: GoString, before: seq<GoString>, child: GoString, after: seq<GoString>)
    requires ChildrenResolve(fsys, dir, before) && ChildrenResolve(fsys, dir, after)
    requires JoinPath(dir, child) in fsys.files
    ensures ChildrenResolve(fsys, dir, before + [child] + after)
    ensures ChildrenResolve(fsys, dir, before + after)
    ensures ChildEntries(fsys, dir, before + [child] + after)
         == ChildEntries(fsys, dir, before) + [GetEntry(fsys, JoinPath(dir, child)).value] + ChildEntries(fsys, dir, after)
    ensures ChildEntries(fsys, dir, before + after) == ChildEntries(fsys, dir, before) + ChildEntries(fsys, dir, after)
  {
    var one := [child];
    assert ChildrenResolve(fsys, dir, one);
    assert ChildEntries(fsys, dir, one) == [GetEntry(fsys, JoinPath(dir, child)).value];
    ChildEntriesAppend(fsys, dir, before, one);
    ChildEntriesAppend(fsys, dir, before + one, after);
    ChildEntriesAppend(fsys, dir, before, after);
  }

  /** A run of child names resolves exactly when both of its parts do. */
  lemma ChildrenResolveAppend(fsys: FileSystem, dir: GoString, a: seq<GoString>, b: seq<GoString>)
    ensures ChildrenResolve(fsys, dir, a + b) <==> ChildrenResolve(fsys, dir, a) && ChildrenResolve(fsys, dir, b)
  {
    var ab := a + b;
    if ChildrenResolve(fsys, dir, ab) {
      forall i | 0 <= i < |a| ensures JoinPath(dir, a[i]) in fsys.files {
        assert ab[i] == a[i];
      }
      forall i | 0 <= i < |b| ensures JoinPath(dir, b[i]) in fsys.files {
        assert ab[|a| + i] == b[i];
      }
    }
    if ChildrenResolve(fsys, dir, a) && ChildrenResolve(fsys, dir, b) {
      forall i | 0 <= i < |ab| ensures JoinPath(dir, ab[i]) in fsys.files {
        if i >= |a| { assert ab[i] == b[i - |a|]; }
      }
    }
  }

  /** Child entries come from the files alone, not from the directory lists. */
  lemma {:induction false} ChildEntriesReadOnlyFiles(a: FileSystem, b: FileSystem, dir: GoString, names: seq<GoString>)
    requires a.files == b.files && ChildrenResolve(a, dir, names)
    ensures ChildrenResolve(b, dir, names)
    ensures ChildEntries(a, dir, names) == ChildEntries(b, dir, names)
    decreases |names|
  {
    if |names| > 0 {
      ChildEntriesReadOnlyFiles(a, b, dir, names[1..]);
    }
  }

  /** A child the mask rejects is as good as absent: dropping its name from
      the directory leaves GetEntries' answer for the directory unchanged. */
  lemma GetEntriesSkipsRejectedChild(fsys: FileSystem, dir: GoString, before: seq<GoString>, child: GoString,
                                     after: seq<GoString>, mask: Option<Entry -> bool>)
    requires dir in fsys.dirs && fsys.dirs[dir] == before + [child] + after
    requires JoinPath(dir, child) in fsys.files
    requires !Keep(mask)(GetEntry(fsys, JoinPath(dir, child)).value)
    ensures var smaller := fsys.(dirs := fsys.dirs[dir := before + after]);
      && GetEntries(fsys, dir, mask).Ok? == GetEntries(smaller, dir, mask).Ok?
      && (GetEntries(fsys, dir, mask).Ok? ==> GetEntries(fsys, dir, mask).value == GetEntries(smaller, dir, mask).value)
  {
    var smaller := fsys.(dirs := fsys.dirs[dir := before + after]);
    assert ChildrenResolve(fsys, dir, [child]);
    ChildrenResolveAppend(fsys, dir, before, [child]);
    ChildrenResolveAppend(fsys, dir, before + [child], after);
    ChildrenResolveAppend(fsys, dir, before, after);
    if ChildrenResolve(fsys, dir, before) && ChildrenResolve(fsys, dir, after) {
      ChildEntriesAround(fsys, dir, before, child, after);
      var x := GetEntry(fsys, JoinPath(dir, child)).value;
      FilterDropsRejected(Keep(mask), ChildEntries(fsys, dir, before), x, ChildEntries(fsys, dir, after));
      ChildEntriesReadOnlyFiles(fsys, smaller, dir, before + after);
    }
  }

  /** Without a mask every child is listed. */
  lemma GetEntriesWithoutMask(fsys: FileSystem, path: GoString)
    requires GetEntries(fsys, path, None).Ok?
    ensures GetEntries(fsys, path, None).value == ChildEntries(fsys, path, fsys.dirs[path])
  {
    FilterAcceptingAll(Keep(None), ChildEntries(fsys, path, fsys.dirs[path]));
  }

  /** GetEntries is an order-preserving filter: the listed entries sit at
      increasing positions of the children, each is unmasked, and every
      unmasked child is listed. */
  lemma GetEntriesIsOrderedFilter(fsys: FileSystem, path: GoString, mask: Option<Entry -> bool>)
    returns (idx: seq<nat>)
    requires GetEntries(fsys, path, mask).Ok?
    ensures var all := ChildEntries(fsys, path, fsys.dirs[path]);
      && Embeds(idx, GetEntries(fsys, path, mask).value, all)
      && (forall k :: 0 <= k < |idx| ==> Keep(mask)(all[idx[k]]))
      && (forall i :: 0 <= i < |all| && Keep(mask)(all[i]) ==> i in idx)
  {
    idx := FilterPicksAcceptedPositions(Keep(mask), ChildEntries(fsys, path, fsys.dirs[path]));
  }

  /** No two entries share a name. */
  ghost predicate DistinctNames(es: seq<Entry>) {
    forall i, j :: 0 <= i < j < |es| ==> es[i].name != es[j].name
  }

  lemma ChildEntriesNamed(fsys: FileSystem, dir: GoString, names: seq<GoString>)
    requires ChildrenResolve(fsys, dir, names)
    requires forall i :: 0 <= i < |names| ==> fsys.files[JoinPath(dir, names[i])].name == names[i]
    requires forall i, j :: 0 <= i < j < |names| ==> names[i] != names[j]
    ensures DistinctNames(ChildEntries(fsys, dir, names))
  {
  }

  lemma {:induction false} FilterKeepsDistinctNames(keep: Entry -> bool, es: seq<Entry>)
    requires DistinctNames(es)
    ensures DistinctNames(Filter(keep, es))
    decreases |es|
  {
    if |es| > 0 {
      FilterKeepsDistinctNames(keep, es[1..]);
      var idx := FilterPicksAcceptedPositions(keep, es[1..]);
      var f := Filter(keep, es[1..]);
      forall k | 0 <= k < |f| ensures f[k].name != es[0].name {
        assert f[k] == es[1..][idx[k]] == es[idx[k] + 1];
      }
    }
  }

  /** In a well-formed filesystem the listed entries have distinct names,
      so sorting them by name leaves no tie to break. */
  lemma GetEntriesDistinctNames(fsys: FileSystem, path: GoString, mask: Option<Entry -> bool>)
    requires WellFormed(fsys)
    requires GetEntries(fsys, path, mask).Ok?
    ensures DistinctNames(GetEntries(fsys, path, mask).value)
  {
    var names := fsys.dirs[path];
    forall i | 0 <= i < |names| ensures fsys.files[JoinPath(path, names[i])].name == names[i] {
    }
    ChildEntriesNamed(fsys, path, names);
    FilterKeepsDistinctNames(Keep(mask), ChildEntries(fsys, path, names));
  }

  // ---------------------------------------------------------------------------
  // WriteHTML
  // ---------------------------------------------------------------------------

  /** The size column: "-" for a directory, the byte count otherwise. */
  datatype SizeCell = Dash | Bytes(size: Int64)

  /** One table row of a listing page. */
  datatype Row =
    | ParentRow(href: GoString)
    | EntryRow(href: GoString, name: GoString, size: SizeCell, mode: FileMode, modTime: GoString)

  /** A rendered listing page: the heading's path and the table rows. */
  datatype Page = Page(heading: GoString, rows: seq<Row>)

  /** `row` is the table row that shows entry `e`. */
  predicate RowShows(row: Row, e: Entry) {
    && row.EntryRow?
    && row.href == e.linkPath
    && row.name == e.name
    && (row.size == Dash <==> e.isDir)
    && (!e.isDir ==> row.size == Bytes(e.size))
    && row.mode == e.mode
    && row.modTime == e.modTime
  }

  predicate AllPresent(entries: seq<Option<Entry>>) {
    forall i :: 0 <= i < |entries| ==> entries[i].Some?
  }

  function EntryRows(entries: seq<Option<Entry>>): (rows: seq<Row>)
    requires AllPresent(entries)
    ensures |rows| == |entries|
    ensures forall i :: 0 <= i < |entries| ==> RowShows(rows[i], entries[i].value)
    decreases |entries|
  {
    if |entries| == 0 then []
    else
      var e := entries[0].value;
      [EntryRow(e.linkPath, e.name, if e.isDir then Dash else Bytes(e.size), e.mode, e.modTime)]
        + EntryRows(entries[1..])
  }

  /** WriteHTML: refuse a nil directory or a nil entry before rendering
      anything, then render an optional parent row and one row per entry. */
  function WriteHTML(directory: Option<Entry>, entries: seq<Option<Entry>>, writerFails: bool)
    : (r: Result<Page, Error>)
    ensures directory.None? ==> r == Err(InvalidDirectory)
    ensures directory.Some? && !AllPresent(entries) ==> r == Err(InvalidEntry)
    ensures r.Ok? <==> directory.Some? && AllPresent(entries) && !writerFails
    ensures r.Ok? ==>
      var dir := directory.value;
      var parent := if dir.linkPath != "/" then 1 else 0;
      && r.value.heading == "/" + dir.fsPath
      && |r.value.rows| == parent + |entries|
      && ((|r.value.rows| > 0 && r.value.rows[0].ParentRow?) <==> parent == 1)
      && (parent == 1 ==> r.value.rows[0] == ParentRow(dir.linkPath + "/.."))
      && forall i :: 0 <= i < |entries| ==> RowShows(r.value.rows[parent + i], entries[i].value)
  {
    if directory.None? then Err(InvalidDirectory)
    else if !AllPresent(entries) then Err(InvalidEntry)
    else if writerFails then Err(WriteFailed)
    else
      var dir := directory.value;
      var parentRows := if dir.linkPath != "/" then [ParentRow(dir.linkPath + "/..")] else [];
      Ok(Page("/" + dir.fsPath, parentRows + EntryRows(entries)))
  }
}

/**
 `ClaudeProjectManager`: the read side of a store of agent conversation
 logs kept under one root directory. Each first-level directory of the root
 is a project; each `.jsonl` file inside a project is a session, one JSON
 record per line.
 */
module ProjectManager {
  import opened Wrappers
  import opened PyStr
  import opened PathCodec
  import opened Sequences
  import opened Sorting
  import opened FileSystem
  import opened Json
  import opened SessionFile

  /** The extension that marks a session file. */
  const Suffix: string := ".jsonl"

  /**
   The modification times, in microseconds since the epoch, that
   `datetime.fromtimestamp` turns into a `datetime`: midnight of 1 January of
   year 1 up to the last microsecond of year 9999, read in UTC. Outside this
   range it raises, and the `except` clause skips the file.
   */
  const MinTimestamp: int := -62135596800000000
  const MaxTimestamp: int := 253402300799999999

  predicate HasDatetime(mtime: int) {
    MinTimestamp <= mtime <= MaxTimestamp
  }

  /** The exception an operation lets escape to its caller. */
  datatype FsError =
    | NotADirectory  // `os.listdir` on a path that names a regular file
    | IsADirectory   // `open` on a path that names a directory
    | ReadError      // opening or UTF-8 decoding a session file fails

  /** One entry of the project list. */
  datatype Project = Project(
    id: string,
    name: string,
    encodedPath: string,
    sessionCount: nat,
    sessions: seq<string>)

  /** One entry of a project's session list; `modifiedTime` is the file's modification time in microseconds. */
  datatype Session = Session(
    id: string,
    fileName: string,
    messageCount: nat,
    fileSize: nat,
    modifiedTime: int)

  function NameOf(c: Child): string {
    c.name
  }

  // ---------------------------------------------------------------------------
  // get_projects

  /** A listed name that `get_projects` counts as a session: it ends with `.jsonl`, whatever it names. */
  function SessionFileName(c: Child): Option<string> {
    if EndsWith(c.name, Suffix) then Some(c.name) else None
  }

  /**
   The project record for one root entry: only directories whose name does
   not start with `.`, named after the entry, and counting the `.jsonl` names
   of the directory in listing order.
   */
  function ProjectOf(c: Child): (r: Option<Project>)
    ensures r.Some? <==> c.entry.Dir? && !StartsWith(c.name, ".")
    ensures r.Some? ==> && ProjectInvariant(r.value)
                        && r.value.id == c.name
                        && r.value.sessions == FilterMap(c.entry.children, SessionFileName)
  {
    if c.entry.Dir? && !StartsWith(c.name, ".") then
      var sessions := FilterMap(c.entry.children, SessionFileName);
      assert forall n :: n in sessions ==> EndsWith(n, Suffix) by {
        forall n | n in sessions
          ensures EndsWith(n, Suffix)
        {
          FilterMapSource(c.entry.children, SessionFileName, n);
        }
      }
      Some(Project(c.name, DecodeProjectPath(c.name), c.name, |sessions|, sessions))
    else
      None
  }

  /** What every project record promises about itself. */
  predicate ProjectInvariant(p: Project) {
    && p.id == p.encodedPath
    && !StartsWith(p.id, ".")
    && p.name == DecodeProjectPath(p.id)
    && p.sessionCount == |p.sessions|
    && forall n :: n in p.sessions ==> EndsWith(n, Suffix)
  }

  function IdOf(p: Project): string {
    p.id
  }

  /** `sorted(..., key=lambda x: x['name'])` compares names with `<`. */
  predicate NameBefore(a: Project, b: Project) {
    LexLt(a.name, b.name)
  }

  lemma NameBeforeIsStrictOrder()
    ensures StrictOrder(NameBefore)
  {
    forall a: Project
      ensures !NameBefore(a, a)
    {
      LexLtIrreflexive(a.name);
    }
    forall a: Project, b: Project, c: Project
      ensures NameBefore(a, b) && NameBefore(b, c) ==> NameBefore(a, c)
    {
      LexLtTransitive(a.name, b.name, c.name);
    }
  }

  /** Names that neither precede nor follow each other are equal, so `NameBefore` compares through a key. */
  lemma NameBeforeComparesNames()
    ensures forall a: Project, b: Project :: Tied(NameBefore, a, b) <==> a.name == b.name
    ensures NegativelyTransitive(NameBefore)
  {
    forall a: Project, b: Project
      ensures Tied(NameBefore, a, b) <==> a.name == b.name
    {
      LexLtTotal(a.name, b.name);
      LexLtIrreflexive(a.name);
    }
    forall a: Project, b: Project, c: Project
      ensures NameBefore(a, c) ==> NameBefore(a, b) || NameBefore(b, c)
    {
      LexLtTotal(a.name, b.name);
      LexLtTotal(b.name, c.name);
      LexLtTransitive(c.name, b.name, a.name);
      LexLtTransitive(a.name, c.name, b.name);
      LexLtTransitive(c.name, a.name, b.name);
      LexLtIrreflexive(a.name);
    }
  }

  /**
   `get_projects`: no root means no projects; a root that is a regular file
   makes `os.listdir` raise; otherwise the qualifying entries, sorted by
   display name.
   */
  function ListProjects(root: Option<Entry>): (r: Result<seq<Project>, FsError>)
    ensures !Exists(root) ==> r == Success([])
    ensures Exists(root) && root.value.File? ==> r == Failure(NotADirectory)
    ensures root.Some? && root.value.Dir? ==> r.Success?
    ensures r.Success? ==> forall i, j :: 0 <= i < j < |r.value| ==> LexLe(r.value[i].name, r.value[j].name)
    ensures r.Success? ==> forall p :: p in r.value ==> ProjectInvariant(p)
  {
    if !Exists(root) then Success([])
    else if root.value.File? then Failure(NotADirectory)
    else
      var sorted := SortBy(FilterMap(root.value.children, ProjectOf), NameBefore);
      NameBeforeIsStrictOrder();
      SortedByNameAscending(sorted);
      ProjectsHoldInvariant(root.value.children, sorted);
      Success(sorted)
  }

  lemma ProjectsHoldInvariant(cs: seq<Child>, ps: seq<Project>)
    requires multiset(ps) == multiset(FilterMap(cs, ProjectOf))
    ensures forall p :: p in ps ==> ProjectInvariant(p)
  {
    forall p | p in ps
      ensures ProjectInvariant(p)
    {
      assert p in multiset(FilterMap(cs, ProjectOf));
      FilterMapSource(cs, ProjectOf, p);
    }
  }

  lemma SortedByNameAscending(ps: seq<Project>)
    requires Sorted(ps, NameBefore)
    ensures forall i, j :: 0 <= i < j < |ps| ==> LexLe(ps[i].name, ps[j].name)
  {
    forall i, j | 0 <= i < j < |ps|
      ensures LexLe(ps[i].name, ps[j].name)
    {
      LexLtTotal(ps[i].name, ps[j].name);
    }
  }

  /**
   The project list is a reordering of the qualifying root entries, taken in
   listing order: nothing is dropped and nothing is added.
   */
  lemma ListProjectsIsPermutation(root: Option<Entry>)
    requires root.Some? && root.value.Dir?
    ensures ListProjects(root).Success?
    ensures multiset(ListProjects(root).value) == multiset(FilterMap(root.value.children, ProjectOf))
  {
  }

  /**
   `sorted` is stable: projects with the same display name keep the order in
   which their directories are listed.
   */
  lemma ListProjectsKeepsListingOrderOfEqualNames(root: Option<Entry>, x: Project)
    requires root.Some? && root.value.Dir?
    ensures ListProjects(root).Success?
    ensures Ties(ListProjects(root).value, NameBefore, x) == Ties(FilterMap(root.value.children, ProjectOf), NameBefore, x)
  {
    NameBeforeIsStrictOrder();
    NameBeforeComparesNames();
    SortByIsStable(FilterMap(root.value.children, ProjectOf), NameBefore, x);
  }

  /**
   With the unique names of a real directory, each qualifying root entry
   appears exactly once in the project list, under its own name as id, and
   no other entry appears.
   */
  lemma ListProjectsListsEachDirectoryOnce(root: Option<Entry>)
    requires root.Some? && root.value.Dir? && DistinctNames(root.value.children)
    ensures var ps := ListProjects(root).value;
            var cs := root.value.children;
            && (forall a, b :: 0 <= a < b < |ps| ==> ps[a].id != ps[b].id)
            && forall i :: 0 <= i < |cs| ==>
                 ((exists a :: 0 <= a < |ps| && ps[a].id == cs[i].name) <==> cs[i].entry.Dir? && !StartsWith(cs[i].name, "."))
  {
    var cs := root.value.children;
    var ps := ListProjects(root).value;
    PermutedFilterMapKeyedOnce(cs, ProjectOf, ps, NameOf, IdOf);
  }

  /** A project's sessions are the `.jsonl` names of its directory, in listing order. */
  lemma ProjectSessionsAreSuffixedNames(root: Option<Entry>, p: Project)
    requires root.Some? && root.value.Dir?
    requires p in ListProjects(root).value
    ensures exists i :: 0 <= i < |root.value.children| && root.value.children[i].name == p.id
              && root.value.children[i].entry.Dir?
              && p.sessions == FilterMap(root.value.children[i].entry.children, SessionFileName)
  {
    var found := FilterMap(root.value.children, ProjectOf);
    assert p in multiset(found);
    FilterMapSource(root.value.children, ProjectOf, p);
  }

  // ---------------------------------------------------------------------------
  // get_project_sessions

  /**
   `filename.replace('.jsonl', '')`: every occurrence is removed, not only the
   suffix, so the id is shorter than the name exactly when `.jsonl` occurs in it.
   */
  function SessionId(fileName: string): (id: string)
    ensures |id| <= |fileName|
    ensures |id| < |fileName| <==> Contains(fileName, Suffix)
    ensures !Contains(fileName, Suffix) ==> id == fileName
  {
    RemoveShortens(fileName, Suffix);
    ReplaceAbsent(fileName, Suffix, "");
    ReplaceAll(fileName, Suffix, "")
  }

  /**
   The session record for one project entry: a `.jsonl` name that is a
   readable regular file with a representable modification time. A name
   whose stat, time conversion or read raises, or that names a directory
   (`open` raises), is skipped by the `except` clause.
   */
  function SessionOf(c: Child): (r: Option<Session>)
    ensures r.Some? <==> EndsWith(c.name, Suffix) && c.entry.File? && c.entry.data.access == Readable
                         && HasDatetime(c.entry.data.mtime)
    ensures r.Some? ==> && r.value.fileName == c.name
                        && r.value.id == SessionId(c.name)
                        && r.value.messageCount == |TextLines(c.entry.data.lines)|
                        && r.value.fileSize == c.entry.data.size
                        && r.value.modifiedTime == c.entry.data.mtime
  {
    if EndsWith(c.name, Suffix) && c.entry.File? && c.entry.data.access == Readable && HasDatetime(c.entry.data.mtime) then
      var d := c.entry.data;
      Some(Session(SessionId(c.name), c.name, MessageCount(d.lines), d.size, d.mtime))
    else
      None
  }

  function FileNameOf(s: Session): string {
    s.fileName
  }

  /** `sorted(..., key=modified_time, reverse=True)`: newer sessions first. */
  predicate NewerFirst(a: Session, b: Session) {
    a.modifiedTime > b.modifiedTime
  }

  lemma NewerFirstIsStrictOrder()
    ensures StrictOrder(NewerFirst)
    ensures NegativelyTransitive(NewerFirst)
  {
  }

  /**
   `get_project_sessions`: a project path that does not exist gives no
   sessions; one that names a regular file makes `os.listdir` raise;
   otherwise one record per readable `.jsonl` file, newest first.
   */
  function ListSessions(root: Option<Entry>, projectId: string): (r: Result<seq<Session>, FsError>)
    ensures var dir := Resolve(root, projectId);
            && (!Exists(dir) ==> r == Success([]))
            && (Exists(dir) && dir.value.File? ==> r == Failure(NotADirectory))
            && (dir.Some? && dir.value.Dir? ==> r.Success?)
    ensures r.Success? ==> forall i, j :: 0 <= i < j < |r.value| ==> r.value[i].modifiedTime >= r.value[j].modifiedTime
    ensures r.Success? ==> forall s :: s in r.value ==>
              && EndsWith(s.fileName, Suffix)
              && s.id == ReplaceAll(s.fileName, Suffix, "")
  {
    var dir := Resolve(root, projectId);
    if !Exists(dir) then Success([])
    else if dir.value.File? then Failure(NotADirectory)
    else
      var sorted := SortBy(FilterMap(dir.value.children, SessionOf), NewerFirst);
      NewerFirstIsStrictOrder();
      SessionsNamedBySuffix(dir.value.children, sorted);
      Success(sorted)
  }

  lemma SessionsNamedBySuffix(cs: seq<Child>, ss: seq<Session>)
    requires multiset(ss) == multiset(FilterMap(cs, SessionOf))
    ensures forall s :: s in ss ==> EndsWith(s.fileName, Suffix) && s.id == ReplaceAll(s.fileName, Suffix, "")
  {
    forall s | s in ss
      ensures EndsWith(s.fileName, Suffix) && s.id == ReplaceAll(s.fileName, Suffix, "")
    {
      assert s in multiset(FilterMap(cs, SessionOf));
      FilterMapSource(cs, SessionOf, s);
    }
  }

  /**
   The session list is a reordering of the records of the project's
   readable `.jsonl` files, taken in listing order.
   */
  lemma ListSessionsIsPermutation(root: Option<Entry>, projectId: string)
    requires Resolve(root, projectId).Some? && Resolve(root, projectId).value.Dir?
    ensures ListSessions(root, projectId).Success?
    ensures multiset(ListSessions(root, projectId).value)
         == multiset(FilterMap(Resolve(root, projectId).value.children, SessionOf))
  {
  }

  /**
   `sorted` is stable: sessions with the same modification time keep the
   order in which their files are listed.
   */
  lemma ListSessionsKeepsListingOrderOfEqualTimes(root: Option<Entry>, projectId: string, x: Session)
    requires Resolve(root, projectId).Some? && Resolve(root, projectId).value.Dir?
    ensures ListSessions(root, projectId).Success?
    ensures Ties(ListSessions(root, projectId).value, NewerFirst, x)
         == Ties(FilterMap(Resolve(root, projectId).value.children, SessionOf), NewerFirst, x)
  {
    NewerFirstIsStrictOrder();
    SortByIsStable(FilterMap(Resolve(root, projectId).value.children, SessionOf), NewerFirst, x);
  }

  /**
   With the unique names of a real directory, every readable `.jsonl` file
   of the project appears exactly once, and a `.jsonl` name whose stat or
   read fails, or that names a directory, does not appear.
   */
  lemma ListSessionsListsEachReadableFileOnce(root: Option<Entry>, projectId: string)
    requires Resolve(root, projectId).Some? && Resolve(root, projectId).value.Dir?
    requires DistinctNames(Resolve(root, projectId).value.children)
    ensures var ss := ListSessions(root, projectId).value;
            var cs := Resolve(root, projectId).value.children;
            && (forall a, b :: 0 <= a < b < |ss| ==> ss[a].fileName != ss[b].fileName)
            && forall i :: 0 <= i < |cs| && EndsWith(cs[i].name, Suffix) ==>
                 ((exists a :: 0 <= a < |ss| && ss[a].fileName == cs[i].name)
                  <==> cs[i].entry.File? && cs[i].entry.data.access == Readable && HasDatetime(cs[i].entry.data.mtime))
  {
    var cs := Resolve(root, projectId).value.children;
    var ss := ListSessions(root, projectId).value;
    PermutedFilterMapKeyedOnce(cs, SessionOf, ss, NameOf, FileNameOf);
  }

  /** Each listed session counts the lines of its file that hold something other than whitespace. */
  lemma ListedSessionCountsTextLines(root: Option<Entry>, projectId: string, s: Session)
    requires ListSessions(root, projectId).Success?
    requires s in ListSessions(root, projectId).value
    ensures exists i :: 0 <= i < |Resolve(root, projectId).value.children|
              && var c := Resolve(root, projectId).value.children[i];
                 && c.name == s.fileName && c.entry.File?
                 && s.messageCount == |TextLines(c.entry.data.lines)|
                 && s.fileSize == c.entry.data.size && s.modifiedTime == c.entry.data.mtime
                 && HasDatetime(s.modifiedTime)
  {
    var cs := Resolve(root, projectId).value.children;
    var i := ListedSessionSource(root, projectId, s);
  }

  /**
   Re-appending `.jsonl` to a session id gives back the file name exactly
   when `.jsonl` occurs in the name only as its suffix.
   */
  lemma SessionIdRoundTrip(fileName: string)
    requires EndsWith(fileName, Suffix)
    ensures SessionId(fileName) + Suffix == fileName
            <==> !Contains(fileName[..|fileName| - |Suffix|], Suffix)
  {
    var base := fileName[..|fileName| - |Suffix|];
    assert fileName == base + Suffix;
    SuffixIsUnbordered();
    ReplaceAppended(base, Suffix, "");
    ReplaceAbsent(base, Suffix, "");
    RemoveShortens(base, Suffix);
  }

  /** `.` appears in `.jsonl` only at its start, so two occurrences can never overlap. */
  lemma SuffixIsUnbordered()
    ensures Unbordered(Suffix)
  {
    forall k | 0 < k < |Suffix|
      ensures Suffix[k..] != Suffix[..|Suffix| - k]
    {
      assert Suffix[k..][0] != '.';
    }
  }

  // ---------------------------------------------------------------------------
  // parse_session

  /** The entry at `<root>/<projectId>/<sessionId>.jsonl`, if any. */
  function SessionEntry(root: Option<Entry>, projectId: string, sessionId: string): Option<Entry> {
    Resolve(Resolve(root, projectId), sessionId + Suffix)
  }

  /**
   `parse_session`: a session file that does not exist gives no records; a
   directory or an unreadable file makes `open` raise; otherwise the records
   of the lines that decode, in file order.
   */
  function ParseSession(root: Option<Entry>, projectId: string, sessionId: string, decode: Decoder)
    : (r: Result<seq<Json>, FsError>)
    ensures var e := SessionEntry(root, projectId, sessionId);
            && (!Exists(e) ==> r == Success([]))
            && (Exists(e) && e.value.Dir? ==> r == Failure(IsADirectory))
            && (Exists(e) && e.value.File? && e.value.data.access == ReadFails ==> r == Failure(ReadError))
            && (Exists(e) && e.value.File? && e.value.data.access == Readable ==> r == Success(ParseLines(e.value.data.lines, decode)))
  {
    var e := SessionEntry(root, projectId, sessionId);
    if !Exists(e) then Success([])
    else match e.value
      case Dir(_) => Failure(IsADirectory)
      case File(d) =>
        if d.access == ReadFails then Failure(ReadError)
        else Success(ParseLines(d.lines, decode))
  }

  /**
   A listed session whose file name holds `.jsonl` only as its suffix is
   found again by `parse_session` under its id: the call returns the
   decodable lines of that very file, never more records than the
   session's message count.
   */
  lemma ListedSessionParsesItsOwnFile(root: Option<Entry>, projectId: string, s: Session, decode: Decoder)
    requires ListSessions(root, projectId).Success?
    requires s in ListSessions(root, projectId).value
    requires DistinctNames(Resolve(root, projectId).value.children)
    requires !Contains(s.fileName[..|s.fileName| - |Suffix|], Suffix)
    requires RejectsEmpty(decode)
    ensures ParseSession(root, projectId, s.id, decode).Success?
    ensures |ParseSession(root, projectId, s.id, decode).value| <= s.messageCount
    ensures exists i :: 0 <= i < |Resolve(root, projectId).value.children|
              && var c := Resolve(root, projectId).value.children[i];
                 && c.name == s.fileName && c.entry.File?
                 && ParseSession(root, projectId, s.id, decode).value == ParseLines(c.entry.data.lines, decode)
  {
    var i := ListedSessionSource(root, projectId, s);
    SourceFileParses(root, projectId, i, s, decode);
  }

  /** `ListedSessionParsesItsOwnFile` for the `i`-th entry of the project directory. */
  lemma SourceFileParses(root: Option<Entry>, projectId: string, i: int, s: Session, decode: Decoder)
    requires Resolve(root, projectId).Some? && Resolve(root, projectId).value.Dir?
    requires DistinctNames(Resolve(root, projectId).value.children)
    requires 0 <= i < |Resolve(root, projectId).value.children|
    requires SessionOf(Resolve(root, projectId).value.children[i]) == Some(s)
    requires !Contains(s.fileName[..|s.fileName| - |Suffix|], Suffix)
    requires RejectsEmpty(decode)
    ensures ParseSession(root, projectId, s.id, decode).Success?
    ensures |ParseSession(root, projectId, s.id, decode).value| <= s.messageCount
    ensures exists i :: 0 <= i < |Resolve(root, projectId).value.children|
              && var c := Resolve(root, projectId).value.children[i];
                 && c.name == s.fileName && c.entry.File?
                 && ParseSession(root, projectId, s.id, decode).value == ParseLines(c.entry.data.lines, decode)
  {
    var cs := Resolve(root, projectId).value.children;
    SourceEntryParses(root, projectId, i, s, decode);
    ParsedAtMostMessageCount(cs[i].entry.data.lines, decode);
  }

  /** `parse_session` under the id of the session built from the `i`-th entry reads that entry. */
  lemma SourceEntryParses(root: Option<Entry>, projectId: string, i: int, s: Session, decode: Decoder)
    requires Resolve(root, projectId).Some? && Resolve(root, projectId).value.Dir?
    requires DistinctNames(Resolve(root, projectId).value.children)
    requires 0 <= i < |Resolve(root, projectId).value.children|
    requires SessionOf(Resolve(root, projectId).value.children[i]) == Some(s)
    requires !Contains(s.fileName[..|s.fileName| - |Suffix|], Suffix)
    ensures var c := Resolve(root, projectId).value.children[i];
            && c.name == s.fileName && c.entry.File?
            && s.messageCount == MessageCount(c.entry.data.lines)
            && ParseSession(root, projectId, s.id, decode) == Success(ParseLines(c.entry.data.lines, decode))
  {
    var c := Resolve(root, projectId).value.children[i];
    SessionOfFile(c, s);
    ListedIdResolves(root, projectId, i, s);
    ReadableSessionParses(root, projectId, s.id, c.entry, decode);
  }

  /** The id of the session built from the `i`-th entry leads `parse_session` back to that entry. */
  lemma ListedIdResolves(root: Option<Entry>, projectId: string, i: int, s: Session)
    requires Resolve(root, projectId).Some? && Resolve(root, projectId).value.Dir?
    requires DistinctNames(Resolve(root, projectId).value.children)
    requires 0 <= i < |Resolve(root, projectId).value.children|
    requires Resolve(root, projectId).value.children[i].name == s.fileName
    requires EndsWith(s.fileName, Suffix) && s.id == SessionId(s.fileName)
    requires !Contains(s.fileName[..|s.fileName| - |Suffix|], Suffix)
    ensures SessionEntry(root, projectId, s.id) == Some(Resolve(root, projectId).value.children[i].entry)
  {
    IdRenamesFile(s.id, s.fileName);
    ListedNameResolves(root, projectId, i, s.id);
  }

  /** In a directory with unique names, the id that names the `i`-th entry finds that entry. */
  lemma ListedNameResolves(root: Option<Entry>, projectId: string, i: int, sessionId: string)
    requires Resolve(root, projectId).Some? && Resolve(root, projectId).value.Dir?
    requires DistinctNames(Resolve(root, projectId).value.children)
    requires 0 <= i < |Resolve(root, projectId).value.children|
    requires sessionId + Suffix == Resolve(root, projectId).value.children[i].name
    ensures SessionEntry(root, projectId, sessionId) == Some(Resolve(root, projectId).value.children[i].entry)
  {
  }

  /** `parse_session` on a readable file returns the records of its decodable lines. */
  lemma ReadableSessionParses(root: Option<Entry>, projectId: string, sessionId: string, e: Entry, decode: Decoder)
    requires SessionEntry(root, projectId, sessionId) == Some(e)
    requires e.File? && e.data.access == Readable
    ensures ParseSession(root, projectId, sessionId, decode) == Success(ParseLines(e.data.lines, decode))
  {
  }

  /** What a session record says about the entry it was built from. */
  lemma SessionOfFile(c: Child, s: Session)
    requires SessionOf(c) == Some(s)
    ensures c.name == s.fileName && c.entry.File? && c.entry.data.access == Readable
    ensures s.id == SessionId(s.fileName) && EndsWith(s.fileName, Suffix)
    ensures s.messageCount == MessageCount(c.entry.data.lines)
  {
  }

  /** With `.jsonl` only as its suffix, the id names the file again. */
  lemma IdRenamesFile(id: string, fileName: string)
    requires EndsWith(fileName, Suffix) && id == SessionId(fileName)
    requires !Contains(fileName[..|fileName| - |Suffix|], Suffix)
    ensures id + Suffix == fileName
  {
    SessionIdRoundTrip(fileName);
  }

  /** The project entry a listed session was built from. */
  lemma ListedSessionSource(root: Option<Entry>, projectId: string, s: Session) returns (i: int)
    requires ListSessions(root, projectId).Success?
    requires s in ListSessions(root, projectId).value
    ensures Resolve(root, projectId).Some? && Resolve(root, projectId).value.Dir?
    ensures 0 <= i < |Resolve(root, projectId).value.children|
    ensures SessionOf(Resolve(root, projectId).value.children[i]) == Some(s)
  {
    var cs := Resolve(root, projectId).value.children;
    assert s in multiset(FilterMap(cs, SessionOf));
    FilterMapSource(cs, SessionOf, s);
    i :| 0 <= i < |cs| && SessionOf(cs[i]) == Some(s);
  }
}

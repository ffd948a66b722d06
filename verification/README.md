# ClaudeProjectManager, modelled in Dafny

`ClaudeProjectManager` is the read side of a local store of agent
conversation logs. One root directory holds one sub-directory per project. A
project directory is named after the project's absolute path with every `/`
written as `-`. Each `.jsonl` file inside a project directory is one session,
holding one JSON record per line. The manager has four operations:

- `decode_project_path` turns a directory name back into a display name.
- `get_projects` lists the project directories with their `.jsonl` names,
  sorted by display name.
- `get_project_sessions` builds one record per readable `.jsonl` file: its id,
  its count of non-blank lines, its size and its modification time. The list
  is sorted newest first.
- `parse_session` returns, in file order, the records of the lines that
  decode as JSON.

The model is functional. The filesystem is an immutable tree (`FileSystem`): a
directory is its listing, in `os.listdir` order, and a file is its text lines,
its size, its modification time and an access flag. A file may be readable,
may fail on `os.stat`, or may be statted but fail when opened and read as
UTF-8. An exception that escapes an operation is a `Failure` result. One that
the operation catches becomes a skipped entry or a skipped line. `json.loads`
is a `Decoder` parameter: a total function that returns `None` where
`json.loads` raises `JSONDecodeError`. The only thing assumed about it is that
it rejects the empty text. The other exceptions `json.loads` can raise are
listed under "Left out".

Modules:

- `Wrappers`: `Option` and `Result`.
- `PyStr`: the Python string operations the code relies on. They are
  `startswith`, `endswith`, `in`, `rfind`, a faithful `str.replace`,
  `str.strip` over Python's full whitespace set, and the code-point order
  that `<` uses on strings.
- `Sequences`: generic counting and filtering (`CountWhere`, `FilterMap`)
  with facts about subsequences, concatenation, permutations and uniqueness.
- `Sorting`: `SortBy`, the stable insertion sort standing for `sorted`.
- `FileSystem`: entries, `os.path.exists`, and directory lookup for
  `os.path.join`.
- `Json`: JSON values and the decoder type.
- `PathCodec`: `decode_project_path`.
- `SessionFile`: counting the message lines of a session file and parsing it.
- `ProjectManager`: `get_projects`, `get_project_sessions` and `parse_session`,
  and the properties that relate them.

One might expect a session id to round-trip to its file name by re-appending
the suffix. The code does not guarantee that. It computes the id
with `filename.replace('.jsonl', '')`, which removes every occurrence of
`.jsonl`, so `a.jsonl.jsonl` gets the id `a`. The
model follows the code. `SessionIdRoundTrip` proves that re-appending `.jsonl`
gives back the file name exactly when `.jsonl` does not occur earlier in the
name. `ListedSessionParsesItsOwnFile` states the round trip between the
session list and `parse_session` under that condition.

## Model

| member | source | states |
|---|---|---|
| PathCodec.DecodeProjectPath | app.py:13-20 | A key that does not start with `-` is returned unchanged. |
| PathCodec.DecodeIsLastSegment | app.py:16-19 | For a key that starts with `-`, the display name is a proper suffix of the key. It follows a `-` or `/` and contains neither character. A key that also ends with `-`, including the key `-` itself, gives the empty name. |
| PathCodec.DecodeIsTextAfterLastDash | app.py:16-19 | For a key that starts with `-` and contains no `/` (as any directory name does), the display name is exactly the text after the key's last `-`. |
| PathCodec.SlashedBasename | app.py:17-19 | Writing every `-` as `/` and then taking the basename keeps exactly the text after the last `-` or `/`. |
| PathCodec.Basename | app.py:19 | `os.path.basename` returns a suffix of the path that holds no `/`. It is either the whole path or preceded by a `/`. |
| PyStr.ReplaceAll | app.py:68 | `str.replace` never lengthens a string when the replacement is no longer than the pattern, keeps the length when both are equally long, and leaves a string shorter than the pattern alone. |
| PyStr.RFind | app.py:19 | Returns the index of the last occurrence of the character, or -1 when there is none. |
| PyStr.ReplaceCharPointwise | app.py:17 | Replacing one character by one character keeps the length and maps each position independently. |
| PyStr.ReplaceAbsent | app.py:68 | `replace` leaves a string that does not contain the pattern unchanged. |
| PyStr.RemoveShortens | app.py:68 | Removing a pattern never lengthens a string. It shortens it exactly when the pattern occurs. |
| PyStr.ReplaceAppended | app.py:68 | For a pattern whose occurrences cannot overlap, an appended copy of the pattern is replaced on its own. No occurrence straddles the join. |
| PyStr.Strip | app.py:65 | `strip()` removes only whitespace, and only from the two ends. The result neither starts nor ends with whitespace, and it is empty exactly when the line is all whitespace. |
| PyStr.LexLtIrreflexive | app.py:43 | No string sorts before itself. |
| PyStr.LexLtTransitive | app.py:43 | The string order `<` is transitive. |
| PyStr.LexLtTotal | app.py:43 | Any two different strings are ordered one way or the other. |
| PyStr.LexLtIsFirstDifference | app.py:43 | `a < b` on strings holds exactly when `a` is a proper prefix of `b`, or when `a` has the smaller code point at the first position where the two differ. |
| Sorting.SortBy | app.py:43 | `sorted` returns a permutation of its input. Under a strict order, no element comes after one that sorts after it. |
| Sorting.InsertKeepsSorted | app.py:43 | Inserting into a sorted sequence keeps it sorted. |
| Sorting.InsertTies | app.py:43 | Inserting into a sorted sequence places the new element after every element that sorts as equal to it. |
| Sorting.SortByIsStable | app.py:43 | `sorted` is stable: for an order that compares through a key, the elements that sort as equal to any given one come out in their input order. |
| Sequences.FilterMapIsSubsequence | app.py:32-33 | A filter-and-map keeps, in order, exactly the values produced at the positions where the function yields one. |
| Sequences.FilterMapCountsAccepted | app.py:32-33 | A filter-and-map yields one value per accepted element. |
| Sequences.PermutedFilterMapKeyedOnce | app.py:28-43 | If input names are unique and each kept value carries its element's name, then a reordering of the kept values lists each accepted element exactly once and no other. |
| FileSystem.Lookup | app.py:29 | Looking up a name in a listing finds nothing exactly when no entry has that name. Anything it finds is an entry of that name. With unique names, it finds exactly that entry. |
| FileSystem.Resolve | app.py:47 | Joining a name below a path finds something only when the path is a directory, and then it is that directory's lookup. |
| ProjectManager.ProjectOf | app.py:30-41 | A root entry gives a project exactly when it is a directory whose name does not start with `.`. The project is named after the entry, keeps the record invariant, and lists that directory's `.jsonl` names in listing order. |
| ProjectManager.NameBeforeComparesNames | app.py:43 | Two projects sort as equal by name exactly when their names are equal, so the name order compares through a key. |
| ProjectManager.ListProjects | app.py:22-43 | A missing root gives no projects. A root that is a regular file makes `os.listdir` raise. A directory root gives a list sorted ascending by display name, and every project in it keeps the record invariant: `id` and `encoded_path` are the entry name, the name does not start with `.`, `name` is the decoded key, `session_count` is the number of session names, and every session name ends in `.jsonl`. |
| ProjectManager.ProjectsHoldInvariant | app.py:30-41 | Every project built from the root listing keeps the record invariant. |
| ProjectManager.SortedByNameAscending | app.py:43 | A list sorted by the `<` order on names is ascending by name. |
| ProjectManager.ListProjectsIsPermutation | app.py:28-43 | The project list is a reordering of the records of the qualifying root entries. Nothing is dropped or added. |
| ProjectManager.ListProjectsKeepsListingOrderOfEqualNames | app.py:28-43 | Projects with the same display name appear in the order in which their directories are listed. |
| ProjectManager.ListProjectsListsEachDirectoryOnce | app.py:28-41 | With unique entry names, no two projects share an id. A root entry appears as a project exactly when it is a directory whose name does not start with `.`. |
| ProjectManager.ProjectSessionsAreSuffixedNames | app.py:32-40 | A project's sessions are the `.jsonl` names of its own directory, in listing order, whatever they name. |
| ProjectManager.SessionId | app.py:68 | The id is never longer than the file name. It is shorter exactly when `.jsonl` occurs in the name, and a name without `.jsonl` is its own id. |
| ProjectManager.SessionOf | app.py:53-77 | A listed name gives a session exactly when it ends in `.jsonl`, names a readable regular file, and has a modification time that `datetime.fromtimestamp` accepts. The session carries that name, its id, the number of the file's lines holding a non-whitespace character, and the file's size and time. |
| ProjectManager.ListSessions | app.py:45-82 | A missing project gives no sessions. A project path that names a regular file makes `os.listdir` raise. Otherwise the list is sorted newest first, every file name in it ends in `.jsonl`, and every id is that name with every `.jsonl` removed. |
| ProjectManager.SessionsNamedBySuffix | app.py:53-71 | Every session built from a listing has a `.jsonl` file name, and its id is that name with `.jsonl` removed everywhere. |
| ProjectManager.ListSessionsIsPermutation | app.py:51-82 | The session list is a reordering of the records of the project's readable `.jsonl` files. |
| ProjectManager.ListSessionsKeepsListingOrderOfEqualTimes | app.py:51-82 | Sessions with the same modification time appear in the order in which their files are listed. |
| ProjectManager.ListSessionsListsEachReadableFileOnce | app.py:52-80 | With unique entry names, no two sessions share a file name. A `.jsonl` entry appears exactly when it is a readable regular file whose modification time `datetime.fromtimestamp` accepts, so entries whose stat, time conversion or read fails, and directories, are skipped. |
| ProjectManager.ListedSessionCountsTextLines | app.py:57-66 | Each listed session comes from an entry of the same name. Its message count is the number of that file's lines holding a non-whitespace character, its size and time are the file's, and the time lies in the range `datetime` accepts. |
| ProjectManager.SessionIdRoundTrip | app.py:68 | Re-appending `.jsonl` to a session id gives back the file name exactly when `.jsonl` does not occur in the name before its suffix. |
| ProjectManager.ParseSession | app.py:84-101 | A missing session file gives no records. A directory, or a file that cannot be read, makes `open` raise. A readable file gives the parse of its lines. |
| ProjectManager.ReadableSessionParses | app.py:89-101 | For a readable file, `parse_session` returns the records of its decodable lines. |
| ProjectManager.ListedNameResolves | app.py:86-87 | In a directory with unique names, the id whose `.jsonl` name is a listed entry finds exactly that entry. |
| ProjectManager.ListedSessionParsesItsOwnFile | app.py:45-101 | A listed session whose name holds `.jsonl` only as its suffix is found again by `parse_session` under its id. The call returns the decodable lines of that same file and never more records than the session's message count. |
| SessionFile.MessageCount | app.py:62-66 | The message count is the number of lines that hold a non-whitespace character. |
| SessionFile.ParseLines | app.py:92-99 | There is one record for each line whose stripped text decodes. |
| SessionFile.ParseLinesIsDecodedSubsequence | app.py:92-99 | The records are, in file order, the decodings of exactly the lines whose stripped text decodes. |
| SessionFile.ParsedCountIsDecodableLines | app.py:92-99 | The number of records equals the number of positions of lines whose stripped text decodes. |
| SessionFile.SkipsUndecodableLine | app.py:94-99 | A line that does not decode leaves no trace in the result. |
| SessionFile.KeepsDecodableLine | app.py:94-97 | A line that decodes contributes its record at its own place. |
| SessionFile.ParsedAtMostMessageCount | app.py:62-99 | A decoder that rejects the empty text never yields more records than the file has message lines. |

## Left out

- The Flask application, its routes, `render_template`, `jsonify`, the
  legacy sample endpoint and the `__main__` runner. They are HTTP glue around
  the manager.
- The module-level manager instance and the `os.path.expanduser` default
  root. The root is a parameter (`root: Option<Entry>`, where `None` means
  nothing is there).
- Real I/O. Line splitting follows Python's universal newlines, and the
  bytes are decoded as UTF-8. A file is modelled by the lines `for line in f`
  yields and by one access flag. Decoding failures are the `ReadFails` flag.
  The `print` of a skipped file is not modelled.
- Failures on directories. `os.listdir` on an unreadable project directory,
  or on the root, is not modelled. Symbolic links are not modelled either.
  Every directory can be listed.
- `os.path.join` with any id that is not a plain entry name spelled exactly as
  listed. A project id and a session file name are looked up as single names,
  by exact match, in one directory listing. So the model does not follow ids
  that contain `/`, the ids `.` and `..`, the empty id (for which
  `get_project_sessions('.')` or `get_project_sessions('')` lists the root's
  own `.jsonl` files), absolute paths, or the case-insensitive matching of some
  filesystems.
- The JSON grammar behind `json.loads`. It is the `Decoder` parameter, and
  only `RejectsEmpty` is assumed about it.
- ParseSession: only `JSONDecodeError` is caught. A line nested deeply enough
  to make `json.loads` raise `RecursionError`, or holding an integer of more
  than 4300 digits (`ValueError`), makes `parse_session` raise. The model's
  decoder is total, so it cannot raise, and the contract does not describe
  that escape.
- SessionOf: the accepted modification times are years 1 to 9999 read in UTC.
  `datetime.fromtimestamp` converts to local time, which shifts both bounds
  by the local offset, and the platform's `localtime` may reject a narrower
  range. `st_mtime` is a float. The model keeps the microsecond count that
  `fromtimestamp` rounds it to, and does not model that rounding.
- The `file_path`, `modified_time` string and `modified_display` fields of a
  session record. They are derived display values. The modification time is
  kept as an integer count of microseconds.
- Entry names that are not sequences of Unicode scalar values. `os.listdir`
  returns a name byte that is not valid UTF-8 as a lone surrogate between
  U+DC80 and U+DCFF. A Dafny `char` cannot hold a surrogate, so such names,
  and how `<` at app.py:43 orders them, are not modelled.
- ListSessions: it sorts by the modification time in microseconds, while the
  code sorts by the ISO-8601 text of the local time. That text carries the
  microseconds, and leaves them out only when they are zero, which still sorts
  it first among texts of the same second. So the two orders agree, and tie
  on the same files, as long as local time does not go backwards between the
  two times. A daylight-saving fold can order them differently.
- ListSessionsKeepsListingOrderOfEqualTimes: its ties are files with the same
  microsecond time. The code's ties are files with the same local-time text,
  which differ from those only across a daylight-saving fold.
- PyStr.ReplaceAll: it is defined for a non-empty pattern only. The code
  only replaces `-` and `.jsonl`.

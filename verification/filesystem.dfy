/**
 An immutable picture of the part of the filesystem the project manager
 reads: the projects root, the project directories inside it, and the
 session files inside those. A directory is its listing, in the order
 `os.listdir` returns it; each listed name carries the entry it names.
 */
module FileSystem {
  import opened Wrappers

  /** What the operating system lets the process do with a regular file. */
  datatype Access =
    | Readable   // `os.stat` and reading the file as UTF-8 text both succeed
    | StatFails  // `os.stat` raises, so `os.path.exists` reports the file missing
    | ReadFails  // `os.stat` succeeds but opening or decoding the file raises

  /**
   A regular file: its text lines as `for line in f` yields them, and its
   metadata. `mtime` is `st_mtime` in microseconds since the epoch, rounded
   as `datetime.fromtimestamp` rounds it, so two files have equal `mtime`
   exactly when their `datetime` values, and the ISO-8601 texts of those, are equal.
   */
  datatype FileData = FileData(lines: seq<string>, size: nat, mtime: int, access: Access)

  datatype Entry =
    | File(data: FileData)
    | Dir(children: seq<Child>)

  /** One name in a directory listing. */
  datatype Child = Child(name: string, entry: Entry)

  /** `os.path.exists`: a directory always exists; a file exists unless stat fails on it. */
  predicate Exists(e: Option<Entry>) {
    e.Some? && (e.value.Dir? || e.value.data.access != StatFails)
  }

  /** Names in a listing are unique, as they are in any real directory. */
  predicate DistinctNames(cs: seq<Child>) {
    forall i, j :: 0 <= i < j < |cs| ==> cs[i].name != cs[j].name
  }

  /** The entry a directory holds under `name`. */
  function Lookup(cs: seq<Child>, name: string): (r: Option<Entry>)
    ensures r.None? <==> forall i :: 0 <= i < |cs| ==> cs[i].name != name
    ensures r.Some? ==> exists i :: 0 <= i < |cs| && cs[i] == Child(name, r.value)
    ensures DistinctNames(cs) ==> forall i :: 0 <= i < |cs| && cs[i].name == name ==> r == Some(cs[i].entry)
  {
    if |cs| == 0 then None
    else if cs[0].name == name then Some(cs[0].entry)
    else
      var r := Lookup(cs[1..], name);
      assert r.Some? ==> exists i :: 1 <= i < |cs| && cs[i] == Child(name, r.value) by {
        if r.Some? {
          var i :| 0 <= i < |cs| - 1 && cs[1..][i] == Child(name, r.value);
          assert cs[i + 1] == Child(name, r.value);
        }
      }
      r
  }

  /** `os.path.join(dir, name)`: only an existing directory has entries below it. */
  function Resolve(dir: Option<Entry>, name: string): (r: Option<Entry>)
    ensures r.Some? ==> dir.Some? && dir.value.Dir?
    ensures dir.Some? && dir.value.Dir? ==> r == Lookup(dir.value.children, name)
  {
    if dir.Some? && dir.value.Dir? then Lookup(dir.value.children, name) else None
  }
}

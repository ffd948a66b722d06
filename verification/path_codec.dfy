/**
 Turning a project directory name back into a readable project name.
 The agent tool names each project directory after the project's absolute
 path with every `/` written as `-`, so `/Users/dev/myapp` is stored as
 `-Users-dev-myapp`. Decoding only recovers the last path segment, for display.
 */
module PathCodec {
  import opened PyStr

  /** `os.path.basename(p)` on POSIX: everything after the last `/`. */
  function Basename(p: string): (r: string)
    ensures EndsWith(p, r)
    ensures forall k :: 0 <= k < |r| ==> r[k] != '/'
    ensures r == p || p[|p| - |r| - 1] == '/'
  {
    p[RFind(p, '/') + 1..]
  }

  /** A character that ends a path segment once dashes are read as slashes. */
  predicate IsSeparator(c: char) {
    c == '-' || c == '/'
  }

  /** The index of the last `-` or `/` in `s`, or -1 when there is none. */
  function LastSeparator(s: string): (i: int)
    ensures -1 <= i < |s|
    ensures i >= 0 ==> IsSeparator(s[i])
    ensures forall k :: i < k < |s| ==> !IsSeparator(s[k])
  {
    if |s| == 0 then -1
    else if IsSeparator(s[|s| - 1]) then |s| - 1
    else LastSeparator(s[..|s| - 1])
  }

  /**
   Reading dashes as slashes and then taking the basename keeps exactly the
   text after the last dash or slash.
   */
  lemma SlashedBasename(rest: string)
    ensures Basename(ReplaceAll(rest, "-", "/")) == rest[LastSeparator(rest) + 1..]
  {
    ReplaceCharPointwise(rest, "-", "/");
    SeparatorsBecomeSlashes(rest, ReplaceAll(rest, "-", "/"));
  }

  /** `slashed` is `rest` with every separator written as `/`. */
  lemma SeparatorsBecomeSlashes(rest: string, slashed: string)
    requires |slashed| == |rest|
    requires forall k :: 0 <= k < |rest| ==> slashed[k] == if rest[k] == '-' then '/' else rest[k]
    ensures Basename(slashed) == rest[LastSeparator(rest) + 1..]
  {
    var i := RFind(slashed, '/');
    var j := LastSeparator(rest);
    assert j <= i by {
      assert j >= 0 ==> slashed[j] == '/';
    }
    assert i <= j by {
      assert i >= 0 ==> IsSeparator(rest[i]);
    }
    forall k | i < k < |rest|
      ensures slashed[k] == rest[k]
    {
      assert !IsSeparator(rest[k]);
    }
    assert slashed[i + 1..] == rest[i + 1..];
  }

  /**
   `decode_project_path`: a key that starts with `-` loses that dash, has its
   remaining dashes read as `/`, and is cut down to its last segment; any
   other key is returned unchanged.
   */
  function DecodeProjectPath(key: string): (name: string)
    ensures !StartsWith(key, "-") ==> name == key
  {
    if StartsWith(key, "-") then Basename(ReplaceAll(key[1..], "-", "/")) else key
  }

  /**
   A key that starts with `-` decodes to a proper suffix of itself that
   follows a separator and holds none; a key that also ends with `-`
   decodes to the empty name.
   */
  lemma DecodeIsLastSegment(key: string)
    requires StartsWith(key, "-")
    ensures var name := DecodeProjectPath(key);
            && |name| < |key|
            && EndsWith(key, name)
            && IsSeparator(key[|key| - |name| - 1])
            && (forall k :: 0 <= k < |name| ==> !IsSeparator(name[k]))
            && (EndsWith(key, "-") ==> name == "")
  {
    DecodedSegment(key, DecodeProjectPath(key));
  }

  /** What `DecodeProjectPath` promises for a key that starts with `-`. */
  lemma DecodedSegment(key: string, name: string)
    requires StartsWith(key, "-")
    requires name == Basename(ReplaceAll(key[1..], "-", "/"))
    ensures |name| < |key|
    ensures EndsWith(key, name)
    ensures IsSeparator(key[|key| - |name| - 1])
    ensures forall k :: 0 <= k < |name| ==> !IsSeparator(name[k])
    ensures EndsWith(key, "-") ==> name == ""
  {
    SlashedBasename(key[1..]);
    LastSegmentOfKey(key, key[1..][LastSeparator(key[1..]) + 1..]);
  }

  /** The text after the last separator of `key[1..]`, seen from the whole key. */
  lemma LastSegmentOfKey(key: string, name: string)
    requires StartsWith(key, "-")
    requires name == key[1..][LastSeparator(key[1..]) + 1..]
    ensures |name| < |key|
    ensures EndsWith(key, name)
    ensures IsSeparator(key[|key| - |name| - 1])
    ensures forall k :: 0 <= k < |name| ==> !IsSeparator(name[k])
    ensures EndsWith(key, "-") ==> name == ""
  {
    var rest := key[1..];
    var i := LastSeparator(rest);
    assert name == key[i + 2..];
    assert key[0] == '-' by { assert key[..1] == "-"; }
    assert key[|key| - |name| - 1] == key[i + 1];
    assert |name| > 0 ==> name[|name| - 1] == key[|key| - 1];
  }

  /**
   For a key that contains no `/` (every real directory name), the display
   name is exactly the text after the last `-`.
   */
  lemma DecodeIsTextAfterLastDash(key: string)
    requires StartsWith(key, "-")
    requires forall k :: 0 <= k < |key| ==> key[k] != '/'
    ensures DecodeProjectPath(key) == key[RFind(key, '-') + 1..]
  {
    SlashedBasename(key[1..]);
    LastSeparatorIsLastDash(key);
  }

  lemma LastSeparatorIsLastDash(key: string)
    requires StartsWith(key, "-")
    requires forall k :: 0 <= k < |key| ==> key[k] != '/'
    ensures key[1..][LastSeparator(key[1..]) + 1..] == key[RFind(key, '-') + 1..]
  {
    var rest := key[1..];
    var j := LastSeparator(rest);
    NoSlashAfterFirst(key);
    LastSeparatorWithoutSlash(rest);
    RFindAfterLeadingDash(key);
    assert rest[j + 1..] == key[j + 2..];
  }

  lemma NoSlashAfterFirst(key: string)
    requires |key| > 0
    requires forall k :: 0 <= k < |key| ==> key[k] != '/'
    ensures forall k :: 0 <= k < |key[1..]| ==> key[1..][k] != '/'
  {
    forall k | 0 <= k < |key[1..]|
      ensures key[1..][k] != '/'
    {
      assert key[1..][k] == key[k + 1];
    }
  }

  /** Without any `/`, the last separator is the last dash. */
  lemma {:induction false} LastSeparatorWithoutSlash(s: string)
    requires forall k :: 0 <= k < |s| ==> s[k] != '/'
    ensures LastSeparator(s) == RFind(s, '-')
  {
    if |s| > 0 {
      LastSeparatorWithoutSlash(s[..|s| - 1]);
    }
  }

  /** Dropping a leading dash shifts the position of the last dash by one. */
  lemma {:induction false} RFindAfterLeadingDash(key: string)
    requires StartsWith(key, "-")
    ensures RFind(key, '-') == 1 + RFind(key[1..], '-')
  {
    var n := |key| - 1;
    assert key[0] == '-' by { assert key[..1] == "-"; }
    if n > 0 && key[n] != '-' {
      assert key[..n][..1] == "-";
      assert key[1..][..n - 1] == key[..n][1..];
      RFindAfterLeadingDash(key[..n]);
    }
  }
}

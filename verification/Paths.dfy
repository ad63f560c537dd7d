// Member names and output paths of src/zip.c: the scan of a stored name, the path
// buffer that keeps the output directory between members, and parent lengths.
module Paths {
  import opened Bytes

  const SLASH: byte := 0x2F
  const BACKSLASH: byte := 0x5C
  const DOT: byte := 0x2E
  const COLON: byte := 0x3A
  const STACK_SIZE: nat := 512

  predicate IsZipSep(c: byte) {
    c == SLASH || c == BACKSLASH
  }

  predicate IsAlpha(c: byte) {
    0x41 <= c <= 0x5A || 0x61 <= c <= 0x7A
  }

  /** A control character or one of < > | and the double quote. */
  predicate IsForbidden(c: byte) {
    c < 32 || c == 0x3C || c == 0x3E || c == 0x7C || c == 0x22
  }

  // ---------------------------------------------------------------- specification

  /** The name with every separator written as a slash. */
  function Normalised(name: seq<byte>): (s: seq<byte>)
    ensures |s| == |name|
  {
    seq(|name|, i requires 0 <= i < |name| => if IsZipSep(name[i]) then SLASH else name[i])
  }

  /** The position of the last slash. */
  function LastSlash(s: seq<byte>): (r: Option<nat>)
    ensures r.Some? ==> r.value < |s| && s[r.value] == SLASH && forall k :: r.value < k < |s| ==> s[k] != SLASH
    ensures r.None? ==> forall k :: 0 <= k < |s| ==> s[k] != SLASH
  {
    if s == [] then None
    else if s[|s| - 1] == SLASH then Some(|s| - 1)
    else LastSlash(s[..|s| - 1])
  }

  /** A whole segment ".." of the slash-separated string s starts at i. */
  predicate DotDotAt(s: seq<byte>, i: nat) {
    && i + 2 <= |s|
    && s[i] == DOT && s[i + 1] == DOT
    && (i == 0 || s[i - 1] == SLASH)
    && (i + 2 == |s| || s[i + 2] == SLASH)
  }

  ghost predicate NoDotDot(s: seq<byte>) {
    forall i: nat :: !DotDotAt(s, i)
  }

  /** A name that may be joined to the output directory. */
  ghost predicate Safe(name: seq<byte>) {
    && name != [] && !IsZipSep(name[0])
    && !(|name| > 1 && IsAlpha(name[0]) && name[1] == COLON)
    && (forall c <- name :: !IsForbidden(c))
    && NoDotDot(Normalised(name))
  }

  /** The directory, ended with a slash unless it is empty. */
  function WithSlash(dir: seq<byte>): seq<byte> {
    if dir != [] && dir[|dir| - 1] != SLASH then dir + [SLASH] else dir
  }

  function Joined(dir: seq<byte>, name: seq<byte>): seq<byte> {
    WithSlash(dir) + Normalised(name)
  }

  /** A buffer as a C string: everything before the first zero byte. */
  function Text(data: seq<byte>): seq<byte> {
    if data == [] || data[0] == 0 then [] else [data[0]] + Text(data[1..])
  }

  // ---------------------------------------------------------------- the scan of a name

  datatype Facts = Facts(safe: bool, hasBackslash: bool, parentLen: nat)

  /** What holds of a name after its scan: its safety, its spelling, and the length of its parent, which is 0
      both without a separator and with none after the first byte. */
  ghost predicate Describes(facts: Facts, name: seq<byte>) {
    && (facts.safe <==> Safe(name))
    && (facts.hasBackslash <==> BACKSLASH in name)
    && facts.parentLen == LastSlash(Normalised(name)).GetOr(0)
  }

  /** The segment name[seg..end] is "..". */
  predicate IsDotDot(name: seq<byte>, seg: nat, end: nat)
    requires seg <= end <= |name|
  {
    end - seg == 2 && name[seg] == DOT && name[seg + 1] == DOT
  }

  /** The segments of name[..i] that have ended hold no "..", and the open one starts at seg. */
  ghost predicate Scanned(name: seq<byte>, i: nat, seg: nat, clean: bool) {
    && seg <= i <= |name|
    && (seg == 0 || IsZipSep(name[seg - 1]))
    && (forall k :: seg <= k < i ==> !IsZipSep(name[k]))
    && (clean <==> forall k: nat :: k < seg ==> !DotDotAt(Normalised(name), k))
  }

  lemma SegmentEnds(name: seq<byte>, i: nat, seg: nat, clean: bool)
    requires Scanned(name, i, seg, clean) && (i == |name| || IsZipSep(name[i]))
    ensures i < |name| ==> Scanned(name, i + 1, i + 1, clean && !IsDotDot(name, seg, i))
    ensures i == |name| ==> (clean && !IsDotDot(name, seg, i) <==> NoDotDot(Normalised(name)))
  {
    var s := Normalised(name);
    assert DotDotAt(s, seg) <==> IsDotDot(name, seg, i) by {
      assert i < |name| ==> s[i] == SLASH;
    }
    forall k: nat | seg < k <= i
      ensures !DotDotAt(s, k)
    {
      assert !IsZipSep(name[k - 1]);
    }
    if i == |name| {
      assert forall k: nat :: i < k ==> !DotDotAt(s, k);
    }
  }

  lemma LastSlashStep(name: seq<byte>, i: nat)
    requires i < |name|
    ensures LastSlash(Normalised(name[..i + 1]))
         == if IsZipSep(name[i]) then Some(i) else LastSlash(Normalised(name[..i]))
  {
    assert Normalised(name[..i + 1])[..i] == Normalised(name[..i]);
  }

  /** scan_member_name: refuses a name with a zero byte and describes every other one. Stored names have
      16-bit lengths, so the parent length is not cut off. */
  method ScanMemberName(name: seq<byte>) returns (r: Option<Facts>)
    requires |name| < 0x1_0000
    ensures r.None? <==> 0 in name
    ensures r.Some? ==> Describes(r.value, name)
  {
    hide DotDotAt, IsDotDot, LastSlash;
    var isSafe := |name| > 0 && !IsZipSep(name[0]);
    if |name| > 1 && IsAlpha(name[0]) && name[1] == COLON {
      isSafe := false;
    }
    ghost var first := isSafe;
    var hasBackslash, seg, parent, clean, allowed := false, 0, 0, true, true;
    assert name[..0] == [];
    for i := 0 to |name|
      invariant 0 !in name[..i]
      invariant Scanned(name, i, seg, clean)
      invariant hasBackslash <==> BACKSLASH in name[..i]
      invariant allowed <==> forall c <- name[..i] :: !IsForbidden(c)
      invariant isSafe <==> first && clean && allowed
      invariant parent == LastSlash(Normalised(name[..i])).GetOr(0) <= i
    {
      var c := name[i];
      assert name[..i + 1] == name[..i] + [c];
      if c == 0 {
        return None;
      }
      if IsForbidden(c) {
        isSafe, allowed := false, false;
      }
      if c == BACKSLASH {
        hasBackslash := true;
      }
      LastSlashStep(name, i);
      if IsZipSep(c) {
        SegmentEnds(name, i, seg, clean);
        parent := i;
        if IsDotDot(name, seg, i) {
          isSafe, clean := false, false;
        }
        seg := i + 1;
      }
    }
    assert name[..|name|] == name;
    SegmentEnds(name, |name|, seg, clean);
    if IsDotDot(name, seg, |name|) {
      isSafe := false;
    }
    r := Some(Facts(isSafe, hasBackslash, if parent > 0xFFFF then 0xFFFF else parent));
  }

  // ---------------------------------------------------------------- the path buffer

  /** Copies a directory to the start and ends it with a slash. */
  method PutDir(a: array<byte>, dir: seq<byte>) returns (n: nat)
    requires |dir| + 1 <= a.Length
    modifies a
    ensures n == |WithSlash(dir)| && a[..n] == WithSlash(dir)
    ensures a[..|dir|] == dir
  {
    Store(a, 0, dir);
    assert a[..|dir|] == a[0..|dir|] == dir;
    n := |dir|;
    if n > 0 && dir[n - 1] != SLASH {
      a[n] := SLASH;
      n := n + 1;
    }
  }

  /** Writes a name at offset at, with normalised separators, and ends the string. */
  method PutName(a: array<byte>, at: nat, name: seq<byte>, hasBackslash: bool)
    requires at + |name| < a.Length
    requires hasBackslash <==> BACKSLASH in name
    modifies a
    ensures a[..at] == old(a[..at])
    ensures a[at..at + |name|] == Normalised(name) && a[at + |name|] == 0
  {
    if hasBackslash {
      for i := 0 to |name|
        invariant forall k :: 0 <= k < i ==> a[at + k] == Normalised(name)[k]
        invariant a[..at] == old(a[..at])
      {
        a[at + i] := if IsZipSep(name[i]) then SLASH else name[i];
      }
    } else {
      Store(a, at, name);
      assert Normalised(name) == name;
    }
    a[at + |name|] := 0;
  }

  lemma NoZeroJoined(dir: seq<byte>, name: seq<byte>)
    requires 0 !in dir && 0 !in name
    ensures 0 !in Joined(dir, name)
  {
  }

  lemma {:induction false} TextEnds(s: seq<byte>, rest: seq<byte>)
    requires 0 !in s && rest != [] && rest[0] == 0
    ensures Text(s + rest) == s
    decreases |s|
  {
    if s == [] {
      assert s + rest == rest;
    } else {
      assert s[0] in s;
      assert (s + rest)[1..] == s[1..] + rest;
      TextEnds(s[1..], rest);
    }
  }

  /** A buffer that starts with prefix, name and a zero byte is the joined path. */
  lemma TextOfBuffer(data: seq<byte>, dir: seq<byte>, name: seq<byte>)
    requires 0 !in dir && 0 !in name
    requires var p := |WithSlash(dir)|;
             && p + |name| < |data| && data[..p] == WithSlash(dir)
             && data[p..p + |name|] == Normalised(name) && data[p + |name|] == 0
    ensures Text(data) == Joined(dir, name)
  {
    hide Text, WithSlash, Normalised;
    var p, n := |WithSlash(dir)|, |WithSlash(dir)| + |name|;
    assert data[..n] == data[..p] + data[p..n];
    NoZeroJoined(dir, name);
    assert data == data[..n] + data[n..];
    TextEnds(data[..n], data[n..]);
  }

  /** path_buf_t and the cached prefix of an archive. */
  class PathBuffer {
    var data: array<byte>
    var prefixValid: bool
    var prefixDirLen: nat
    var prefixLen: nat

    /** The buffer still starts with the directory that was cached. */
    ghost predicate Valid()
      reads this, data
    {
      prefixValid ==>
        && prefixDirLen <= prefixLen <= data.Length
        && data[..prefixLen] == WithSlash(data[..prefixDirLen])
    }

    constructor ()
      ensures Valid() && fresh(data)
    {
      data := new byte[0];
      prefixValid, prefixDirLen, prefixLen := false, 0, 0;
    }

    /** path_buf_reserve: makes room for n bytes and keeps the contents. */
    method Reserve(n: nat)
      modifies this`data
      ensures data.Length >= n && data.Length >= old(data.Length)
      ensures data == old(data) || fresh(data)
      ensures data[..old(data.Length)] == old(data[..])
    {
      if n <= data.Length {
        return;
      }
      var cap := if data.Length > 0 then data.Length else STACK_SIZE;
      while cap < n
        invariant cap > 0 && cap >= data.Length
        decreases n - cap
      {
        cap := cap * 2;
      }
      var grown := new byte[cap];
      for i := 0 to data.Length
        invariant data == old(data) && fresh(grown)
        invariant forall k :: 0 <= k < i ==> grown[k] == data[k]
      {
        grown[i] := data[i];
      }
      data := grown;
    }

    /** path_buf_set_archive_dir: keeps the prefix that is already there for the same directory. */
    method SetArchiveDir(dir: seq<byte>) returns (length: nat)
      requires Valid()
      modifies this, data
      ensures Valid() && prefixValid && (data == old(data) || fresh(data))
      ensures length == prefixLen == |WithSlash(dir)| && data[..prefixLen] == WithSlash(dir)
    {
      var dirLen := |dir|;
      if prefixValid && prefixDirLen == dirLen && data[..dirLen] == dir {
        return prefixLen;
      }
      Reserve(dirLen + 2);
      length := PutDir(data, dir);
      data[length] := 0;
      assert data[..|dir|] == dir;
      prefixDirLen, prefixLen, prefixValid := dirLen, length, true;
    }

    /** path_buf_append_name: writes the name behind the prefix and ends the string. */
    method AppendName(prefix: nat, name: seq<byte>, hasBackslash: bool)
      requires Valid() && prefixValid && prefix == prefixLen
      requires hasBackslash <==> BACKSLASH in name
      modifies this`data, data
      ensures Valid() && (data == old(data) || fresh(data))
      ensures data[..prefix] == old(data[..prefix])
      ensures prefix + |name| < data.Length && data[prefix + |name|] == 0
      ensures data[prefix..prefix + |name|] == Normalised(name)
    {
      Reserve(prefix + |name| + 1);
      assert data[..prefix] == old(data[..prefix]);
      PutName(data, prefix, name, hasBackslash);
      assert data[..prefixDirLen] == old(data[..prefixDirLen]);
    }

    /** The path of one member: whatever directories and names went before, what the buffer holds as a
        string is the path built from scratch. */
    method EntryPath(dir: seq<byte>, name: seq<byte>, facts: Facts)
      requires Valid() && 0 !in dir && 0 !in name && Describes(facts, name)
      modifies this, data
      ensures Valid() && (data == old(data) || fresh(data))
      ensures Text(data[..]) == Joined(dir, name)
    {
      hide Text, LastSlash, WithSlash, Normalised;
      var prefix := SetArchiveDir(dir);
      AppendName(prefix, name, facts.hasBackslash);
      TextOfBuffer(data[..], dir, name);
    }
  }

  lemma WithSlashLength(dir: seq<byte>)
    ensures |dir| <= |WithSlash(dir)| <= |dir| + 1
  {
  }

  /** extract_path_len: the same path in a new buffer. */
  method ExtractPathLen(dir: seq<byte>, name: seq<byte>) returns (path: array<byte>)
    requires 0 !in dir && 0 !in name
    ensures fresh(path) && Text(path[..]) == Joined(dir, name)
  {
    hide Text, WithSlash, Normalised;
    path := new byte[|dir| + |name| + 2];
    WithSlashLength(dir);
    var dirLen := PutDir(path, dir);
    PutName(path, dirLen, name, BACKSLASH in name);
    TextOfBuffer(path[..], dir, name);
  }

  // ---------------------------------------------------------------- what a path is

  /** The path byte by byte: the directory, a slash unless it ends with one or is empty, and the name with a slash for
      either separator. No backslash is left behind the prefix. */
  lemma PathInBytes(dir: seq<byte>, name: seq<byte>, i: nat)
    requires i < |name|
    ensures var prefix := if dir == [] || dir[|dir| - 1] == 0x2F then dir else dir + [0x2F];
            var path := Joined(dir, name);
            && path[..|prefix|] == prefix && |path| == |prefix| + |name|
            && path[|prefix| + i] == (if name[i] == 0x2F || name[i] == 0x5C then 0x2F else name[i])
            && path[|prefix| + i] != 0x5C
  {
  }

  /** Two dots of the name between separators of either kind, or its ends. */
  predicate ParentAt(name: seq<byte>, i: nat) {
    && i + 2 <= |name| && name[i] == 0x2E && name[i + 1] == 0x2E
    && (i == 0 || name[i - 1] == 0x2F || name[i - 1] == 0x5C)
    && (i + 2 == |name| || name[i + 2] == 0x2F || name[i + 2] == 0x5C)
  }

  /** A name is safe exactly if it is not empty, starts with no separator and no drive letter, has no control
      character and none of < > | and the double quote, and no ".." between separators. */
  lemma SafeInBytes(name: seq<byte>)
    ensures Safe(name)
       <==> && name != [] && name[0] != 0x2F && name[0] != 0x5C
            && !(|name| > 1 && (0x41 <= name[0] <= 0x5A || 0x61 <= name[0] <= 0x7A) && name[1] == 0x3A)
            && (forall c <- name :: c >= 0x20 && c != 0x3C && c != 0x3E && c != 0x7C && c != 0x22)
            && forall i: nat :: !ParentAt(name, i)
  {
    forall i: nat
      ensures ParentAt(name, i) <==> DotDotAt(Normalised(name), i)
    {
    }
    assert (forall c <- name :: !IsForbidden(c)) <==> (forall c <- name :: c >= 0x20 && c != 0x3C && c != 0x3E && c != 0x7C && c != 0x22);
  }

  /** The path of a safe name stays under its directory: no ".." segment starts behind the prefix, and the
      name does not start a new root. */
  lemma StaysBelow(dir: seq<byte>, name: seq<byte>, i: nat)
    requires Safe(name) && |WithSlash(dir)| <= i
    ensures !DotDotAt(Joined(dir, name), i)
    ensures Joined(dir, name)[|WithSlash(dir)|] != SLASH
  {
    var p := |WithSlash(dir)|;
    if DotDotAt(Joined(dir, name), i) {
      assert DotDotAt(Normalised(name), i - p);
    }
  }

  /** extract_parent_len: from what the scan stored and the length of the prefix. */
  function ParentLen(facts: Facts, prefixLen: nat): nat {
    if facts.parentLen > 0 then prefixLen + facts.parentLen
    else if prefixLen > 1 then prefixLen - 1
    else prefixLen
  }

  /** The parent length that prepare_parent_dir finds in a whole path: 0 if there is no parent. */
  function RescannedLen(path: seq<byte>): nat {
    match LastSlash(path)
    case None => 0
    case Some(last) => if last == 0 then 1 else last
  }

  /** The loop of prepare_parent_dir. */
  method Rescan(path: seq<byte>) returns (parentLen: nat)
    ensures parentLen == RescannedLen(path)
  {
    var last: Option<nat> := None;
    assert path[..0] == [];
    for i := 0 to |path|
      invariant last == LastSlash(path[..i])
    {
      assert path[..i + 1][..i] == path[..i];
      if path[i] == SLASH {
        last := Some(i);
      }
    }
    assert path[..|path|] == path;
    if last.None? {
      return 0;
    }
    parentLen := if last.value == 0 then 1 else last.value;
  }

  lemma {:induction false} LastSlashOfConcat(a: seq<byte>, b: seq<byte>)
    ensures LastSlash(a + b) == match LastSlash(b) case Some(k) => Some(|a| + k) case None => LastSlash(a)
    decreases |b|
  {
    if b == [] {
      assert a + b == a;
    } else {
      var n := |b| - 1;
      assert (a + b)[..|a + b| - 1] == a + b[..n];
      LastSlashOfConcat(a, b[..n]);
    }
  }

  lemma PrefixEndsWithSlash(dir: seq<byte>)
    ensures LastSlash(WithSlash(dir)) == if dir == [] then None else Some(|WithSlash(dir)| - 1)
  {
  }

  lemma SafeStart(name: seq<byte>)
    requires Safe(name)
    ensures LastSlash(Normalised(name)) != Some(0)
  {
  }

  /** The parent length computed without looking at the path is the one that a scan of the whole path finds,
      except for a name whose only separator is its first byte, which no safe name has. */
  lemma ParentLenAgrees(dir: seq<byte>, name: seq<byte>, facts: Facts)
    requires Describes(facts, name)
    ensures ParentLen(facts, |WithSlash(dir)|) == RescannedLen(Joined(dir, name))
       <==> (LastSlash(Normalised(name)) != Some(0) || |WithSlash(dir)| == 1)
    ensures Safe(name) ==> LastSlash(Normalised(name)) != Some(0)
  {
    hide Safe, LastSlash;
    LastSlashOfConcat(WithSlash(dir), Normalised(name));
    PrefixEndsWithSlash(dir);
    if Safe(name) {
      SafeStart(name);
    }
  }
}

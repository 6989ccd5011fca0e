/**
 * `splitPath` of the upload script: the file name an uploaded file is
 * saved under, taken from a path in the client's own format.  The POSIX,
 * Windows and classic Mac rules are tried in that order, and the first
 * file name that differs from the whole path wins.  The three split rules
 * are those of Python's `posixpath`, `ntpath` and `macpath` modules.
 */
module PutFile {
  import opened Strings

  /** `r` is a suffix of `p`: the file name is always the end of the path. */
  predicate IsSuffix(r: string, p: string)
  {
    |r| <= |p| && r == p[|p| - |r|..]
  }

  /** `posixpath.split(p)[1]`. */
  function PosixTail(p: string): (r: string)
    ensures IsSuffix(r, p)
  {
    TailAfterLast(p, {'/'})
  }

  /** The POSIX file name is the text after the last '/', all of the path when there is none. */
  lemma PosixTailRule(p: string)
    ensures '/' !in PosixTail(p)
    ensures '/' in p ==> |PosixTail(p)| < |p| && p[|p| - |PosixTail(p)| - 1] == '/'
    ensures '/' !in p ==> PosixTail(p) == p
  {
  }

  /** `p.replace('/', '\\')`. */
  function Normalized(p: string): (r: string)
    ensures |r| == |p|
    ensures forall k :: 0 <= k < |p| ==> r[k] == (if p[k] == '/' then '\\' else p[k])
  {
    seq(|p|, k requires 0 <= k < |p| => if p[k] == '/' then '\\' else p[k])
  }

  /** `s.find('\\', start)`: the first backslash at or after `start`, or -1. */
  function FindBackslash(s: string, start: nat): (i: int)
    ensures i == -1 || (start <= i < |s| && s[i] == '\\')
    ensures i == -1 ==> forall k :: start <= k < |s| ==> s[k] != '\\'
    ensures i >= 0 ==> forall k :: start <= k < i ==> s[k] != '\\'
    decreases |s| - start
  {
    if start >= |s| then -1
    else if s[start] == '\\' then start
    else FindBackslash(s, start + 1)
  }

  /**
   * The length of the drive `ntpath.splitdrive` finds: a UNC prefix
   * `\\machine\mountpoint` (either slash), a drive letter and colon, or
   * nothing.
   */
  function DriveLength(p: string): (d: nat)
    ensures d <= |p|
  {
    if |p| < 2 then 0
    else
      var n := Normalized(p);
      if n[0] == '\\' && n[1] == '\\' && (|n| < 3 || n[2] != '\\') then
        var index := FindBackslash(n, 2);
        if index == -1 then 0
        else
          var index2 := FindBackslash(n, index + 1);
          if index2 == index + 1 then 0
          else if index2 == -1 then |p|
          else index2
      else if n[1] == ':' then 2
      else 0
  }

  /** Without a slash, a backslash or a colon in its second place, a path has no drive. */
  lemma NoDriveWithoutSeparators(p: string)
    requires '/' !in p && '\\' !in p && (|p| < 2 || p[1] != ':')
    ensures DriveLength(p) == 0
  {
    if |p| >= 2 {
      assert Normalized(p)[0] == p[0] && Normalized(p)[1] == p[1];
    }
  }

  /** A drive letter and colon, not after a slash, are a drive of two characters. */
  lemma DriveLetter(p: string)
    requires |p| >= 2 && p[1] == ':' && p[0] != '/' && p[0] != '\\'
    ensures DriveLength(p) == 2
  {
    assert Normalized(p)[0] == p[0] && Normalized(p)[1] == p[1];
  }

  /** Either slash separates a Windows path. */
  predicate IsNtSep(c: char)
  {
    c == '/' || c == '\\'
  }

  /**
   * A UNC prefix `\\machine\mountpoint` (either slash) with a non-empty
   * machine and mountpoint is the drive, up to the separator after the
   * mountpoint or the end of the path.
   */
  lemma UncDrive(p: string, host: nat, mount: nat)
    requires |p| >= 3 && IsNtSep(p[0]) && IsNtSep(p[1]) && !IsNtSep(p[2])
    requires 2 < host && host + 1 < mount <= |p| && IsNtSep(p[host])
    requires forall k :: 2 <= k < host ==> !IsNtSep(p[k])
    requires forall k :: host < k < mount ==> !IsNtSep(p[k])
    requires mount == |p| || IsNtSep(p[mount])
    ensures DriveLength(p) == mount
  {
    var n := Normalized(p);
    assert n[0] == '\\' && n[1] == '\\' && n[2] != '\\';
    assert FindBackslash(n, 2) == host;
    assert n[host + 1] != '\\';
    if mount < |p| {
      assert FindBackslash(n, host + 1) == mount;
    } else {
      assert FindBackslash(n, host + 1) == -1;
    }
  }

  /** Two leading slashes without a machine separator, or with an empty mountpoint, give no drive. */
  lemma UncIncomplete(p: string, host: nat)
    requires |p| >= 3 && IsNtSep(p[0]) && IsNtSep(p[1]) && !IsNtSep(p[2])
    requires 2 < host && forall k :: 2 <= k < host && k < |p| ==> !IsNtSep(p[k])
    requires host >= |p| || (host + 1 < |p| && IsNtSep(p[host]) && IsNtSep(p[host + 1]))
    ensures DriveLength(p) == 0
  {
    var n := Normalized(p);
    assert n[0] == '\\' && n[1] == '\\' && n[2] != '\\';
    if host >= |p| {
      assert FindBackslash(n, 2) == -1;
    } else {
      assert FindBackslash(n, 2) == host;
      assert FindBackslash(n, host + 1) == host + 1;
    }
  }

  /** `C:name` gives `name` even without a slash: the Windows rule drops the drive. */
  lemma DriveLetterNameDropsDrive(p: string)
    requires |p| >= 2 && p[1] == ':' && p[0] != '/' && p[0] != '\\'
    requires forall k :: 2 <= k < |p| ==> p[k] != '/' && p[k] != '\\'
    ensures SplitPath(p) == p[2..]
  {
    assert '/' !in p by {
      assert forall k :: 0 <= k < |p| ==> p[k] != '/';
    }
    assert PosixTail(p) == p by {
      PosixTailRule(p);
    }
    assert NtTail(p) == p[2..] by {
      DriveLetter(p);
      NtTailRule(p);
      TailOfSeparatorFree(p[2..], {'/', '\\'});
    }
  }

  /** The text after the last '/' or '\\' that follows the first `d` characters of `p`. */
  function TailAfterDrive(p: string, d: nat): (r: string)
    requires d <= |p|
    ensures IsSuffix(r, p)
    ensures '/' !in r && '\\' !in r
    ensures ('/' in p || '\\' in p) ==> |r| < |p|
  {
    var rest := p[d..];
    var r := TailAfterLast(rest, {'/', '\\'});
    assert p[|p| - |r|..] == rest[|rest| - |r|..];
    r
  }

  /** `ntpath.split(p)[1]`. */
  function NtTail(p: string): (r: string)
    ensures IsSuffix(r, p)
  {
    TailAfterDrive(p, DriveLength(p))
  }

  /**
   * The Windows file name is the text after the last '/' or '\\' that
   * follows the drive; it holds neither, and is shorter than a path that
   * holds either.
   */
  lemma NtTailRule(p: string)
    ensures NtTail(p) == TailAfterLast(p[DriveLength(p)..], {'/', '\\'})
    ensures '/' !in NtTail(p) && '\\' !in NtTail(p)
    ensures ('/' in p || '\\' in p) ==> |NtTail(p)| < |p|
  {
  }

  /** `macpath.split(p)[1]`. */
  function MacTail(p: string): (r: string)
    ensures IsSuffix(r, p)
  {
    TailAfterLast(p, {':'})
  }

  /** The Mac file name is the text after the last ':', all of the path when there is none. */
  lemma MacTailRule(p: string)
    ensures ':' !in MacTail(p)
    ensures ':' in p ==> |MacTail(p)| < |p|
    ensures ':' !in p ==> MacTail(p) == p
  {
  }

  /** `splitPath`: the first of the three file names that differs from the path, or the path itself. */
  function SplitPath(p: string): (r: string)
    ensures IsSuffix(r, p)
  {
    var posix := PosixTail(p);
    if posix != p then posix
    else
      var nt := NtTail(p);
      if nt != p then nt
      else
        var mac := MacTail(p);
        if mac != p then mac else p
  }

  /** A path with a '/' gives the text after its last '/', whatever the other rules say. */
  lemma SlashPathUsesPosix(p: string)
    requires '/' in p
    ensures SplitPath(p) == PosixTail(p)
    ensures '/' !in SplitPath(p) && |SplitPath(p)| < |p| && p[|p| - |SplitPath(p)| - 1] == '/'
  {
    assert PosixTail(p) != p by {
      PosixTailRule(p);
    }
    PosixTailRule(p);
  }

  /**
   * A Windows path with backslashes and no '/' is left whole by the POSIX
   * rule, so the Windows rule decides: a name without separators, shorter
   * than the path.
   */
  lemma BackslashPathUsesNt(p: string)
    requires '/' !in p && '\\' in p
    ensures SplitPath(p) == NtTail(p)
    ensures '/' !in SplitPath(p) && '\\' !in SplitPath(p) && |SplitPath(p)| < |p|
  {
    assert PosixTail(p) == p by {
      PosixTailRule(p);
    }
    assert NtTail(p) != p by {
      NtTailRule(p);
    }
    NtTailRule(p);
  }

  /** Without a drive, the Windows rule takes the text after the last backslash. */
  lemma BackslashTailWithoutDrive(p: string)
    requires '/' !in p && '\\' in p && DriveLength(p) == 0
    ensures SplitPath(p) == TailAfterLast(p, {'\\'})
  {
    BackslashPathUsesNt(p);
    NtTailRule(p);
    assert p[0..] == p;
    assert forall k :: 0 <= k < |p| ==> (p[k] in {'/', '\\'} <==> p[k] in {'\\'});
    TailsAgree(p, {'/', '\\'}, {'\\'});
  }

  /** Two separator sets that agree on every character of `s` give the same tail. */
  lemma {:induction false} TailsAgree(s: string, a: set<char>, b: set<char>)
    requires forall k :: 0 <= k < |s| ==> (s[k] in a <==> s[k] in b)
    ensures TailAfterLast(s, a) == TailAfterLast(s, b)
    decreases |s|
  {
    if s != [] {
      TailsAgree(s[..|s| - 1], a, b);
    }
  }

  /** A classic Mac path, with colons but no slashes and no drive letter, gives the text after its last colon. */
  lemma ColonPathUsesMac(p: string)
    requires '/' !in p && '\\' !in p && (|p| < 2 || p[1] != ':') && ':' in p
    ensures SplitPath(p) == MacTail(p)
    ensures ':' !in SplitPath(p)
  {
    assert PosixTail(p) == p by {
      PosixTailRule(p);
    }
    assert NtTail(p) == p by {
      NoDriveWithoutSeparators(p);
      NtTailRule(p);
      assert p[0..] == p;
      TailOfSeparatorFree(p, {'/', '\\'});
    }
    assert MacTail(p) != p by {
      MacTailRule(p);
    }
    MacTailRule(p);
  }

  /** A bare file name, with no separator of any of the three kinds, is returned as it is. */
  lemma BareNameUnchanged(p: string)
    requires '/' !in p && '\\' !in p && ':' !in p
    ensures SplitPath(p) == p
  {
    assert PosixTail(p) == p by {
      PosixTailRule(p);
    }
    assert NtTail(p) == p by {
      NoDriveWithoutSeparators(p);
      NtTailRule(p);
      assert p[0..] == p;
      TailOfSeparatorFree(p, {'/', '\\'});
    }
    assert MacTail(p) == p by {
      MacTailRule(p);
    }
  }
}

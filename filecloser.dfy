/**
 * The file closer stage: a temp file the writer has finalized is hashed and,
 * when the hash is the one the sender announced, renamed to
 * filepath.Join(outdir, normalizePath(Path)). That name lies under the output
 * directory only while the path has no ".." segment: Join resolves ".." against
 * the directory, so such a path can name a file anywhere. Every candidate ends
 * in one transfer record with Started and Finished set and Success telling
 * whether the move happened.
 */
module FileCloser {
  import opened Wire
  import opened Wrappers
  import opened Structs
  import Paths
  import FileSystem

  /**
   * normalizePath: colons dropped; then split on '\' if one is left, on '/'
   * otherwise, and the parts joined with filepath.Join.
   */
  function NormalizePath(path: string): string
  {
    var stripped := Paths.RemoveChar(path, ':');
    if '\\' in stripped then Paths.Join(Paths.SplitOn(stripped, '\\'))
    else Paths.Join(Paths.SplitOn(stripped, '/'))
  }

  /** A normalized path holds no drive colon and no Windows separator. */
  lemma NormalizePathIsPortable(path: string)
    ensures ':' !in NormalizePath(path)
    ensures '\\' !in NormalizePath(path)
  {
    var stripped := Paths.RemoveChar(path, ':');
    var sep := if '\\' in stripped then '\\' else '/';
    var parts := Paths.SplitOn(stripped, sep);
    assert NormalizePath(path) == Paths.Join(parts);
    Paths.RemoveCharKeeps(path, ':');
    Paths.SplitChars(stripped, sep);
    Paths.SplitPartsLackSeparator(stripped, sep);
    forall c | c in NormalizePath(path)
      ensures c != ':' && c != '\\'
    {
      Paths.JoinPathChars(parts, c);
      if c != '/' && c != '.' {
        var i :| 0 <= i < |parts| && c in parts[i];
        var m :| 0 <= m < |parts[i]| && parts[i][m] == c;
        assert c in stripped;
      }
    }
  }

  /** normalizePath of a colon-free path without '\': the plain names between its slashes, joined. */
  lemma NormalizeSlashPath(path: string, parts: seq<string>, skip: nat)
    requires ':' !in path && '\\' !in path
    requires skip < |parts| && Paths.JoinWith(parts, '/') == path
    requires forall i | 0 <= i < skip :: parts[i] == []
    requires forall i | skip <= i < |parts| :: Paths.PlainName(parts[i])
    ensures NormalizePath(path) == Paths.JoinWith(parts[skip..], '/')
  {
    RemoveAbsentChar(path, ':');
    Paths.SplitJoin(parts, '/');
    Paths.JoinOfNames(parts, skip);
  }

  /** normalizePath of a path whose colon-free form has a '\': the names between the '\'s, joined with '/'. */
  lemma NormalizeBackslashPath(path: string, parts: seq<string>)
    requires |parts| >= 2
    requires Paths.JoinWith(parts, '\\') == Paths.RemoveChar(path, ':')
    requires forall i | 0 <= i < |parts| :: Paths.PlainName(parts[i]) && '\\' !in parts[i]
    ensures NormalizePath(path) == Paths.JoinWith(parts, '/')
  {
    var stripped := Paths.RemoveChar(path, ':');
    Paths.JoinStartsWithFirst(parts, '\\');
    assert stripped == Paths.JoinWith(parts[..|parts| - 1], '\\') + ['\\'] + parts[|parts| - 1];
    assert '\\' in stripped;
    Paths.SplitJoin(parts, '\\');
    Paths.JoinOfNames(parts, 0);
    assert parts[0..] == parts;
  }

  /** A Unix path loses its leading separator: "/tmp/out/check" becomes "tmp/out/check". */
  lemma NormalizeUnixPath(path: string, tmp: string, out: string, check: string)
    requires tmp == "tmp" && out == "out" && check == "check"
    requires path == "/" + tmp + "/" + out + "/" + check
    ensures NormalizePath(path) == tmp + "/" + out + "/" + check
  {
    JoinFour([], tmp, out, check, '/');
    var parts := [[], tmp, out, check];
    NormalizeSlashPath(path, parts, 1);
    assert parts[1..] == [tmp, out, check];
    JoinThree(tmp, out, check, '/');
  }

  /** A drive-letter path: "c:\tmp\out\check" becomes "c/tmp/out/check". */
  lemma NormalizeWindowsPath(path: string, c: string, tmp: string, out: string, check: string)
    requires c == "c" && tmp == "tmp" && out == "out" && check == "check"
    requires path == c + ":\\" + tmp + "\\" + out + "\\" + check
    ensures NormalizePath(path) == c + "/" + tmp + "/" + out + "/" + check
  {
    var rest := "\\" + tmp + "\\" + out + "\\" + check;
    assert path == c + ":" + rest;
    DropDriveColon(c, rest);
    JoinFour(c, tmp, out, check, '\\');
    assert Paths.JoinWith([c, tmp, out, check], '\\') == c + rest;
    NormalizeBackslashPath(path, [c, tmp, out, check]);
    JoinFour(c, tmp, out, check, '/');
  }

  /** Dropping the colon after a drive letter. */
  lemma DropDriveColon(drive: string, rest: string)
    requires ':' !in drive && ':' !in rest
    ensures Paths.RemoveChar(drive + ":" + rest, ':') == drive + rest
  {
    var colon := ":";
    RemoveAbsentChar(rest, ':');
    RemoveAbsentChar(drive, ':');
    RemoveCharAppend(drive, colon, ':');
    RemoveCharAppend(drive + colon, rest, ':');
    RemoveOnly(':');
    assert Paths.RemoveChar(drive + colon, ':') == drive;
  }

  lemma RemoveOnly(c: char)
    ensures Paths.RemoveChar([c], c) == []
  {
    assert [c][..0] == [];
  }

  lemma JoinThree(a: string, b: string, c: string, sep: char)
    ensures Paths.JoinWith([a, b, c], sep) == a + [sep] + b + [sep] + c
  {
    assert [a, b, c][..2] == [a, b];
    assert [a, b][..1] == [a];
    assert Paths.JoinWith([a, b], sep) == a + [sep] + b;
  }

  lemma JoinFour(a: string, b: string, c: string, d: string, sep: char)
    ensures Paths.JoinWith([a, b, c, d], sep) == a + [sep] + b + [sep] + c + [sep] + d
  {
    assert [a, b, c, d][..3] == [a, b, c];
    JoinThree(a, b, c, sep);
  }

  lemma {:induction false} RemoveAbsentChar(s: string, c: char)
    requires c !in s
    ensures Paths.RemoveChar(s, c) == s
  {
    if s != [] {
      RemoveAbsentChar(s[..|s| - 1], c);
      assert Paths.RemoveChar(s, c) == Paths.RemoveChar(s[..|s| - 1], c) + [s[|s| - 1]];
      assert s[..|s| - 1] + [s[|s| - 1]] == s;
    }
  }

  lemma {:induction false} RemoveCharAppend(s: string, t: string, c: char)
    ensures Paths.RemoveChar(s + t, c) == Paths.RemoveChar(s, c) + Paths.RemoveChar(t, c)
  {
    if t == [] {
      assert s + t == s;
    } else {
      RemoveCharAppend(s, t[..|t| - 1], c);
      assert (s + t)[..|s + t| - 1] == s + t[..|t| - 1];
    }
  }

  /** filepath.Join(outdir, normalizePath(Path)), with ".zip" appended for an archived file. */
  function Destination(outdir: string, f: OpenTempFile): string
  {
    var p := Paths.Join([outdir, NormalizePath(f.path)]);
    if f.encrypted then p + ".zip" else p
  }

  /** An archived file, and only one, gets the archive extension on top of the joined path. */
  lemma DestinationExtension(outdir: string, f: OpenTempFile)
    ensures var joined := Paths.Join([outdir, NormalizePath(f.path)]);
      && Paths.EndsWith(Destination(outdir, f), if f.encrypted then ".zip" else joined)
      && (f.encrypted <==> |Destination(outdir, f)| == |joined| + 4)
  {
    var joined := Paths.Join([outdir, NormalizePath(f.path)]);
    if f.encrypted {
      Paths.EndsWithConcat(joined, ".zip");
    } else {
      assert Destination(outdir, f)[0..] == joined;
    }
  }

  /**
   * An output directory of plain names, rooted or not, and a normalized path
   * whose segments are all plain names (no "..", in particular): the
   * destination is the directory, a '/', the normalized path and, for an
   * archive, ".zip", so the file lands inside the output tree.
   */
  lemma DestinationInsideOutdir(outdir: string, dirs: seq<string>, rooted: bool, f: OpenTempFile)
    requires |dirs| >= 1 && forall i | 0 <= i < |dirs| :: Paths.PlainName(dirs[i])
    requires outdir == (if rooted then "/" else "") + Paths.JoinWith(dirs, '/')
    requires forall seg | seg in Paths.SplitOn(NormalizePath(f.path), '/') :: Paths.PlainName(seg)
    ensures Destination(outdir, f) == outdir + "/" + NormalizePath(f.path) + (if f.encrypted then ".zip" else "")
    ensures |outdir| + 1 <= |Destination(outdir, f)| && Destination(outdir, f)[..|outdir| + 1] == outdir + "/"
  {
    var np := NormalizePath(f.path);
    var names := Paths.SplitOn(np, '/');
    Paths.JoinSplit(np, '/');
    Paths.JoinUnderDir(outdir, dirs, rooted, names);
    DestinationOfJoin(outdir, f, np);
  }

  /** The destination when Join just puts a '/' between the output directory and the normalized path. */
  lemma DestinationOfJoin(outdir: string, f: OpenTempFile, np: string)
    requires np == NormalizePath(f.path) && Paths.Join([outdir, np]) == outdir + "/" + np
    ensures Destination(outdir, f) == outdir + "/" + np + (if f.encrypted then ".zip" else "")
    ensures |outdir| + 1 <= |Destination(outdir, f)| && Destination(outdir, f)[..|outdir| + 1] == outdir + "/"
  {
  }

  /**
   * normalizePath keeps ".." and filepath.Join resolves it against the output
   * directory, so a Path can name a file outside the output tree: with outdir
   * "/srv/out", the Path "../../etc/passwd" is moved to "/etc/passwd".
   */
  lemma DestinationEscapesOutdir(outdir: string, dir1: string, dir2: string, up: string,
                                 names: seq<string>, f: OpenTempFile)
    requires up == ".." && Paths.PlainName(dir1) && Paths.PlainName(dir2)
    requires |names| >= 1 && forall i | 0 <= i < |names| :: Paths.PlainName(names[i])
    requires forall i | 0 <= i < |names| :: ':' !in names[i] && '\\' !in names[i]
    requires outdir == "/" + dir1 + "/" + dir2
    requires f.path == up + "/" + up + "/" + Paths.JoinWith(names, '/') && !f.encrypted
    ensures Destination(outdir, f) == "/" + Paths.JoinWith(names, '/')
  {
    var ups := [up, up];
    var parts := ups + names;
    ClimbJoin(f.path, up, names);
    ClimbIsNormal(f.path, up, names);
    var root := [[], dir1, dir2];
    var full := root + parts;
    var q := outdir + "/" + f.path;
    ClimbFull(outdir, dir1, dir2, f.path, parts);
    ClimbLacks(up, names, '/');
    RootLacks(dir1, dir2);
    ClimbSplit(root, parts);
    ClimbPastRoot(dir1, dir2, up, names);
    Paths.CleanBySegments(q, full, true, names);
    Paths.JoinPair(outdir, f.path, q);
  }

  /** The '/'-split of "../../" and some names. */
  lemma ClimbJoin(path: string, up: string, names: seq<string>)
    requires |names| >= 1
    requires path == up + "/" + up + "/" + Paths.JoinWith(names, '/')
    ensures Paths.JoinWith([up, up] + names, '/') == path
  {
    var ups := [up, up];
    assert ups[..1] == [up];
    Paths.JoinConcat(ups, names, '/');
  }

  /** "/d1/d2" joined with a relative path is the '/'-join of "", d1, d2 and its parts. */
  lemma ClimbFull(outdir: string, dir1: string, dir2: string, path: string, parts: seq<string>)
    requires outdir == "/" + dir1 + "/" + dir2 && |parts| >= 1 && Paths.JoinWith(parts, '/') == path
    ensures Paths.JoinWith([[], dir1, dir2] + parts, '/') == outdir + "/" + path
  {
    RootJoin(outdir, dir1, dir2);
    Paths.JoinConcat([[], dir1, dir2], parts, '/');
  }

  /** "/d1/d2" is the '/'-join of "", d1 and d2. */
  lemma RootJoin(outdir: string, dir1: string, dir2: string)
    requires outdir == "/" + dir1 + "/" + dir2
    ensures Paths.JoinWith([[], dir1, dir2], '/') == outdir
  {
    JoinThree([], dir1, dir2, '/');
  }

  /** "/d1/d2/../../" followed by names: Clean's scan keeps just the names. */
  lemma ClimbPastRoot(dir1: string, dir2: string, up: string, names: seq<string>)
    requires up == ".." && Paths.PlainName(dir1) && Paths.PlainName(dir2)
    requires forall i | 0 <= i < |names| :: Paths.PlainName(names[i])
    ensures Paths.CleanSegments([[], dir1, dir2] + ([up, up] + names), true) == names
  {
    var segs := [[], dir1, dir2, up, up];
    Regroup([[], dir1, dir2], [up, up], names);
    assert [[], dir1, dir2] + [up, up] == segs;
    Paths.CleanSegmentsAfter(segs, names, true);
    ClimbToRoot(dir1, dir2, up);
    assert Paths.CleanSegments(segs + names, true) == names;
  }

  lemma Regroup(a: seq<string>, b: seq<string>, c: seq<string>)
    ensures a + (b + c) == (a + b) + c
  {
  }

  /** None of "", d1 and d2 holds a '/'. */
  lemma RootLacks(dir1: string, dir2: string)
    requires Paths.PlainName(dir1) && Paths.PlainName(dir2)
    ensures forall i | 0 <= i < 3 :: '/' !in [[], dir1, dir2][i]
  {
  }

  /** "d1/d2" then ".." twice leaves nothing for a rooted path. */
  lemma ClimbToRoot(dir1: string, dir2: string, up: string)
    requires up == ".." && Paths.PlainName(dir1) && Paths.PlainName(dir2)
    ensures Paths.CleanSegments([[], dir1, dir2, up, up], true) == []
  {
    var segs := [[], dir1, dir2, up, up];
    Paths.CleanSegmentsSnoc(segs[..4], up, true);
    assert segs[..4] + [up] == segs;
    Paths.CleanSegmentsSnoc(segs[..3], up, true);
    assert segs[..3] + [up] == segs[..4];
    Paths.CleanSegmentsSnoc(segs[..2], dir2, true);
    assert segs[..2] + [dir2] == segs[..3];
    Paths.CleanSegmentsSnoc(segs[..1], dir1, true);
    assert segs[..1] + [dir1] == segs[..2];
    var none: seq<string> := [];
    Paths.CleanSegmentsSnoc(none, [], true);
    assert none + [[]] == segs[..1];
  }

  /** The split of a join of '/'-free parts. */
  lemma ClimbSplit(root: seq<string>, parts: seq<string>)
    requires |root| >= 1 && |parts| >= 1
    requires forall i | 0 <= i < |root| :: '/' !in root[i]
    requires forall i | 0 <= i < |parts| :: '/' !in parts[i]
    ensures Paths.SplitOn(Paths.JoinWith(root + parts, '/'), '/') == root + parts
  {
    assert forall i | 0 <= i < |root + parts| :: '/' !in (root + parts)[i] by {
      forall i | 0 <= i < |root + parts| ensures '/' !in (root + parts)[i] {
        if i >= |root| {
          assert (root + parts)[i] == parts[i - |root|];
        }
      }
    }
    Paths.SplitJoin(root + parts, '/');
  }

  /** normalizePath leaves "../../" followed by plain names as it is: Clean keeps a leading run of "..". */
  lemma ClimbIsNormal(path: string, up: string, names: seq<string>)
    requires up == ".."
    requires |names| >= 1 && forall i | 0 <= i < |names| :: Paths.PlainName(names[i])
    requires forall i | 0 <= i < |names| :: ':' !in names[i] && '\\' !in names[i]
    requires Paths.JoinWith([up, up] + names, '/') == path
    ensures NormalizePath(path) == path
  {
    var ups := [up, up];
    var parts := ups + names;
    ClimbLacks(up, names, ':');
    ClimbLacks(up, names, '\\');
    Paths.JoinLacks(parts, '/', ':');
    Paths.JoinLacks(parts, '/', '\\');
    NormalizePlain(path);
    assert forall i | 0 <= i < |ups| :: '/' !in ups[i];
    ClimbSplit(ups, names);
    Paths.JoinFromFirst(parts);
    ClimbKept(up, names);
    ClimbStart(path, parts);
    Paths.CleanBySegments(path, parts, false, parts);
  }

  /** A join whose first part is ".." starts with '.'. */
  lemma ClimbStart(path: string, parts: seq<string>)
    requires |parts| >= 1 && parts[0] == ".." && Paths.JoinWith(parts, '/') == path
    ensures path != [] && path[0] == '.'
  {
    Paths.JoinStartsWithFirst(parts, '/');
    assert path[..2] == "..";
  }

  /** No part of "..", ".." and names free of c holds c. */
  lemma ClimbLacks(up: string, names: seq<string>, c: char)
    requires up == ".." && c != '.'
    requires forall i | 0 <= i < |names| :: c !in names[i]
    ensures forall i | 0 <= i < |[up, up] + names| :: c !in ([up, up] + names)[i]
  {
    forall i | 0 <= i < |[up, up] + names| ensures c !in ([up, up] + names)[i] {
      if i >= 2 {
        assert ([up, up] + names)[i] == names[i - 2];
      }
    }
  }

  /** A relative path starting with ".." twice: Clean's scan keeps every part. */
  lemma ClimbKept(up: string, names: seq<string>)
    requires up == ".."
    requires forall i | 0 <= i < |names| :: Paths.PlainName(names[i])
    ensures Paths.CleanSegments([up, up] + names, false) == [up, up] + names
  {
    var ups := [up, up];
    Paths.CleanSegmentsAfter(ups, names, false);
    var none: seq<string> := [];
    Paths.CleanSegmentsSnoc(none, up, false);
    assert none + [up] == ups[..1];
    Paths.CleanSegmentsSnoc(ups[..1], up, false);
    assert ups[..1] + [up] == ups;
  }

  /** normalizePath of a path with no colon and no '\': filepath.Join of its '/'-parts. */
  lemma NormalizePlain(path: string)
    requires ':' !in path && '\\' !in path
    ensures NormalizePath(path) == Paths.Join(Paths.SplitOn(path, '/'))
  {
    RemoveAbsentChar(path, ':');
  }

  /** What the operating system lets through while the file is closed. */
  datatype Env = Env(readOk: bool, closeOk: bool, mkdirOk: bool, renameOk: bool)

  /** The errors closeFile returns; a failed Close of the temp file is not one of them. */
  datatype CloseError = OpenFailed | HashFailed | HashMismatch | MkdirFailed | RenameFailed

  /**
   * closeFile's outcome: the destination on success, else the first error on
   * the way. `sha256` stands for HashFile over the temp file's content.
   */
  function CloseOutcome(f: OpenTempFile, outdir: string, files: map<string, seq<Byte>>,
                        sha256: seq<Byte> -> seq<Byte>, env: Env): Result<string, CloseError>
  {
    if f.tempFile !in files then Failure(OpenFailed)
    else if !env.readOk then Failure(HashFailed)
    else if sha256(files[f.tempFile]) != f.hash then Failure(HashMismatch)
    else if !env.mkdirOk then Failure(MkdirFailed)
    else if !env.renameOk then Failure(RenameFailed)
    else Success(Destination(outdir, f))
  }

  /**
   * closeFile succeeds exactly when the temp file exists, can be read, hashes to
   * the announced hash, and the directory and the move go through; it then
   * names the normalized destination.
   */
  lemma CloseSucceedsExactly(f: OpenTempFile, outdir: string, files: map<string, seq<Byte>>,
                             sha256: seq<Byte> -> seq<Byte>, env: Env)
    ensures var r := CloseOutcome(f, outdir, files, sha256, env);
      && (r.Success? <==> f.tempFile in files && env.readOk && sha256(files[f.tempFile]) == f.hash
                          && env.mkdirOk && env.renameOk)
      && (r.Success? ==> r.value == Destination(outdir, f))
  {
  }

  /** A hash mismatch is reported before any directory is made or file moved, whatever those would do. */
  lemma MismatchStopsEarly(f: OpenTempFile, outdir: string, files: map<string, seq<Byte>>,
                           sha256: seq<Byte> -> seq<Byte>, env: Env, mkdirOk: bool, renameOk: bool)
    requires f.tempFile in files && env.readOk && sha256(files[f.tempFile]) != f.hash
    ensures CloseOutcome(f, outdir, files, sha256, env) == Failure(HashMismatch)
    ensures CloseOutcome(f, outdir, files, sha256, env.(mkdirOk := mkdirOk, renameOk := renameOk))
         == Failure(HashMismatch)
  {
  }

  /** A failed Close of the temp file after hashing never changes the outcome. */
  lemma CloseErrorIgnored(f: OpenTempFile, outdir: string, files: map<string, seq<Byte>>,
                          sha256: seq<Byte> -> seq<Byte>, env: Env, closeOk: bool)
    ensures CloseOutcome(f, outdir, files, sha256, env.(closeOk := closeOk))
         == CloseOutcome(f, outdir, files, sha256, env)
  {
  }

  /** A missing temp file or a failed read is an error, whatever the hash. */
  lemma OpenOrReadFailureIsError(f: OpenTempFile, outdir: string, files: map<string, seq<Byte>>,
                                 sha256: seq<Byte> -> seq<Byte>, env: Env)
    requires f.tempFile !in files || !env.readOk
    ensures CloseOutcome(f, outdir, files, sha256, env).Failure?
    ensures CloseOutcome(f, outdir, files, sha256, env).error == if f.tempFile !in files then OpenFailed else HashFailed
  {
  }

  /**
   * closeFile: open and hash the temp file, compare, then make the directory
   * and move the file. Only a successful close changes the files: the temp file
   * is gone and its content sits at the destination.
   */
  method CloseFile(f: OpenTempFile, outdir: string, disk: FileSystem.Disk,
                   sha256: seq<Byte> -> seq<Byte>, env: Env) returns (result: Result<string, CloseError>)
    modifies disk
    ensures result == CloseOutcome(f, outdir, old(disk.files), sha256, env)
    ensures result.Success? ==> disk.files == (old(disk.files) - {f.tempFile})[result.value := old(disk.files)[f.tempFile]]
    ensures result.Failure? ==> disk.files == old(disk.files)
  {
    if f.tempFile !in disk.files {
      return Failure(OpenFailed);
    }
    var content := disk.files[f.tempFile];
    if !env.readOk {
      return Failure(HashFailed);
    }
    var hash := sha256(content);
    // A failed Close is logged and otherwise ignored.
    if hash != f.hash {
      return Failure(HashMismatch);
    }
    var newpath := Paths.Join([outdir, NormalizePath(f.path)]);
    if f.encrypted {
      newpath := newpath + ".zip";
    }
    if !env.mkdirOk {
      return Failure(MkdirFailed);
    }
    if !env.renameOk {
      return Failure(RenameFailed);
    }
    disk.Rename(f.tempFile, newpath);
    return Success(newpath);
  }

  /** The transfer record the worker saves for one candidate. */
  datatype FileRecord = FileRecord(
    path: string,
    hash: seq<Byte>,
    encrypted: bool,
    started: bool,
    finished: bool,
    success: bool)

  /** worker: close one finalized temp file and build its record. */
  method Worker(f: OpenTempFile, outdir: string, disk: FileSystem.Disk,
                sha256: seq<Byte> -> seq<Byte>, env: Env) returns (record: FileRecord)
    modifies disk
    ensures record.path == f.path && record.hash == f.hash && record.encrypted == f.encrypted
    ensures record.started && record.finished
    ensures record.success == CloseOutcome(f, outdir, old(disk.files), sha256, env).Success?
    ensures record.success ==> disk.files == (old(disk.files) - {f.tempFile})[Destination(outdir, f) := old(disk.files)[f.tempFile]]
    ensures !record.success ==> disk.files == old(disk.files)
  {
    record := FileRecord(f.path, f.hash, f.encrypted, true, true, false);
    var result := CloseFile(f, outdir, disk, sha256, env);
    if result.Failure? {
      record := record.(success := false);
    } else {
      record := record.(success := true);
    }
  }

  /**
   * The integrity check end to end: a temp file whose content does not hash to
   * the announced hash is never a success and stays where it was; a success
   * leaves exactly the verified content at the destination.
   */
  lemma IntegrityOutcome(f: OpenTempFile, outdir: string, files: map<string, seq<Byte>>,
                         sha256: seq<Byte> -> seq<Byte>, env: Env)
    ensures var r := CloseOutcome(f, outdir, files, sha256, env);
      && (f.tempFile in files && sha256(files[f.tempFile]) != f.hash ==> r.Failure?)
      && (r.Success? ==> f.tempFile in files && sha256(files[f.tempFile]) == f.hash)
  {
  }
}

/**
 * The archive the upload action builds from the project directory: which
 * walked files go in (the exclusion test), under which entry names, with
 * which bytes, and what happens when a file cannot be read. The archive is
 * modelled as its list of entries; compression and the zip container format
 * are not part of this model.
 */
module ProjectArchive {
  import opened Base
  import opened Text

  /** Directory names whose contents are never packed. */
  const ExcludedNames: seq<string> :=
    [".git", "node_modules", "venv", "__pycache__", "target", "build", ".idea", ".gradle"]

  /** The test made for one name: the path starts with `name/` or contains `/name/`. */
  predicate UnderDirectory(lower: string, name: string)
  {
    StartsWith(lower, name + "/") || Contains(lower, "/" + name + "/")
  }

  /** `shouldExclude`: the lowercased path lies under one of the excluded directory names. */
  predicate ShouldExclude(relPath: string)
  {
    var lower := Lower(relPath);
    || UnderDirectory(lower, ".git")
    || UnderDirectory(lower, "node_modules")
    || UnderDirectory(lower, "venv")
    || UnderDirectory(lower, "__pycache__")
    || UnderDirectory(lower, "target")
    || UnderDirectory(lower, "build")
    || UnderDirectory(lower, ".idea")
    || UnderDirectory(lower, ".gradle")
  }

  /** Some `/`-separated segment of `path` other than the last one equals `name`. */
  predicate HasDirSegment(path: string, name: string)
  {
    var segs := Split(path, '/');
    exists k :: 0 <= k < |segs| - 1 && segs[k] == name
  }

  lemma NoSlashNotUnder(path: string, name: string)
    requires IndexOf(path, "/").None?
    ensures !UnderDirectory(path, name)
  {
    if StartsWith(path, name + "/") {
      assert path[|name|..|name| + 1] == (name + "/")[|name|..];
      assert OccursAt(path, "/", |name|);
    }
    if Contains(path, "/" + name + "/") {
      var k := IndexOf(path, "/" + name + "/").value;
      assert path[k..k + 1] == ("/" + name + "/")[..1];
      assert OccursAt(path, "/", k);
    }
  }

  /** With the first `/` at `i`, the path starts with `name/` exactly when its first segment is `name`. */
  lemma StartsWithFirstSegment(path: string, name: string, i: nat)
    requires '/' !in name
    requires IndexOf(path, "/") == Some(i)
    ensures StartsWith(path, name + "/") <==> path[..i] == name
  {
    if StartsWith(path, name + "/") {
      assert path[|name|..|name| + 1] == (name + "/")[|name|..];
      assert OccursAt(path, "/", |name|);
      forall j | 0 <= j < |name|
        ensures !OccursAt(path, "/", j)
      {
        assert path[j] == (name + "/")[j] == name[j];
        assert path[j..j + 1][0] == path[j];
      }
      assert i == |name|;
      assert path[..i] == path[..|name| + 1][..i];
    }
    if path[..i] == name {
      assert OccursAt(path, "/", i);
      assert |name| == i && i + 1 <= |path|;
      assert path[i..i + 1] == "/";
      assert path[..i + 1] == path[..i] + path[i..i + 1];
      assert path[..|name| + 1] == name + "/";
    }
  }

  /** With the first `/` at `i`, an occurrence of `/name/` is either at `i` or inside the rest. */
  lemma ContainsAfterFirstSlashOnly(path: string, name: string, i: nat)
    requires IndexOf(path, "/") == Some(i)
    requires Contains(path, "/" + name + "/")
    ensures StartsWith(path[i + 1..], name + "/") || Contains(path[i + 1..], "/" + name + "/")
  {
    var rest := path[i + 1..];
    var pat := "/" + name + "/";
    var k := IndexOf(path, pat).value;
    assert path[k..k + 1] == pat[..1];
    assert OccursAt(path, "/", k);
    if k == i {
      assert path[k..k + |pat|] == pat;
      assert pat[1..] == name + "/";
      assert rest[..|name| + 1] == path[k..k + |pat|][1..];
    } else {
      assert k > i;
      assert rest[k - i - 1..k - i - 1 + |pat|] == path[k..k + |pat|];
      assert OccursAt(rest, pat, k - i - 1);
      OccursInContains(rest, pat, k - i - 1);
    }
  }

  /** With the first `/` at `i`, `name/` at the start of the rest, or `/name/` inside it, is `/name/` in the path. */
  lemma ContainsAfterFirstSlashIf(path: string, name: string, i: nat)
    requires IndexOf(path, "/") == Some(i)
    requires StartsWith(path[i + 1..], name + "/") || Contains(path[i + 1..], "/" + name + "/")
    ensures Contains(path, "/" + name + "/")
  {
    var rest := path[i + 1..];
    var pat := "/" + name + "/";
    assert path == path[..i + 1] + rest;
    if StartsWith(rest, name + "/") {
      assert path[i..i + |pat|] == path[i..i + 1] + rest[..|name| + 1];
      assert OccursAt(path, pat, i);
      OccursInContains(path, pat, i);
    } else {
      var k := IndexOf(rest, pat).value;
      OccursShift(path[..i + 1], rest, pat, k);
      OccursInContains(path, pat, i + 1 + k);
    }
  }

  /**
   * The source's `startsWith("x/") || contains("/x/")` test is the same as
   * asking whether `x` is a directory segment of the path (a segment that is
   * not the last one), so a file named `x`, or a segment such as `xdir` or
   * `myx`, never matches.
   */
  lemma {:induction false} UnderDirectoryIffSegment(path: string, name: string)
    requires '/' !in name
    ensures UnderDirectory(path, name) <==> HasDirSegment(path, name)
    decreases |path|
  {
    match IndexOf(path, "/")
    case None =>
      NoSlashNotUnder(path, name);
      assert Split(path, '/') == [path];
    case Some(i) =>
      var rest := path[i + 1..];
      StartsWithFirstSegment(path, name, i);
      if Contains(path, "/" + name + "/") {
        ContainsAfterFirstSlashOnly(path, name, i);
      }
      if StartsWith(rest, name + "/") || Contains(rest, "/" + name + "/") {
        ContainsAfterFirstSlashIf(path, name, i);
      }
      UnderDirectoryIffSegment(rest, name);
      HasDirSegmentCons(path, name, i);
  }

  /** With the first `/` at `i`, the directory segments are the first segment and those of the rest. */
  lemma HasDirSegmentCons(path: string, name: string, i: nat)
    requires IndexOf(path, "/") == Some(i)
    ensures HasDirSegment(path, name) <==> path[..i] == name || HasDirSegment(path[i + 1..], name)
  {
    var rest := path[i + 1..];
    var segs := Split(path, '/');
    var tail := Split(rest, '/');
    assert segs == [path[..i]] + tail;
    assert |segs| >= 2;
    if path[..i] == name {
      assert segs[0] == name;
    }
    if HasDirSegment(rest, name) {
      var k :| 0 <= k < |tail| - 1 && tail[k] == name;
      assert segs[k + 1] == name;
    }
    if HasDirSegment(path, name) && path[..i] != name {
      var k :| 0 <= k < |segs| - 1 && segs[k] == name;
      assert segs[0] == path[..i];
      assert k > 0;
      assert segs[k] == tail[k - 1];
      assert 0 <= k - 1 < |tail| - 1;
    }
  }

  lemma ShouldExcludeIffUnderExcluded(relPath: string)
    ensures ShouldExclude(relPath) <==>
      exists k :: 0 <= k < |ExcludedNames| && UnderDirectory(Lower(relPath), ExcludedNames[k])
  {
    var lower := Lower(relPath);
    if ShouldExclude(relPath) {
      if UnderDirectory(lower, ".git") { assert ExcludedNames[0] == ".git"; }
      else if UnderDirectory(lower, "node_modules") { assert ExcludedNames[1] == "node_modules"; }
      else if UnderDirectory(lower, "venv") { assert ExcludedNames[2] == "venv"; }
      else if UnderDirectory(lower, "__pycache__") { assert ExcludedNames[3] == "__pycache__"; }
      else if UnderDirectory(lower, "target") { assert ExcludedNames[4] == "target"; }
      else if UnderDirectory(lower, "build") { assert ExcludedNames[5] == "build"; }
      else if UnderDirectory(lower, ".idea") { assert ExcludedNames[6] == ".idea"; }
      else { assert ExcludedNames[7] == ".gradle"; }
    }
  }

  /**
   * A path is excluded exactly when, after lowercasing, one of its directory
   * segments is one of the excluded names.
   */
  lemma ShouldExcludeIffExcludedSegment(relPath: string)
    ensures ShouldExclude(relPath) <==>
      exists k :: 0 <= k < |ExcludedNames| && HasDirSegment(Lower(relPath), ExcludedNames[k])
  {
    var lower := Lower(relPath);
    ShouldExcludeIffUnderExcluded(relPath);
    forall k | 0 <= k < |ExcludedNames|
      ensures UnderDirectory(lower, ExcludedNames[k]) <==> HasDirSegment(lower, ExcludedNames[k])
    {
      assert '/' !in ExcludedNames[k];
      UnderDirectoryIffSegment(lower, ExcludedNames[k]);
    }
  }

  /** The test ignores case: a path and its lowercase form are excluded alike. */
  lemma ShouldExcludeIgnoresCase(relPath: string)
    ensures ShouldExclude(relPath) <==> ShouldExclude(Lower(relPath))
  {
    LowerIdempotent(relPath);
  }

  /** A root file named after an excluded directory, such as `build`, is kept. */
  lemma RootFileKept()
    ensures !ShouldExclude("build")
  {
    assert Lower("build") == "build";
    ContainsSingle("build", '/');
    forall k | 0 <= k < |ExcludedNames|
      ensures !UnderDirectory("build", ExcludedNames[k])
    {
      NoSlashNotUnder("build", ExcludedNames[k]);
    }
    ShouldExcludeIffUnderExcluded("build");
  }

  /** A path of two segments splits into them; only the first is a directory segment. */
  lemma TwoSegments(dir: string, file: string, name: string)
    requires '/' !in dir && '/' !in file
    ensures HasDirSegment(dir + "/" + file, name) <==> dir == name
  {
    var p := dir + "/" + file;
    ContainsSingle(dir, '/');
    FirstAtJunctionUniqueHead(dir, "/", file);
    ContainsSingle(file, '/');
    assert p[..|dir|] == dir && p[|dir| + 1..] == file;
    assert Split(file, '/') == [file];
    var segs := Split(p, '/');
    assert segs == [p[..|dir|]] + Split(p[|dir| + 1..], '/');
    assert segs == [dir, file];
    if dir == name {
      assert segs[0] == name;
    }
  }

  /** A directory whose name merely contains an excluded name, such as `mytarget/`, is kept. */
  lemma ContainingNameKept()
    ensures !ShouldExclude("mytarget/x")
  {
    var p := "mytarget" + "/" + "x";
    assert p == "mytarget/x";
    assert Lower(p) == p;
    forall k | 0 <= k < |ExcludedNames|
      ensures !HasDirSegment(p, ExcludedNames[k])
    {
      TwoSegments("mytarget", "x", ExcludedNames[k]);
    }
    ShouldExcludeIffExcludedSegment(p);
  }

  /** A directory segment is matched whatever its case. */
  lemma UpperCaseDirectoryExcluded(dir: string, file: string)
    ensures ShouldExclude(dir + "/Build/" + file)
  {
    var path := dir + "/Build/" + file;
    var lower := Lower(path);
    var n := |dir|;
    var w := lower[n..n + 7];
    assert w[0] == LowerChar(path[n]) == '/';
    assert w[1] == LowerChar(path[n + 1]) == 'b';
    assert w[2] == LowerChar(path[n + 2]) == 'u';
    assert w[3] == LowerChar(path[n + 3]) == 'i';
    assert w[4] == LowerChar(path[n + 4]) == 'l';
    assert w[5] == LowerChar(path[n + 5]) == 'd';
    assert w[6] == LowerChar(path[n + 6]) == '/';
    assert w == "/build/";
    OccursInContains(lower, "/build/", n);
    assert "/" + "build" + "/" == "/build/";
    assert UnderDirectory(lower, "build");
  }

  // ---------------------------------------------------------------------------
  // Walking and packing
  // ---------------------------------------------------------------------------

  /**
   * One item of the top-down walk of the project directory: its path relative
   * to the project root, written with the platform's separator, whether it is
   * a regular file, and what reading it yields.
   */
  datatype WalkItem = WalkItem(path: string, isFile: bool, contents: Result<seq<byte>>)

  /** One archive entry: its name and its bytes. */
  datatype Entry = Entry(name: string, data: seq<byte>)

  /** The entry name: the relative path with every platform separator replaced by `/`. */
  function EntryName(path: string, sep: char): string
  {
    seq(|path|, i requires 0 <= i < |path| => if path[i] == sep then '/' else path[i])
  }

  /** Entry names use `/` only, and a path already written with `/` is kept as it is. */
  lemma EntryNameNormalised(path: string, sep: char)
    ensures sep != '/' ==> sep !in EntryName(path, sep)
    ensures sep !in path ==> EntryName(path, sep) == path
    ensures EntryName(EntryName(path, sep), sep) == EntryName(path, sep)
  {
  }

  /** A walked item becomes an entry when it is a regular file whose entry name is not excluded. */
  predicate Kept(item: WalkItem, sep: char)
  {
    item.isFile && !ShouldExclude(EntryName(item.path, sep))
  }

  /**
   * The archive made from a walk, item by item in walk order; `None` when
   * reading a kept file fails, since the exception discards the whole archive.
   */
  function Pack(walk: seq<WalkItem>, sep: char): Option<seq<Entry>>
    decreases |walk|
  {
    if |walk| == 0 then Some([])
    else
      match Pack(walk[..|walk| - 1], sep)
      case None => None
      case Some(es) =>
        var item := walk[|walk| - 1];
        if !Kept(item, sep) then Some(es)
        else
          match item.contents
          case Err(_) => None
          case Ok(data) => Some(es + [Entry(EntryName(item.path, sep), data)])
  }

  /** The kept files of a walk, in walk order. */
  function KeptFiles(walk: seq<WalkItem>, sep: char): seq<WalkItem>
  {
    if |walk| == 0 then []
    else (if Kept(walk[0], sep) then [walk[0]] else []) + KeptFiles(walk[1..], sep)
  }

  lemma {:induction false} KeptFilesAppend(walk: seq<WalkItem>, item: WalkItem, sep: char)
    ensures KeptFiles(walk + [item], sep) == KeptFiles(walk, sep) + (if Kept(item, sep) then [item] else [])
    decreases |walk|
  {
    if |walk| == 0 {
      assert [item][1..] == [];
    } else {
      var head := if Kept(walk[0], sep) then [walk[0]] else [];
      var last := if Kept(item, sep) then [item] else [];
      assert (walk + [item])[0] == walk[0];
      assert (walk + [item])[1..] == walk[1..] + [item];
      KeptFilesAppend(walk[1..], item, sep);
      assert KeptFiles(walk + [item], sep) == head + (KeptFiles(walk[1..], sep) + last);
      assert head + (KeptFiles(walk[1..], sep) + last) == head + KeptFiles(walk[1..], sep) + last;
    }
  }

  lemma {:induction false} PackNonePersists(walk: seq<WalkItem>, sep: char, n: nat)
    requires n <= |walk|
    requires Pack(walk[..n], sep).None?
    ensures Pack(walk, sep).None?
    decreases |walk| - n
  {
    if n < |walk| {
      assert walk[..n + 1][..n] == walk[..n];
      PackNonePersists(walk, sep, n + 1);
    } else {
      assert walk[..n] == walk;
    }
  }

  /** Some kept file of the walk cannot be read. */
  predicate SomeUnreadable(walk: seq<WalkItem>, sep: char)
  {
    exists k :: 0 <= k < |walk| && Kept(walk[k], sep) && walk[k].contents.Err?
  }

  lemma SomeUnreadableSnoc(init: seq<WalkItem>, item: WalkItem, sep: char)
    ensures SomeUnreadable(init + [item], sep) <==>
      SomeUnreadable(init, sep) || (Kept(item, sep) && item.contents.Err?)
  {
    var walk := init + [item];
    if SomeUnreadable(init, sep) {
      var k :| 0 <= k < |init| && Kept(init[k], sep) && init[k].contents.Err?;
      assert walk[k] == init[k];
    }
    if Kept(item, sep) && item.contents.Err? {
      assert walk[|init|] == item;
    }
    if SomeUnreadable(walk, sep) {
      var k :| 0 <= k < |walk| && Kept(walk[k], sep) && walk[k].contents.Err?;
      if k < |init| {
        assert init[k] == walk[k];
      }
    }
  }

  /** Packing fails exactly when some kept file cannot be read. */
  lemma {:induction false} PackFailsIff(walk: seq<WalkItem>, sep: char)
    ensures Pack(walk, sep).None? <==> SomeUnreadable(walk, sep)
    decreases |walk|
  {
    if |walk| > 0 {
      var init := walk[..|walk| - 1];
      var item := walk[|walk| - 1];
      assert walk == init + [item];
      PackFailsIff(init, sep);
      SomeUnreadableSnoc(init, item, sep);
    }
  }

  /**
   * A successful archive has one entry per kept file, in walk order, named by
   * the file's normalised path and holding exactly the bytes read; no entry
   * comes from a directory and no entry name is excluded.
   */
  lemma {:induction false} PackEntriesAreKeptFiles(walk: seq<WalkItem>, sep: char)
    requires Pack(walk, sep).Some?
    ensures var es := Pack(walk, sep).value; var kept := KeptFiles(walk, sep);
      && |es| == |kept|
      && forall k :: 0 <= k < |es| ==>
           && kept[k].isFile
           && es[k].name == EntryName(kept[k].path, sep)
           && !ShouldExclude(es[k].name)
           && kept[k].contents == Ok(es[k].data)
    decreases |walk|
  {
    if |walk| > 0 {
      var init := walk[..|walk| - 1];
      var item := walk[|walk| - 1];
      assert walk == init + [item];
      KeptFilesAppend(init, item, sep);
      PackEntriesAreKeptFiles(init, sep);
    }
  }

  /**
   * `zipProject`: walks the tree in order, skips directories and excluded
   * paths, appends one entry per remaining file with its bytes copied
   * verbatim, and gives up with no archive as soon as a read fails.
   */
  method ZipProject(walk: seq<WalkItem>, sep: char) returns (archive: Option<seq<Entry>>)
    ensures archive == Pack(walk, sep)
  {
    var entries: seq<Entry> := [];
    var i := 0;
    while i < |walk|
      invariant 0 <= i <= |walk|
      invariant Pack(walk[..i], sep) == Some(entries)
    {
      var f := walk[i];
      assert walk[..i + 1][..i] == walk[..i];
      assert walk[..i + 1][i] == f;
      if f.isFile {
        var rel := EntryName(f.path, sep);
        if !ShouldExclude(rel) {
          match f.contents {
            case Err(_) =>
              PackNonePersists(walk, sep, i + 1);
              return None;
            case Ok(data) =>
              entries := entries + [Entry(rel, data)];
          }
        }
      }
      i := i + 1;
    }
    assert walk[..i] == walk;
    return Some(entries);
  }
}

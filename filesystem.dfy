/**
 * Static resources: turning a request path into a path on disk
 * (`expandToFullPath`), deciding whether it may be served
 * (`contentIsRestricted`) and what the server answers (`resource(atPath:)`).
 *
 * The operating system is a value, `Disk`: what `opendir`/`readdir_r` list,
 * what `readlink` returns, what `FileManager.fileExists(atPath:isDirectory:)`
 * reports and what `FileManager.contents(atPath:)` reads. The caller's
 * policies and representations are Dafny functions.
 */
module FileSystem {
  import opened Wrappers
  import opened Bytes
  import opened Text

  /** The entry types of `readdir_r` that matter here. */
  datatype FileType = Regular | Directory | SymbolicLink | OtherType

  /** The filesystem the server sees. */
  datatype Disk = Disk(
    dirs: map<string, map<string, FileType>>,   // directories `opendir` can open, and their entries by name
    links: map<string, string>,                  // `readlink` results, by the path passed to it
    stat: map<string, bool>,                     // existing paths, and whether each is a directory
    files: map<string, Bytes>)                   // what `contents(atPath:)` reads

  /** A virtual path: where a component leads, and whether that path replaces the current one. */
  datatype Alias = Alias(path: string, fullpath: bool)

  /** `virtualPathPolicy`: the aliases in effect at a directory. */
  type Policy = string -> map<string, Alias>

  /** `SXResoucesConfig` */
  datatype ResourcesConfig = ResourcesConfig(
    trustedDirectory: seq<string>,
    restrictedPaths: seq<string>,
    root: string,
    allowDir: bool,
    virtualPathPolicy: Option<Policy>,
    restrictionPolicy: Option<(string, bool) -> bool>,
    restrictedResourcesRepresentation: Option<string -> Bytes>,
    resourceNotFoundRepresentation: Option<string -> Bytes>,
    directoryRepresentation: Option<string -> Option<Bytes>>)

  /** `Resource` */
  datatype Resource =
    | Available(Option<Bytes>)
    | Restricted(Option<Bytes>)
    | NotFound(Option<Bytes>)
    | Inavailable(Option<Bytes>)

  /** `init(trustedDirectory:restrictedPaths:root:allowDir:)`: no policy and no representation yet. */
  function NewConfig(trustedDirectory: seq<string>, restrictedPaths: seq<string>, root: string, allowDir: bool): (cfg: ResourcesConfig)
    ensures cfg.trustedDirectory == trustedDirectory && cfg.restrictedPaths == restrictedPaths
    ensures cfg.root == root && cfg.allowDir == allowDir
    ensures cfg.virtualPathPolicy.None? && cfg.restrictionPolicy.None?
    ensures cfg.restrictedResourcesRepresentation.None? && cfg.resourceNotFoundRepresentation.None?
    ensures cfg.directoryRepresentation.None?
  {
    ResourcesConfig(trustedDirectory, restrictedPaths, root, allowDir, None, None, None, None, None)
  }

  // ---- the operating system -----------------------------------------------

  /**
   * `findFile_r(atDirPath:file:)`: the `readdir_r` loop stops at the entry
   * named `file` and returns it; a directory that does not open, or does not
   * list the name, gives nil.
   */
  function FindFile(disk: Disk, dir: string, file: string): (r: Option<FileType>)
    ensures dir !in disk.dirs ==> r.None?
    ensures dir in disk.dirs && file !in disk.dirs[dir] ==> r.None?
    ensures dir in disk.dirs && file in disk.dirs[dir] ==> r == Some(disk.dirs[dir][file])
    ensures r == Some(SymbolicLink) <==> dir in disk.dirs && file in disk.dirs[dir] && disk.dirs[dir][file] == SymbolicLink
  {
    if dir in disk.dirs && file in disk.dirs[dir] then Some(disk.dirs[dir][file]) else None
  }

  /** `readlink` into a zeroed buffer: the target, or nothing when the call fails. */
  function ReadLink(disk: Disk, path: string): string
  {
    if path in disk.links then disk.links[path] else ""
  }

  // ---- ".." ---------------------------------------------------------------

  /** The rebuild loop of `".."`: every non-empty piece, each after a `/`. */
  function Rebuild(pieces: seq<string>): string
  {
    if |pieces| == 0 then ""
    else
      var n := |pieces| - 1;
      Rebuild(pieces[..n]) + (if pieces[n] != "" then "/" + pieces[n] else "")
  }

  /** `".."`: the path's `/`-pieces without the last one, rebuilt. */
  function Parent(path: string): string
  {
    var pieces := Split(path, "/");
    Rebuild(pieces[..|pieces| - 1])
  }

  /** `".."` as the source computes it: `removeLast`, then the rebuild loop. */
  method ParentPath(path: string) returns (r: string)
    ensures r == Parent(path)
  {
    var components := Split(path, "/");
    components := components[..|components| - 1];
    r := "";
    for i := 0 to |components|
      invariant r == Rebuild(components[..i])
    {
      assert components[..i + 1][..i] == components[..i];
      if components[i] != "" {
        r := r + "/" + components[i];
      }
    }
    assert components[..|components|] == components;
  }

  /** A name that can stand between two `/`. */
  predicate Name(c: string)
  {
    c != "" && '/' !in c
  }

  /** Path components that are all names. */
  predicate Names(cs: seq<string>)
  {
    forall i :: 0 <= i < |cs| ==> Name(cs[i])
  }

  /** The rebuild loop skips an empty piece. */
  lemma {:induction false} RebuildSkipsEmpty(ds: seq<string>)
    ensures Rebuild([""] + ds) == Rebuild(ds)
    decreases |ds|
  {
    if |ds| > 0 {
      var n := |ds| - 1;
      assert ([""] + ds)[..n + 1] == [""] + ds[..n];
      RebuildSkipsEmpty(ds[..n]);
    }
  }

  /** Rebuilt names, read from the front: `/`, the first name, and the rest. */
  lemma {:induction false} RebuildCons(c: string, cs: seq<string>)
    requires c != ""
    ensures Rebuild([c] + cs) == "/" + c + Rebuild(cs)
    decreases |cs|
  {
    if |cs| > 0 {
      var n := |cs| - 1;
      assert ([c] + cs)[..n + 1] == [c] + cs[..n];
      RebuildCons(c, cs[..n]);
    }
  }

  /** Split on `/`, a slash-free start followed by rebuilt names gives the start and then the names. */
  lemma {:induction false} SplitRebuild(first: string, cs: seq<string>)
    requires '/' !in first && Names(cs)
    ensures Split(first + Rebuild(cs), "/") == [first] + cs
    decreases |cs|
  {
    if |cs| == 0 {
      assert first + Rebuild(cs) == first;
      SplitFree(first, '/');
    } else {
      RebuildCons(cs[0], cs[1..]);
      assert [cs[0]] + cs[1..] == cs;
      assert first + Rebuild(cs) == first + ['/'] + (cs[0] + Rebuild(cs[1..]));
      SplitCons(first, '/', cs[0] + Rebuild(cs[1..]));
      SplitRebuild(cs[0], cs[1..]);
    }
  }

  /** Rebuilt names are split back into `""` and those names. */
  lemma RebuildPieces(cs: seq<string>)
    requires Names(cs)
    ensures Split(Rebuild(cs), "/") == [""] + cs
  {
    SplitRebuild("", cs);
    assert "" + Rebuild(cs) == Rebuild(cs);
  }

  /**
   * `".."` drops the last name of a path written as `/name/.../name`; from a
   * one-name path such as `/srv` it gives `""`.
   */
  lemma ParentDropsLast(cs: seq<string>)
    requires |cs| > 0 && Names(cs)
    ensures Parent(Rebuild(cs)) == Rebuild(cs[..|cs| - 1])
  {
    RebuildPieces(cs);
    var n := |cs| - 1;
    assert ([""] + cs)[..n + 1] == [""] + cs[..n];
    RebuildSkipsEmpty(cs[..n]);
  }

  /** `".."` from `"/"` gives `""`. */
  lemma ParentOfRoot()
    ensures Parent("/") == ""
  {
    assert "/" == "" + ['/'] + "";
    SplitCons("", '/', "");
    SplitFree("", '/');
    assert Rebuild([""]) == Rebuild([]) + "";
  }

  /** `".."` from a path ending in `/` only drops that `/`: `/srv/` gives `/srv`. */
  lemma ParentOfTrailingSlash()
    ensures Parent("/srv/") == "/srv"
  {
    assert "/srv/" == "" + ['/'] + "srv/";
    assert "srv/" == "srv" + ['/'] + "";
    SplitFree("", '/');
    SplitCons("srv", '/', "");
    assert Split("srv/", "/") == ["srv", ""];
    SplitCons("", '/', "srv/");
    var pieces := Split("/srv/", "/");
    assert pieces == ["", "srv", ""];
    assert pieces[..2] == ["", "srv"];
    assert ["", "srv"][..1] == [""];
    assert Rebuild([""]) == "";
    assert Rebuild(["", "srv"]) == Rebuild([""]) + "/srv";
  }

  // ---- expandToFullPath ---------------------------------------------------

  /** The current path with one more component, joined by a single `/`. */
  function Append(path: string, name: string): string
  {
    path + (if path == "/" then "" else "/") + name
  }

  /**
   * One turn of the resolution loop: an alias for the component at the
   * current path wins over everything; then `""` and `"."` keep the path,
   * `".."` takes its parent, and any other component must be an entry of
   * the current directory (else the whole resolution is `""`), a symbolic
   * link replacing the path by its target.
   */
  function Step(disk: Disk, policy: Option<Policy>, path: string, component: string): Option<string>
  {
    if policy.Some? && component in policy.value(path) then
      var alias := policy.value(path)[component];
      Some(if alias.fullpath then alias.path else Append(path, alias.path))
    else if component == "" then Some(path)
    else if component == ".." then Some(Parent(path))
    else if component == "." then Some(path)
    else
      match FindFile(disk, path, component)
      case None => None
      case Some(t) => Some(if t == SymbolicLink then ReadLink(disk, path + "/" + component) else Append(path, component))
  }

  /** The components, left to right, from `path`. */
  function Resolve(disk: Disk, policy: Option<Policy>, path: string, components: seq<string>): string
    decreases |components|
  {
    if |components| == 0 then path
    else
      match Step(disk, policy, path, components[0])
      case None => ""
      case Some(next) => Resolve(disk, policy, next, components[1..])
  }

  /** What `expandToFullPath` returns: the `/`-components of `path` resolved from `"/"`. */
  function FullPath(disk: Disk, policy: Option<Policy>, path: string): string
  {
    Resolve(disk, policy, "/", Split(path, "/"))
  }

  /** `expandToFullPath(path:virtualPathPolicy:)`; the source's optional result is never nil. */
  method ExpandToFullPath(disk: Disk, policy: Option<Policy>, path: string) returns (r: string)
    ensures r == FullPath(disk, policy, path)
  {
    var root := "/";
    var components := Split(path, "/");
    for i := 0 to |components|
      invariant Resolve(disk, policy, root, components[i..]) == FullPath(disk, policy, path)
    {
      var component := components[i];
      assert components[i..][1..] == components[i + 1..];
      if policy.Some? {
        var m := policy.value(root);
        if component in m {
          var alias := m[component];
          if alias.fullpath {
            root := alias.path;
            continue;
          } else {
            root := root + (if root == "/" then "" else "/") + alias.path;
            continue;
          }
        }
      }
      if component == "" {
        continue;
      } else if component == ".." {
        root := ParentPath(root);
        continue;
      } else if component == "." {
        continue;
      }
      var dirent := FindFile(disk, root, component);
      if dirent.None? {
        return "";
      }
      if dirent.value == SymbolicLink {
        root := ReadLink(disk, root + "/" + component);
      } else {
        root := root + (if root == "/" then "" else "/") + component;
      }
    }
    assert components[|components|..] == [];
    r := root;
  }

  /** An alias is taken before anything else, even for `""`, `"."` and `".."`. */
  lemma AliasFirst(disk: Disk, policy: Policy, path: string, c: string, rest: seq<string>)
    requires c in policy(path)
    ensures var a := policy(path)[c];
      Resolve(disk, Some(policy), path, [c] + rest)
        == Resolve(disk, Some(policy), if a.fullpath then a.path else Append(path, a.path), rest)
  {
    assert ([c] + rest)[1..] == rest;
  }

  /** Without an alias, `""` and `"."` leave the path as it is. */
  lemma DotIgnored(disk: Disk, policy: Option<Policy>, path: string, c: string, rest: seq<string>)
    requires c == "" || c == "."
    requires policy.None? || c !in policy.value(path)
    ensures Resolve(disk, policy, path, [c] + rest) == Resolve(disk, policy, path, rest)
  {
    assert ([c] + rest)[1..] == rest;
  }

  /** A component the current directory does not list makes the whole result `""`, whatever follows. */
  lemma MissingIsEmpty(disk: Disk, policy: Option<Policy>, path: string, c: string, rest: seq<string>)
    requires c != "" && c != "." && c != ".."
    requires policy.None? || c !in policy.value(path)
    requires FindFile(disk, path, c).None?
    ensures Resolve(disk, policy, path, [c] + rest) == ""
  {
  }

  /** A symbolic link replaces the whole current path by its target. */
  lemma LinkReplaces(disk: Disk, policy: Option<Policy>, path: string, c: string, rest: seq<string>)
    requires c != "" && c != "." && c != ".."
    requires policy.None? || c !in policy.value(path)
    requires FindFile(disk, path, c) == Some(SymbolicLink)
    ensures Resolve(disk, policy, path, [c] + rest) == Resolve(disk, policy, ReadLink(disk, path + "/" + c), rest)
  {
    assert ([c] + rest)[1..] == rest;
  }

  /** The directory reached after the first `k` names, from `"/"`. */
  function Prefix(cs: seq<string>, k: nat): string
    requires k <= |cs|
  {
    if k == 0 then "/" else Rebuild(cs[..k])
  }

  /** The directory lists `c` as an entry that is not a symbolic link. */
  predicate Enters(disk: Disk, dir: string, c: string)
  {
    var t := FindFile(disk, dir, c);
    t.Some? && t.value != SymbolicLink
  }

  /** Each prefix of `cs` lists the next name as an entry that is not a link. */
  predicate Walkable(disk: Disk, cs: seq<string>)
  {
    forall i :: 0 <= i < |cs| ==> Enters(disk, Prefix(cs, i), cs[i])
  }

  /** A name that is neither `"."` nor `".."`. */
  predicate Plain(c: string)
  {
    Name(c) && c != "." && c != ".."
  }

  /** Path components that are all plain names. */
  predicate Plains(cs: seq<string>)
  {
    forall i :: 0 <= i < |cs| ==> Plain(cs[i])
  }

  /** Rebuilt names are never the bare `"/"`. */
  lemma RebuildLong(cs: seq<string>)
    requires |cs| > 0 && Names(cs)
    ensures |Rebuild(cs)| >= 2
  {
    RebuildCons(cs[0], cs[1..]);
    assert [cs[0]] + cs[1..] == cs;
  }

  /** Appending the next name to a prefix gives the next prefix. */
  lemma AppendPrefix(cs: seq<string>, k: nat)
    requires k < |cs| && Names(cs)
    ensures Append(Prefix(cs, k), cs[k]) == Prefix(cs, k + 1)
  {
    var c := cs[k];
    assert cs[..k + 1][..k] == cs[..k];
    assert Rebuild(cs[..k + 1]) == Rebuild(cs[..k]) + "/" + c;
    if k > 0 {
      assert Names(cs[..k]);
      RebuildLong(cs[..k]);
    }
  }

  /** Without an alias, a plain name listed as a non-link entry is appended. */
  lemma StepPlain(disk: Disk, path: string, c: string)
    requires Plain(c) && Enters(disk, path, c)
    ensures Step(disk, None, path, c) == Some(Append(path, c))
  {
  }

  /** The resolution goes on from where one step leads. */
  lemma ResolveCons(disk: Disk, policy: Option<Policy>, path: string, cs: seq<string>, next: string)
    requires |cs| > 0 && Step(disk, policy, path, cs[0]) == Some(next)
    ensures Resolve(disk, policy, path, cs) == Resolve(disk, policy, next, cs[1..])
  {
  }

  /** Without aliases, one plain name more of the walk. */
  lemma WalkStep(disk: Disk, cs: seq<string>, k: nat)
    requires k < |cs| && Plain(cs[k]) && Names(cs) && Enters(disk, Prefix(cs, k), cs[k])
    ensures Resolve(disk, None, Prefix(cs, k), cs[k..]) == Resolve(disk, None, Prefix(cs, k + 1), cs[k + 1..])
  {
    StepPlain(disk, Prefix(cs, k), cs[k]);
    AppendPrefix(cs, k);
    assert cs[k..][1..] == cs[k + 1..];
    ResolveCons(disk, None, Prefix(cs, k), cs[k..], Prefix(cs, k + 1));
  }

  /** Without aliases, walking the plain names after the first `k` ends at the last prefix. */
  lemma {:induction false} ResolveWalk(disk: Disk, cs: seq<string>, k: nat)
    requires 0 < |cs| && k <= |cs| && Plains(cs) && Walkable(disk, cs)
    ensures Resolve(disk, None, Prefix(cs, k), cs[k..]) == Rebuild(cs)
    decreases |cs| - k
  {
    if k < |cs| {
      WalkStep(disk, cs, k);
      ResolveWalk(disk, cs, k + 1);
    } else {
      assert cs[..|cs|] == cs;
    }
  }

  /**
   * Without aliases, `/a/b/...` made of plain names that each directory
   * lists as a non-link entry resolves to itself.
   */
  lemma PlainPathResolves(disk: Disk, cs: seq<string>)
    requires |cs| > 0 && Walkable(disk, cs) && Plains(cs)
    ensures FullPath(disk, None, Rebuild(cs)) == Rebuild(cs)
  {
    assert Names(cs);
    RebuildPieces(cs);
    ResolveCons(disk, None, "/", [""] + cs, "/");
    assert ([""] + cs)[1..] == cs == cs[0..];
    ResolveWalk(disk, cs, 0);
  }

  /** Without aliases, a step into a plain entry of a directory and then `".."` come back where they started. */
  lemma UpUndoesDown(disk: Disk, cs: seq<string>, c: string, rest: seq<string>)
    requires |cs| > 0 && Names(cs) && Plain(c) && Enters(disk, Rebuild(cs), c)
    ensures Resolve(disk, None, Rebuild(cs), [c, ".."] + rest) == Resolve(disk, None, Rebuild(cs), rest)
  {
    var down := cs + [c];
    assert down[..|cs|] == cs && down[|cs|] == c;
    assert Names(down);
    AppendPrefix(down, |cs|);
    assert down[..|cs| + 1] == down;
    StepPlain(disk, Rebuild(cs), c);
    ResolveCons(disk, None, Rebuild(cs), [c, ".."] + rest, Rebuild(down));
    ParentDropsLast(down);
    assert ([c, ".."] + rest)[1..] == [".."] + rest;
    ResolveCons(disk, None, Rebuild(down), [".."] + rest, Rebuild(cs));
    assert ([".."] + rest)[1..] == rest;
  }

  // ---- contentIsRestricted ------------------------------------------------

  /**
   * `contentIsRestricted(at:isDir:)`: a directory when directories are not
   * allowed, whatever the restriction policy refuses, and every path that
   * does not begin, as text, with the root or a trusted directory.
   */
  predicate ContentRestricted(cfg: ResourcesConfig, path: string, isDir: bool)
  {
    || (isDir && !cfg.allowDir)
    || (cfg.restrictionPolicy.Some? && cfg.restrictionPolicy.value(path, isDir))
    || !(HasPrefix(path, cfg.root) || exists i :: 0 <= i < |cfg.trustedDirectory| && HasPrefix(path, cfg.trustedDirectory[i]))
  }

  /** The source's early returns and its `trusted` flag, set in a loop over the trusted directories. */
  method ContentIsRestricted(cfg: ResourcesConfig, path: string, isDir: bool) returns (r: bool)
    ensures r == ContentRestricted(cfg, path, isDir)
  {
    if isDir && !cfg.allowDir {
      return true;
    }
    if cfg.restrictionPolicy.Some? {
      if cfg.restrictionPolicy.value(path, isDir) {
        return true;
      }
    }
    var trusted := false;
    if !HasPrefix(path, cfg.root) {
      for i := 0 to |cfg.trustedDirectory|
        invariant trusted <==> exists j :: 0 <= j < i && HasPrefix(path, cfg.trustedDirectory[j])
      {
        if HasPrefix(path, cfg.trustedDirectory[i]) {
          trusted := true;
        }
      }
    } else {
      trusted := true;
    }
    if !trusted {
      return true;
    }
    return false;
  }

  /** The prefix tests are on text: `/srv/www-old` lies inside the root `/srv/www`. */
  lemma PrefixIsTextual()
    ensures !ContentRestricted(NewConfig([], [], "/srv/www", false), "/srv/www-old/key", false)
  {
    assert "/srv/www-old/key"[..|"/srv/www"|] == "/srv/www";
  }

  /**
   * A freshly made configuration has no restriction policy: content is
   * restricted exactly when it is a directory that is not allowed, or it
   * begins with neither the root nor a trusted directory.
   */
  lemma NewConfigRestriction(trustedDirectory: seq<string>, restrictedPaths: seq<string>, root: string, allowDir: bool, path: string, isDir: bool)
    ensures ContentRestricted(NewConfig(trustedDirectory, restrictedPaths, root, allowDir), path, isDir)
      <==> ((isDir && !allowDir)
            || !(HasPrefix(path, root) || exists i :: 0 <= i < |trustedDirectory| && HasPrefix(path, trustedDirectory[i])))
  {
  }

  /**
   * An empty root, or an empty trusted directory, trusts nothing: `""` is a
   * prefix of no path, so every path is restricted unless another entry covers it.
   */
  lemma EmptyRootTrustsNothing(cfg: ResourcesConfig, path: string, isDir: bool)
    requires cfg.root == ""
    requires forall i :: 0 <= i < |cfg.trustedDirectory| ==> cfg.trustedDirectory[i] == ""
    ensures ContentRestricted(cfg, path, isDir)
  {
  }

  // ---- contents and resource ----------------------------------------------

  /** `contents(at:isDirectory:)`: the directory representation for a directory, when there is one; else the file on disk. */
  function Contents(cfg: ResourcesConfig, disk: Disk, path: string, isDirectory: bool): Option<Bytes>
  {
    if isDirectory && cfg.directoryRepresentation.Some? then cfg.directoryRepresentation.value(path)
    else if path in disk.files then Some(disk.files[path])
    else None
  }

  /** A file's contents come from the disk, and a missing file has none, whatever the directory representation. */
  lemma ContentsOfFile(cfg: ResourcesConfig, disk: Disk, path: string)
    ensures Contents(cfg, disk, path, false).Some? <==> path in disk.files
    ensures path in disk.files ==> Contents(cfg, disk, path, false) == Some(disk.files[path])
  {
  }

  /** The representation a caller installed, applied to a path, if any. */
  function Represent(rep: Option<string -> Bytes>, path: string): Option<Bytes>
  {
    if rep.Some? then Some(rep.value(path)) else None
  }

  /**
   * `resource(atPath:)`: the root and the path resolved; an empty result is
   * not found (represented by the path as asked for), a missing file is not
   * found (represented by the full path), a restricted file is restricted,
   * and anything else is available with its contents.
   */
  function ResourceOf(cfg: ResourcesConfig, disk: Disk, path: string): Resource
  {
    var fullpath := FullPath(disk, cfg.virtualPathPolicy, cfg.root + path);
    if fullpath == "" then NotFound(Represent(cfg.resourceNotFoundRepresentation, path))
    else if fullpath !in disk.stat then NotFound(Represent(cfg.resourceNotFoundRepresentation, fullpath))
    else
      var isDir := disk.stat[fullpath];
      if ContentRestricted(cfg, fullpath, isDir) then Restricted(Represent(cfg.restrictedResourcesRepresentation, fullpath))
      else Available(Contents(cfg, disk, fullpath, isDir))
  }

  /** `resource(atPath:)`, over the resolution and restriction loops. */
  method ResourceAt(cfg: ResourcesConfig, disk: Disk, path: string) returns (r: Resource)
    ensures r == ResourceOf(cfg, disk, path)
  {
    var fullpath := ExpandToFullPath(disk, cfg.virtualPathPolicy, cfg.root + path);
    if fullpath == "" {
      return NotFound(Represent(cfg.resourceNotFoundRepresentation, path));
    }
    if fullpath !in disk.stat {
      return NotFound(Represent(cfg.resourceNotFoundRepresentation, fullpath));
    }
    var isDir := disk.stat[fullpath];
    var restricted := ContentIsRestricted(cfg, fullpath, isDir);
    if restricted {
      return Restricted(Represent(cfg.restrictedResourcesRepresentation, fullpath));
    }
    r := Available(Contents(cfg, disk, fullpath, isDir));
  }

  /**
   * The outcomes of `resource(atPath:)`: never `inavailable`; not found
   * exactly when the resolution is empty or names nothing on disk;
   * restricted exactly when what it names is restricted; otherwise available
   * with the contents of the full path.
   */
  lemma ResourceOutcomes(cfg: ResourcesConfig, disk: Disk, path: string)
    ensures var r := ResourceOf(cfg, disk, path);
      var fullpath := FullPath(disk, cfg.virtualPathPolicy, cfg.root + path);
      && !r.Inavailable?
      && (r.NotFound? <==> fullpath == "" || fullpath !in disk.stat)
      && (r.Restricted? <==> fullpath != "" && fullpath in disk.stat && ContentRestricted(cfg, fullpath, disk.stat[fullpath]))
      && (r.Available? ==> r == Available(Contents(cfg, disk, fullpath, disk.stat[fullpath])))
  {
  }

  /** `restrictedPaths` is never read: any list of them gives the same answer. */
  lemma RestrictedPathsUnused(cfg: ResourcesConfig, disk: Disk, path: string, paths: seq<string>)
    ensures ResourceOf(cfg.(restrictedPaths := paths), disk, path) == ResourceOf(cfg, disk, path)
  {
  }

  /**
   * A `".."` that leaves the root is judged on the path it leads to: outside
   * the root and every trusted directory, an existing file is restricted,
   * not served.
   */
  lemma EscapeRestricted(cfg: ResourcesConfig, disk: Disk, path: string)
    requires var fullpath := FullPath(disk, cfg.virtualPathPolicy, cfg.root + path);
      && fullpath != "" && fullpath in disk.stat
      && !HasPrefix(fullpath, cfg.root)
      && forall i :: 0 <= i < |cfg.trustedDirectory| ==> !HasPrefix(fullpath, cfg.trustedDirectory[i])
    ensures ResourceOf(cfg, disk, path)
      == Restricted(Represent(cfg.restrictedResourcesRepresentation, FullPath(disk, cfg.virtualPathPolicy, cfg.root + path)))
  {
  }

  /** One more name at the end of a rebuilt path. */
  lemma RebuildSnoc(cs: seq<string>, c: string)
    requires c != ""
    ensures Rebuild(cs + [c]) == Rebuild(cs) + "/" + c
  {
    assert (cs + [c])[..|cs|] == cs;
  }

  /** `/../` is `/`, `..` and `/`. */
  lemma UpLiteral(r: string, x: string)
    ensures r + ("/../" + x) == r + "/" + ".." + "/" + x
  {
    assert "/../" == "/" + ".." + "/";
  }

  /** `/a/b/../x`, rebuilt from its names. */
  lemma EscapeRebuild(a: string, b: string, x: string)
    requires x != ""
    ensures Rebuild([a, b, "..", x]) == Rebuild([a, b]) + ("/../" + x)
  {
    RebuildSnoc([a, b], "..");
    assert [a, b] + [".."] == [a, b, ".."];
    RebuildSnoc([a, b, ".."], x);
    assert [a, b, ".."] + [x] == [a, b, "..", x];
    UpLiteral(Rebuild([a, b]), x);
  }

  /** A path below `/a/b` going up once and then down into `x`: its components. */
  lemma EscapePieces(a: string, b: string, x: string)
    requires Plain(a) && Plain(b) && Plain(x)
    ensures Split(Rebuild([a, b]) + ("/../" + x), "/") == ["", a, b, "..", x]
  {
    EscapeRebuild(a, b, x);
    var cs := [a, b, "..", x];
    assert Names(cs);
    RebuildPieces(cs);
  }

  /** Text that starts the same way keeps or loses a prefix with what follows. */
  lemma PrefixCancel(p: string, x: string, b: string)
    requires b != "" && HasPrefix(p + x, p + b)
    ensures HasPrefix(x, b)
  {
    assert x[..|b|] == (p + x)[..|p + b|][|p|..];
  }

  /** Without aliases, `/a/b/...` first goes down into `/a/b`. */
  lemma EscapeDown(disk: Disk, a: string, b: string, x: string)
    requires Plain(a) && Plain(b) && Plain(x)
    requires Enters(disk, "/", a) && Enters(disk, Rebuild([a]), b)
    ensures Resolve(disk, None, "/", ["", a, b, "..", x]) == Resolve(disk, None, Rebuild([a, b]), ["..", x])
  {
    var cs := [a, b, "..", x];
    assert Names(cs);
    ResolveCons(disk, None, "/", [""] + cs, "/");
    assert ([""] + cs)[1..] == cs == cs[0..];
    assert cs[..1] == [a] && cs[..2] == [a, b];
    WalkStep(disk, cs, 0);
    WalkStep(disk, cs, 1);
    assert cs[2..] == ["..", x];
  }

  /** Without aliases, `..` and then a plain entry `x` of the parent end at the parent's `x`. */
  lemma UpThenDown(disk: Disk, q: string, x: string)
    requires Plain(x) && Enters(disk, Parent(q), x)
    ensures Resolve(disk, None, q, ["..", x]) == Append(Parent(q), x)
  {
    ResolveCons(disk, None, q, ["..", x], Parent(q));
    assert ["..", x][1..] == [x];
    StepPlain(disk, Parent(q), x);
    ResolveCons(disk, None, Parent(q), [x], Append(Parent(q), x));
  }

  /** Without aliases, `..` from `/a/b` and then `x` end at `/a/x`. */
  lemma EscapeUp(disk: Disk, a: string, b: string, x: string)
    requires Plain(a) && Plain(b) && Plain(x) && Enters(disk, Rebuild([a]), x)
    ensures Resolve(disk, None, Rebuild([a, b]), ["..", x]) == Rebuild([a, x])
  {
    assert Names([a, b]) && [a, b][..1] == [a];
    ParentDropsLast([a, b]);
    assert Names([a, x]) && [a, x][..1] == [a] && [a, x][..2] == [a, x];
    AppendPrefix([a, x], 1);
    UpThenDown(disk, Rebuild([a, b]), x);
  }

  /** Without aliases, `/a/b/../x` goes down into `/a/b`, back up to `/a`, and ends at `/a/x`. */
  lemma EscapePath(disk: Disk, a: string, b: string, x: string)
    requires Plain(a) && Plain(b) && Plain(x)
    requires Enters(disk, "/", a) && Enters(disk, Rebuild([a]), b) && Enters(disk, Rebuild([a]), x)
    ensures FullPath(disk, None, Rebuild([a, b]) + ("/../" + x)) == Rebuild([a, x])
  {
    EscapePieces(a, b, x);
    EscapeDown(disk, a, b, x);
    EscapeUp(disk, a, b, x);
  }

  /**
   * With the root `/a/b`, the request path `/../x` resolves to the file
   * `/a/x`, which lies outside the root (unless `b` begins `x`) and is
   * answered as restricted.
   */
  lemma EscapeExample(disk: Disk, a: string, b: string, x: string)
    requires Plain(a) && Plain(b) && Plain(x) && !HasPrefix(x, b)
    requires Enters(disk, "/", a) && Enters(disk, Rebuild([a]), b) && Enters(disk, Rebuild([a]), x)
    requires Rebuild([a, x]) in disk.stat && !disk.stat[Rebuild([a, x])]
    ensures ResourceOf(NewConfig([], [], Rebuild([a, b]), false), disk, "/../" + x) == Restricted(None)
  {
    var cfg := NewConfig([], [], Rebuild([a, b]), false);
    EscapePath(disk, a, b, x);
    EscapeOutside(a, b, x);
    RebuildLong([a, x]);
    EscapeRestricted(cfg, disk, "/../" + x);
  }

  /** `/a/x` does not begin with `/a/b` unless `x` begins with `b`. */
  lemma EscapeOutside(a: string, b: string, x: string)
    requires a != "" && b != "" && x != "" && !HasPrefix(x, b)
    ensures !HasPrefix(Rebuild([a, x]), Rebuild([a, b]))
  {
    var p := "/" + a + "/";
    RebuildSnoc([], a);
    RebuildSnoc([a], b);
    RebuildSnoc([a], x);
    assert [] + [a] == [a] && [a] + [b] == [a, b] && [a] + [x] == [a, x];
    assert Rebuild([a, x]) == p + x && Rebuild([a, b]) == p + b;
    if HasPrefix(Rebuild([a, x]), Rebuild([a, b])) {
      PrefixCancel(p, x, b);
    }
  }
}

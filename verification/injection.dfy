/**
 * Injection as the program performs it: inject_textures updates a vector
 * of textures in place (an array here), and g1t_inject derives the
 * container's path, loads it, injects and saves it only when everything
 * succeeded.
 */
module Injection {
  import opened Wrappers
  import opened Text
  import opened Paths
  import opened Formats
  import opened Textures
  import opened Naming
  import opened InjectSpec

  /**
   * The mip reconciliation at the end of inject_textures for an array:
   * find the smallest mip count, and when some slice differs from the first
   * one, reduce every slice that is not at the minimum.
   */
  method ReconcileArrayMips(textures: array<Texture>, reduceFails: (Texture, nat) -> bool) returns (ret: int)
    requires textures.Length > 0
    modifies textures
    ensures Outcome(ret, textures[..]) == Reconcile(old(textures[..]), reduceFails)
  {
    ghost var t0 := textures[..];
    var lowerMips := textures[0].mips;
    var patchNeeded := false;
    for i := 1 to textures.Length
      invariant lowerMips == MinMips(textures[..i])
      invariant !patchNeeded ==> lowerMips == textures[0].mips
      invariant patchNeeded <==> exists k :: 0 <= k < i && textures[k].mips != textures[0].mips
    {
      assert textures[..i + 1][..i] == textures[..i];
      if textures[i].mips != lowerMips {
        patchNeeded := true;
        if textures[i].mips < lowerMips {
          lowerMips := textures[i].mips;
        }
      }
    }
    assert textures[..textures.Length] == t0;
    if patchNeeded {
      for i := 0 to textures.Length
        invariant ReconcileFrom(textures[..], lowerMips, reduceFails, i) == Reconcile(t0, reduceFails)
      {
        if textures[i].mips != lowerMips {
          if reduceFails(textures[i], lowerMips) {
            return -1;
          }
          textures[i] := textures[i].(mips := lowerMips);
        }
      }
    } else {
      ReconcileUnneeded(t0, lowerMips, reduceFails, 0);
    }
    ret := 0;
  }

  /**
   * The part of the loop of inject_textures that locates slot i's DDS file
   * (a directory search with several units, the path itself otherwise),
   * loads it and converts it.
   */
  method ReadTexture(tex: Texture, i: nat, units: nat, path: string, isArray: bool, disk: Disk, lib: Library,
                     ghost ts: seq<Texture>)
    returns (r: Read)
    requires i < |ts| == units && ts[i] == tex
    ensures r == Reads(ts, path, isArray, disk, lib)[i]
  {
    var fpath: string;
    if units > 1 {
      var found := Resolve(disk.entries(path), Stem(SlotPrefix(isArray), i));
      if found.Absent? {
        return Skip;
      }
      if found.Ambiguous? {
        return Fail;
      }
      fpath := Join(path, found.name);
    } else {
      fpath := path;
    }
    var dds := disk.loadDds(fpath);
    if dds.None? {
      return Fail;
    }
    var replaced := lib.fromDds(tex, dds.value);
    if replaced.None? {
      return Fail;
    }
    r := Got(replaced.value);
  }

  /**
   * The rest of the loop body of inject_textures once slot i's file has
   * been converted into `t`: store it; for an array, take the first
   * replaced slice as the baseline or check the slice against it; for
   * other textures, bring a grown mip count back down. `stop` is the code
   * inject_textures returns here, if it returns.
   */
  method PlaceTexture(textures: array<Texture>, i: nat, t: Texture, isArray: bool, reduceFails: (Texture, nat) -> bool,
                      num: nat, base: Baseline)
    returns (stop: Option<int>, newBase: Baseline)
    requires i < textures.Length
    modifies textures
    ensures forall k :: 0 <= k < textures.Length && k != i ==> textures[k] == old(textures[k])
    ensures match SlotStep(Got(t), isArray, reduceFails, i, old(textures[..]), num, base)
      case Stop(o) => stop == Some(o.code) && textures[..] == o.textures
      case Next(ts', _, b') => stop == None && textures[..] == ts' && newBase == b'
  {
    var previousMips := textures[i].mips;
    textures[i] := t;
    newBase := base;
    if isArray {
      if num == 0 {
        newBase := Baseline(t.format, t.width, t.height);
      } else {
        if t.format != base.format {
          return Some(-1), base;
        }
        if t.width != base.width || t.height != base.height {
          return Some(-1), base;
        }
      }
    } else if t.mips > previousMips {
      if reduceFails(t, previousMips) {
        // the source's `return false` from a function returning int
        return Some(0), base;
      }
      textures[i] := t.(mips := previousMips);
    }
    stop := None;
  }

  /**
   * One pass of the loop of inject_textures for slot i: read the slot and,
   * when it yielded a texture, place it. `stop` is the code inject_textures
   * returns here, if it returns; otherwise the loop goes on from slot i + 1
   * with the new count and baseline.
   */
  method InjectSlot(textures: array<Texture>, i: nat, path: string, isArray: bool, disk: Disk, lib: Library,
                    num: nat, base: Baseline, ghost t0: seq<Texture>)
    returns (stop: Option<int>, newNum: nat, newBase: Baseline)
    requires i < textures.Length == |t0| && textures[i] == t0[i]
    modifies textures
    ensures forall k :: 0 <= k < textures.Length && k != i ==> textures[k] == old(textures[k])
    ensures var rs := Reads(t0, path, isArray, disk, lib);
      stop.Some? ==> Loop(rs, isArray, lib.reduceFails, i, old(textures[..]), num, base) == Stop(Outcome(stop.value, textures[..]))
    ensures var rs := Reads(t0, path, isArray, disk, lib);
      stop.None? ==> Loop(rs, isArray, lib.reduceFails, i, old(textures[..]), num, base)
                     == Loop(rs, isArray, lib.reduceFails, i + 1, textures[..], newNum, newBase)
  {
    var read := ReadTexture(textures[i], i, textures.Length, path, isArray, disk, lib, t0);
    newNum, newBase := num, base;
    if read.Skip? {
      return None, num, base;
    }
    if read.Fail? {
      return Some(-1), num, base;
    }
    stop, newBase := PlaceTexture(textures, i, read.tex, isArray, lib.reduceFails, num, base);
    if stop.None? {
      newNum := num + 1;
    }
  }

  /**
   * The end of inject_textures, once every slot has been through the loop
   * with `num` of them replaced: nothing replaced among several textures is
   * an error, and an array's slices are reconciled.
   */
  method FinishInjection(textures: array<Texture>, num: nat, isArray: bool, reduceFails: (Texture, nat) -> bool)
    returns (ret: int)
    requires isArray ==> textures.Length > 0
    modifies textures
    ensures Outcome(ret, textures[..]) == Finish(old(textures[..]), num, isArray, reduceFails)
  {
    var multiple := textures.Length > 1;
    if multiple && num == 0 {
      return -1;
    }
    if isArray {
      ret := ReconcileArrayMips(textures, reduceFails);
    } else {
      ret := 0;
    }
  }

  /** inject_textures: replace the textures from the DDS files found for them, in index order. */
  method InjectTextures(textures: array<Texture>, path: string, isArray: bool, disk: Disk, lib: Library) returns (ret: int)
    requires isArray ==> textures.Length > 0
    modifies textures
    ensures Outcome(ret, textures[..]) == Inject(old(textures[..]), path, isArray, disk, lib)
  {
    ghost var t0 := textures[..];
    ghost var rs := Reads(t0, path, isArray, disk, lib);
    var base := Baseline(0, 0, 0);
    var num := 0;
    var i := 0;
    while i < textures.Length
      invariant 0 <= i <= textures.Length
      invariant forall k :: i <= k < textures.Length ==> textures[k] == t0[k]
      invariant Loop(rs, isArray, lib.reduceFails, i, textures[..], num, base)
                == Loop(rs, isArray, lib.reduceFails, 0, t0, 0, Baseline(0, 0, 0))
    {
      var stop;
      stop, num, base := InjectSlot(textures, i, path, isArray, disk, lib, num, base, t0);
      if stop.Some? {
        return stop.value;
      }
      i := i + 1;
    }
    ret := FinishInjection(textures, num, isArray, lib.reduceFails);
  }

  /** The directory a file's container is looked for in: the file's own, or "./" for a bare name. */
  function ContainerDir(path: string): string {
    if DirName(path) == path then "./" else DirName(path)
  }

  /**
   * g1t_path for a directory: the normalised path without its trailing '/'
   * characters, plus ".g1t".
   */
  function DirContainer(path: string): string {
    TrimTrailing(Normalize(path), '/') + ".g1t"
  }

  /**
   * The container of a directory ends in ".g1t" after a prefix of the
   * normalised path that does not end in '/' and leaves only '/' behind.
   */
  lemma DirContainerShape(path: string)
    ensures var r := DirContainer(path);
      && |r| >= 4 && r[|r| - 4..] == ".g1t"
      && var t := r[..|r| - 4];
         && |t| <= |path| && t == Normalize(path)[..|t|]
         && (t == [] || t[|t| - 1] != '/')
         && (forall k :: |t| <= k < |path| ==> Normalize(path)[k] == '/')
  {
    var t := TrimTrailing(Normalize(path), '/');
    assert (t + ".g1t")[..|t|] == t;
  }

  /**
   * g1t_path for a file: in the file's directory, the file name up to its
   * first '.', plus ".g1t".
   */
  function FileContainer(path: string): string {
    Join(ContainerDir(path), FirstField(FileName(path), '.') + ".g1t")
  }

  /**
   * The container of a file lies in the file's directory and is named after
   * the longest dot-free prefix of the file's name, plus ".g1t".
   */
  lemma FileContainerShape(path: string)
    ensures var r, dir := FileContainer(path), JoinPrefix(ContainerDir(path));
      && |dir| + 4 <= |r| && r[..|dir|] == dir && r[|r| - 4..] == ".g1t"
      && var name := r[|dir|..|r| - 4];
         && |name| <= |FileName(path)| && name == FileName(path)[..|name|]
         && (forall k :: 0 <= k < |name| ==> name[k] != '.')
         && (|name| < |FileName(path)| ==> FileName(path)[|name|] == '.')
  {
    var dir := JoinPrefix(ContainerDir(path));
    var name := FirstField(FileName(path), '.');
    var r := FileContainer(path);
    assert r == dir + name + ".g1t";
    assert r[..|dir|] == dir;
    assert r[|dir|..|r| - 4] == name;
  }

  /** g1t_path: the container for a directory or a file; a path that is neither has none. */
  function ContainerPath(path: string, disk: Disk): Option<string> {
    if disk.dirExists(path) then Some(DirContainer(path))
    else if disk.fileExists(path) then Some(FileContainer(path))
    else None
  }

  /**
   * A texture extracted from a single-texture container leads back to it:
   * for a container d + b + ".g1t" whose directory part d ends in a
   * separator and whose base name b has no separator and no '.', the
   * extracted DDS file is d + b + ext, and the container path derived from
   * that file is the original one.
   */
  lemma SingleFileRoundTrip(d: string, b: string, ext: string, disk: Disk)
    requires d != [] && IsSep(d[|d| - 1])
    requires forall k :: 0 <= k < |b| ==> !IsSep(b[k]) && b[k] != '.'
    requires IsDdsSuffix(ext) && forall k :: 0 <= k < |ext| ==> !IsSep(ext[k])
    requires !disk.dirExists(d + (b + ext)) && disk.fileExists(d + (b + ext))
    ensures OutputPath(d + b + ".g1t", 1, SlotPrefix(false), 0, ext) == d + (b + ext)
    ensures ContainerPath(d + (b + ext), disk) == Some(d + b + ".g1t")
  {
    OutputOfSplit(d, b, ext);
    FileContainerOfSplit(d, b, ext, disk);
  }

  /**
   * The round trip breaks for a base name with a '.': the container
   * d + b1 + "." + b2 + ".g1t" saves its single texture as
   * d + b1 + "." + b2 + ext, and injecting that file looks for the
   * different container d + b1 + ".g1t", named after the first
   * '.'-separated component only.
   */
  lemma DottedBaseNameMissesContainer(d: string, b1: string, b2: string, ext: string, disk: Disk)
    requires d != [] && IsSep(d[|d| - 1])
    requires forall k :: 0 <= k < |b1| ==> !IsSep(b1[k]) && b1[k] != '.'
    requires forall k :: 0 <= k < |b2| ==> !IsSep(b2[k])
    requires ext != [] && ext[0] == '.' && forall k :: 0 <= k < |ext| ==> !IsSep(ext[k])
    requires !disk.dirExists(d + (b1 + "." + b2 + ext)) && disk.fileExists(d + (b1 + "." + b2 + ext))
    ensures OutputPath(d + (b1 + "." + b2) + ".g1t", 1, SlotPrefix(false), 0, ext) == d + (b1 + "." + b2 + ext)
    ensures ContainerPath(d + (b1 + "." + b2 + ext), disk) == Some(d + b1 + ".g1t")
    ensures d + b1 + ".g1t" != d + (b1 + "." + b2) + ".g1t"
  {
    DottedOutput(d, b1, b2, ext);
    DottedContainer(d, b1, b2, ext, disk);
    DottedDiffers(d, b1, b2);
  }

  lemma DottedContainer(d: string, b1: string, b2: string, ext: string, disk: Disk)
    requires d != [] && IsSep(d[|d| - 1])
    requires forall k :: 0 <= k < |b1| ==> !IsSep(b1[k]) && b1[k] != '.'
    requires forall k :: 0 <= k < |b2| ==> !IsSep(b2[k])
    requires forall k :: 0 <= k < |ext| ==> !IsSep(ext[k])
    requires !disk.dirExists(d + (b1 + "." + b2 + ext)) && disk.fileExists(d + (b1 + "." + b2 + ext))
    ensures ContainerPath(d + (b1 + "." + b2 + ext), disk) == Some(d + b1 + ".g1t")
  {
    DottedRest(b1, b2, ext);
    FileContainerOfSplit(d, b1, "." + b2 + ext, disk);
  }

  lemma DottedDiffers(d: string, b1: string, b2: string)
    ensures d + b1 + ".g1t" != d + (b1 + "." + b2) + ".g1t"
  {
    assert |d + b1 + ".g1t"| < |d + (b1 + "." + b2) + ".g1t"|;
  }

  lemma DottedOutput(d: string, b1: string, b2: string, ext: string)
    requires d != [] && IsSep(d[|d| - 1])
    requires forall k :: 0 <= k < |b1| ==> !IsSep(b1[k])
    requires forall k :: 0 <= k < |b2| ==> !IsSep(b2[k])
    ensures OutputPath(d + (b1 + "." + b2) + ".g1t", 1, SlotPrefix(false), 0, ext) == d + (b1 + "." + b2 + ext)
  {
    NoSepConcat(b1, ".");
    NoSepConcat(b1 + ".", b2);
    OutputOfSplit(d, b1 + "." + b2, ext);
  }

  lemma DottedRest(b1: string, b2: string, ext: string)
    requires forall k :: 0 <= k < |b2| ==> !IsSep(b2[k])
    requires forall k :: 0 <= k < |ext| ==> !IsSep(ext[k])
    ensures var rest := "." + b2 + ext;
      rest != [] && rest[0] == '.' && forall k :: 0 <= k < |rest| ==> !IsSep(rest[k])
    ensures b1 + "." + b2 + ext == b1 + ("." + b2 + ext)
  {
    NoSepConcat(".", b2);
    NoSepConcat("." + b2, ext);
  }

  /** The container d + b + ".g1t" has directory part d and base name b. */
  lemma ContainerNameOfSplit(d: string, b: string)
    requires d != [] && IsSep(d[|d| - 1])
    requires forall k :: 0 <= k < |b| ==> !IsSep(b[k])
    ensures DirName(d + b + ".g1t") == d && BaseName(d + b + ".g1t") == b
  {
    var path := d + b + ".g1t";
    assert path == d + (b + ".g1t");
    NoSepConcat(b, ".g1t");
    SplitAfterSep(d, b + ".g1t");
    assert BaseName(path) == b;
  }

  /** The single unit of the container d + b + ".g1t" is saved to d + b + ext. */
  lemma OutputOfSplit(d: string, b: string, ext: string)
    requires d != [] && IsSep(d[|d| - 1])
    requires forall k :: 0 <= k < |b| ==> !IsSep(b[k])
    ensures OutputPath(d + b + ".g1t", 1, SlotPrefix(false), 0, ext) == d + (b + ext)
  {
    ContainerNameOfSplit(d, b);
  }

  /** With several units, the extraction directory of the container d + b + ".g1t" is d + b. */
  lemma ExtractDirOfSplit(d: string, b: string, units: nat)
    requires units > 1
    requires d != [] && IsSep(d[|d| - 1])
    requires forall k :: 0 <= k < |b| ==> !IsSep(b[k])
    ensures ExtractDir(d + b + ".g1t", units) == d + b
  {
    ContainerNameOfSplit(d, b);
  }

  /** The file d + b + ext, with ext starting at the first '.' of its name, leads to d + b + ".g1t". */
  lemma FileContainerOfSplit(d: string, b: string, ext: string, disk: Disk)
    requires d != [] && IsSep(d[|d| - 1])
    requires forall k :: 0 <= k < |b| ==> !IsSep(b[k]) && b[k] != '.'
    requires ext != [] && ext[0] == '.' && forall k :: 0 <= k < |ext| ==> !IsSep(ext[k])
    requires !disk.dirExists(d + (b + ext)) && disk.fileExists(d + (b + ext))
    ensures ContainerPath(d + (b + ext), disk) == Some(d + b + ".g1t")
  {
    var n := b + ext;
    NoSepConcat(b, ext);
    SplitAfterSep(d, n);
    assert ContainerDir(d + n) == d;
    FirstFieldBeforeDot(b, ext);
    assert d + (b + ".g1t") == d + b + ".g1t";
  }

  lemma NoSepConcat(a: string, b: string)
    requires forall k :: 0 <= k < |a| ==> !IsSep(a[k])
    requires forall k :: 0 <= k < |b| ==> !IsSep(b[k])
    ensures forall k :: 0 <= k < |a + b| ==> !IsSep((a + b)[k])
  {
    forall k | 0 <= k < |a + b|
      ensures !IsSep((a + b)[k])
    {
      if k >= |a| {
        assert (a + b)[k] == b[k - |a|];
      }
    }
  }

  lemma FirstFieldBeforeDot(b: string, ext: string)
    requires forall k :: 0 <= k < |b| ==> b[k] != '.'
    requires ext != [] && ext[0] == '.'
    ensures FirstField(b + ext, '.') == b
  {
    var s := b + ext;
    var r := FirstField(s, '.');
    assert s[|b|] == '.';
    assert |r| == |b|;
    assert r == s[..|b|] == b;
  }

  /**
   * The directory a multi-unit extraction creates leads back to the
   * container: for a container d + b + ".g1t" whose directory part d ends
   * in a separator and whose base name b is not empty, the directory leads
   * to the normalised d + b plus ".g1t", which is the container itself
   * when the path has no backslash.
   */
  lemma DirectoryRoundTrip(d: string, b: string, units: nat, disk: Disk)
    requires units > 1
    requires d != [] && IsSep(d[|d| - 1])
    requires b != [] && forall k :: 0 <= k < |b| ==> !IsSep(b[k])
    requires disk.dirExists(ExtractDir(d + b + ".g1t", units))
    ensures ContainerPath(ExtractDir(d + b + ".g1t", units), disk) == Some(Normalize(d + b) + ".g1t")
    ensures (forall k :: 0 <= k < |d + b| ==> (d + b)[k] != '\\') ==>
      ContainerPath(ExtractDir(d + b + ".g1t", units), disk) == Some(d + b + ".g1t")
  {
    ExtractDirOfSplit(d, b, units);
    assert (d + b)[|d + b| - 1] == b[|b| - 1];
    DirContainerNormalized(d + b, disk);
    if forall k :: 0 <= k < |d + b| ==> (d + b)[k] != '\\' {
      NormalizeUnchanged(d + b);
    }
  }

  /** An existing directory whose path does not end in a separator leads to its normalised path plus ".g1t". */
  lemma DirContainerNormalized(dir: string, disk: Disk)
    requires dir != [] && !IsSep(dir[|dir| - 1])
    requires disk.dirExists(dir)
    ensures ContainerPath(dir, disk) == Some(Normalize(dir) + ".g1t")
  {
    var n := Normalize(dir);
    assert n[|n| - 1] != '/';
    assert TrimTrailing(n, '/') == n;
  }

  /** An existing directory without backslashes or a trailing '/' leads to that path plus ".g1t". */
  lemma DirContainerFound(dir: string, disk: Disk)
    requires dir != [] && dir[|dir| - 1] != '/'
    requires forall k :: 0 <= k < |dir| ==> dir[k] != '\\'
    requires disk.dirExists(dir)
    ensures ContainerPath(dir, disk) == Some(dir + ".g1t")
  {
    NormalizeUnchanged(dir);
    assert TrimTrailing(dir, '/') == dir;
  }

  /**
   * The container after injection, or None when injection fails: an
   * array's slices are injected and composed back into it, other textures
   * are injected in place.
   */
  function Updated(g: G1t, path: string, disk: Disk, lib: Library): Option<G1t> {
    if IsArray(g) then
      match lib.decompose(g.textures[0])
      case None => None
      case Some(slices) =>
        var r := Inject(slices, path, true, disk, lib);
        if r.code < 0 then None else lib.compose(g, r.textures)
    else
      var r := Inject(g.textures, path, false, disk, lib);
      if r.code < 0 then None else Some(G1t(r.textures, g.firstIsArray))
  }

  /**
   * The first part of g1t_inject: the container path for a directory (the
   * normalised path with its trailing '/' popped off, plus ".g1t") or for
   * a file (its first '.'-separated name component plus ".g1t", in its
   * directory), and whether a directory was given.
   */
  method FindContainer(path: string, disk: Disk) returns (g1tPath: Option<string>, expectingMultiple: bool)
    ensures g1tPath == ContainerPath(path, disk)
    ensures expectingMultiple == disk.dirExists(path)
  {
    expectingMultiple := false;
    if disk.dirExists(path) {
      var p := Normalize(path);
      while |p| > 0 && p[|p| - 1] == '/'
        invariant TrimTrailing(p, '/') == TrimTrailing(Normalize(path), '/')
        decreases |p|
      {
        p := p[..|p| - 1];
      }
      g1tPath := Some(p + ".g1t");
      expectingMultiple := true;
    } else if disk.fileExists(path) {
      var dir := DirName(path);
      var fn := FileName(path);
      if dir == path {
        dir := "./";
      }
      g1tPath := Some(Join(dir, FirstField(fn, '.') + ".g1t"));
    } else {
      g1tPath := None;
    }
  }

  /**
   * The middle of g1t_inject once the container is loaded and accepted:
   * an array texture is decomposed, its slices injected and, when that
   * succeeded, composed back; other textures are injected in place.
   */
  method UpdateContainer(g: G1t, path: string, disk: Disk, lib: Library) returns (ret: int, updated: G1t)
    ensures ret >= 0 <==> Updated(g, path, disk, lib).Some?
    ensures ret >= 0 ==> updated == Updated(g, path, disk, lib).value
  {
    updated := g;
    if |g.textures| == 1 && g.firstIsArray {
      var slices := lib.decompose(g.textures[0]);
      if slices.None? {
        return -1, g;
      }
      var arr := new Texture[|slices.value|](k requires 0 <= k < |slices.value| => slices.value[k]);
      assert arr[..] == slices.value;
      ret := InjectTextures(arr, path, true, disk, lib);
      if ret >= 0 {
        var composed := lib.compose(g, arr[..]);
        if composed.None? {
          ret := -1;
        } else {
          updated := composed.value;
        }
      }
    } else {
      var arr := new Texture[|g.textures|](k requires 0 <= k < |g.textures| => g.textures[k]);
      assert arr[..] == g.textures;
      ret := InjectTextures(arr, path, false, disk, lib);
      updated := G1t(arr[..], g.firstIsArray);
    }
  }

  /**
   * g1t_inject. `written` is the container path and content handed to
   * G1tFile::SaveToFile, if the save was attempted at all: exactly when the
   * container was found and loaded, the path was a directory if the
   * container needs one, and injection succeeded. The result is 0 exactly
   * when that save was attempted and succeeded.
   */
  method G1tInject(path: string, disk: Disk, lib: Library) returns (ret: int, written: Option<(string, G1t)>)
    ensures ret == 0 || ret == -1
    ensures written.Some? <==>
      && ContainerPath(path, disk).Some?
      && disk.fileExists(ContainerPath(path, disk).value)
      && disk.loadG1t(ContainerPath(path, disk).value).Some?
      && (IsMulti(disk.loadG1t(ContainerPath(path, disk).value).value) ==> disk.dirExists(path))
      && Updated(disk.loadG1t(ContainerPath(path, disk).value).value, path, disk, lib).Some?
    ensures written.Some? ==>
      written.value == (ContainerPath(path, disk).value,
                        Updated(disk.loadG1t(ContainerPath(path, disk).value).value, path, disk, lib).value)
    ensures ret == 0 <==> written.Some? && disk.saveG1t(written.value.0, written.value.1)
  {
    var found, expectingMultiple := FindContainer(path, disk);
    if found.None? {
      return -1, None;
    }
    var g1tPath := found.value;
    if !disk.fileExists(g1tPath) {
      return -1, None;
    }
    var loaded := disk.loadG1t(g1tPath);
    if loaded.None? {
      return -1, None;
    }
    var g := loaded.value;
    var isArray := |g.textures| == 1 && g.firstIsArray;
    if (isArray || |g.textures| > 1) && !expectingMultiple {
      return -1, None;
    }
    var updated;
    ret, updated := UpdateContainer(g, path, disk, lib);
    if ret < 0 {
      return -1, None;
    }
    written := Some((g1tPath, updated));
    if !disk.saveG1t(g1tPath, updated) {
      return -1, written;
    }
    ret := 0;
  }
}

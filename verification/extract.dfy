/**
 * Extraction: every texture of a container (or every slice of its array
 * texture) is converted to a DDS image and saved, in index order, stopping
 * at the first unit that cannot be converted or saved.
 */
module Extract {
  import opened Wrappers
  import opened Text
  import opened Paths
  import opened Formats
  import opened Textures
  import opened Naming

  /** The path unit k is saved to, when ToDDS and SaveToFile both succeed for it. */
  function Exported(units: seq<Texture>, k: nat, path: string, prefix: string, disk: Disk, lib: Library): Option<string>
    requires k < |units|
  {
    match lib.toDds(units[k])
    case None => None
    case Some(img) =>
      var out := OutputPath(path, |units|, prefix, k, FormatToExtension(img.format, lib.formatName));
      if disk.saveDds(out, img) then Some(out) else None
  }

  /**
   * What extracting `units` reports (`ret`), the directory it creates
   * (`made`) and the files it saves, in order (`written`): the directory
   * exactly when there are several units; the files of units 0, 1, ... up
   * to the first unit that fails; 0 when none failed, -1 otherwise.
   */
  predicate Extracted(units: seq<Texture>, path: string, prefix: string, disk: Disk, lib: Library,
                      ret: int, made: Option<string>, written: seq<string>)
  {
    && made == (if |units| > 1 then Some(ExtractDir(path, |units|)) else None)
    && |written| <= |units|
    && (forall k :: 0 <= k < |written| ==> Exported(units, k, path, prefix, disk, lib) == Some(written[k]))
    && (ret == 0 || ret == -1)
    && (ret == 0 <==> |written| == |units|)
    && (ret == -1 ==> |written| < |units| && Exported(units, |written|, path, prefix, disk, lib).None?)
  }

  /** The outcome of every unit on its own: Exported for unit 0, 1, ... */
  function Outputs(units: seq<Texture>, path: string, prefix: string, disk: Disk, lib: Library): (os: seq<Option<string>>)
    ensures |os| == |units|
  {
    seq(|units|, k requires 0 <= k < |units| => Exported(units, k, path, prefix, disk, lib))
  }

  /** What extracting reports and the files it saves, in order. */
  datatype Export = Export(code: int, files: seq<string>)

  /**
   * Extraction from unit i on, given every unit's outcome: the files of
   * units i, i + 1, ... up to the first unit that fails, and 0 when none
   * failed, -1 otherwise.
   */
  function ExportRun(outs: seq<Option<string>>, i: nat): Export
    requires i <= |outs|
    decreases |outs| - i
  {
    if i == |outs| then Export(0, [])
    else match outs[i]
      case None => Export(-1, [])
      case Some(out) =>
        var rest := ExportRun(outs, i + 1);
        Export(rest.code, [out] + rest.files)
  }

  /** The run from unit i saves exactly the successful outcomes, up to the first failure. */
  lemma {:induction false} ExportRunFiles(outs: seq<Option<string>>, i: nat)
    requires i <= |outs|
    ensures var r := ExportRun(outs, i);
      && |r.files| <= |outs| - i
      && (forall k :: 0 <= k < |r.files| ==> outs[i + k] == Some(r.files[k]))
      && (r.code == 0 || r.code == -1)
      && (r.code == 0 <==> |r.files| == |outs| - i)
      && (r.code == -1 ==> |r.files| < |outs| - i && outs[i + |r.files|].None?)
    decreases |outs| - i
  {
    if i < |outs| && outs[i].Some? {
      ExportRunFiles(outs, i + 1);
      var rest := ExportRun(outs, i + 1);
      var r := ExportRun(outs, i);
      forall k | 1 <= k < |r.files|
        ensures outs[i + k] == Some(r.files[k])
      {
        assert r.files[k] == rest.files[k - 1];
      }
    }
  }

  /** Extracting all units is an extraction as Extracted describes it. */
  lemma ExportRunExtracted(units: seq<Texture>, path: string, prefix: string, disk: Disk, lib: Library)
    ensures var r := ExportRun(Outputs(units, path, prefix, disk, lib), 0);
      Extracted(units, path, prefix, disk, lib, r.code,
                if |units| > 1 then Some(ExtractDir(path, |units|)) else None, r.files)
  {
    var outs := Outputs(units, path, prefix, disk, lib);
    ExportRunFiles(outs, 0);
    var r := ExportRun(outs, 0);
    forall k | 0 <= k < |r.files|
      ensures Exported(units, k, path, prefix, disk, lib) == Some(r.files[k])
    {
    }
    if r.code == -1 {
    }
  }

  /** The whole run, once the files `written` of the units before i have been saved. */
  function ExportAfter(outs: seq<Option<string>>, i: nat, written: seq<string>): Export
    requires i <= |outs|
  {
    var rest := ExportRun(outs, i);
    Export(rest.code, written + rest.files)
  }

  /** One unit of the run: a failure ends it with -1, a success adds its file. */
  lemma ExportRunStep(outs: seq<Option<string>>, i: nat, written: seq<string>)
    requires i < |outs|
    ensures outs[i].None? ==> ExportAfter(outs, i, written) == Export(-1, written)
    ensures outs[i].Some? ==> ExportAfter(outs, i, written) == ExportAfter(outs, i + 1, written + [outs[i].value])
  {
    if outs[i].Some? {
      var rest := ExportRun(outs, i + 1);
      assert written + ([outs[i].value] + rest.files) == (written + [outs[i].value]) + rest.files;
    } else {
      assert written + [] == written;
    }
  }

  /** extract_textures */
  method ExtractTextures(units: seq<Texture>, path: string, prefix: string, disk: Disk, lib: Library)
    returns (ret: int, made: Option<string>, written: seq<string>)
    ensures made == (if |units| > 1 then Some(ExtractDir(path, |units|)) else None)
    ensures Export(ret, written) == ExportRun(Outputs(units, path, prefix, disk, lib), 0)
  {
    var extractDir := DirName(path);
    var fnBase := BaseName(path);
    made := None;
    if |units| > 1 {
      extractDir := Join(extractDir, fnBase);
      made := Some(extractDir);
    }
    written := [];
    ghost var outs := Outputs(units, path, prefix, disk, lib);
    for i := 0 to |units|
      invariant |written| == i
      invariant ExportRun(outs, 0) == ExportAfter(outs, i, written)
    {
      var out := ExportUnit(units, i, extractDir, fnBase, path, prefix, disk, lib);
      ExportRunStep(outs, i, written);
      if out.None? {
        return -1, made, written;
      }
      written := written + [out.value];
    }
    ret := 0;
  }

  /** One iteration of extract_textures: convert unit i, name its file and save it. */
  method ExportUnit(units: seq<Texture>, i: nat, extractDir: string, fnBase: string, path: string, prefix: string,
                    disk: Disk, lib: Library)
    returns (out: Option<string>)
    requires i < |units| && extractDir == ExtractDir(path, |units|) && fnBase == BaseName(path)
    ensures out == Outputs(units, path, prefix, disk, lib)[i]
  {
    var dds := lib.toDds(units[i]);
    if dds.None? {
      return None;
    }
    var extension := FormatToExtension(dds.value.format, lib.formatName);
    var file := if |units| == 1 then Join(extractDir, fnBase + extension)
                else Join(extractDir, prefix + Dec(i) + extension);
    assert file == OutputPath(path, |units|, prefix, i, extension);
    var saved := disk.saveDds(file, dds.value);
    if !saved {
      return None;
    }
    out := Some(file);
  }

  /**
   * g1t_extract: load the container; an array texture is decomposed and its
   * slices extracted as "Arr " files, otherwise the textures are extracted
   * as "Tex " files.
   */
  method G1tExtract(path: string, disk: Disk, lib: Library)
    returns (ret: int, made: Option<string>, written: seq<string>)
    ensures disk.loadG1t(path).None? ==> ret == -1 && made == None && written == []
    ensures disk.loadG1t(path).Some? && IsArray(disk.loadG1t(path).value) ==>
      var g := disk.loadG1t(path).value;
      match lib.decompose(g.textures[0])
      case None => ret == -1 && made == None && written == []
      case Some(slices) => Extracted(slices, path, SlotPrefix(true), disk, lib, ret, made, written)
    ensures disk.loadG1t(path).Some? && !IsArray(disk.loadG1t(path).value) ==>
      Extracted(disk.loadG1t(path).value.textures, path, SlotPrefix(false), disk, lib, ret, made, written)
  {
    var loaded := disk.loadG1t(path);
    if loaded.None? {
      return -1, None, [];
    }
    var g := loaded.value;
    if |g.textures| == 1 && g.firstIsArray {
      var slices := lib.decompose(g.textures[0]);
      if slices.None? {
        return -1, None, [];
      }
      ret, made, written := ExtractTextures(slices.value, path, "Arr ", disk, lib);
      ExportRunExtracted(slices.value, path, "Arr ", disk, lib);
    } else {
      ret, made, written := ExtractTextures(g.textures, path, "Tex ", disk, lib);
      ExportRunExtracted(g.textures, path, "Tex ", disk, lib);
    }
  }

  /** A single unit is saved in the directory part of the container's path, named after it, and no directory is created. */
  lemma SingleUnitBesideContainer(units: seq<Texture>, path: string, prefix: string, disk: Disk, lib: Library,
                                  ret: int, made: Option<string>, written: seq<string>)
    requires |units| == 1 && Extracted(units, path, prefix, disk, lib, ret, made, written) && ret == 0
    ensures made == None && lib.toDds(units[0]).Some?
    ensures written == [Join(DirName(path), BaseName(path) + FormatToExtension(lib.toDds(units[0]).value.format, lib.formatName))]
  {
    assert Exported(units, 0, path, prefix, disk, lib) == Some(written[0]);
  }

  /**
   * With several units every file lands in the container's directory, is
   * named prefix + index + suffix, and no two files share a path.
   */
  lemma MultiUnitFilesDistinct(units: seq<Texture>, path: string, prefix: string, disk: Disk, lib: Library,
                               ret: int, made: Option<string>, written: seq<string>)
    requires |units| > 1 && Extracted(units, path, prefix, disk, lib, ret, made, written)
    ensures made == Some(Join(DirName(path), BaseName(path)))
    ensures forall k :: 0 <= k < |written| ==>
      && lib.toDds(units[k]).Some?
      && written[k] == Join(Join(DirName(path), BaseName(path)),
                            prefix + Dec(k) + FormatToExtension(lib.toDds(units[k]).value.format, lib.formatName))
    ensures forall a, b :: 0 <= a < b < |written| ==> written[a] != written[b]
  {
    forall k | 0 <= k < |written|
      ensures lib.toDds(units[k]).Some? &&
        written[k] == Join(Join(DirName(path), BaseName(path)),
                           prefix + Dec(k) + FormatToExtension(lib.toDds(units[k]).value.format, lib.formatName))
    {
      assert Exported(units, k, path, prefix, disk, lib) == Some(written[k]);
    }
    forall a, b | 0 <= a < b < |written|
      ensures written[a] != written[b]
    {
      assert Exported(units, a, path, prefix, disk, lib) == Some(written[a]);
      assert Exported(units, b, path, prefix, disk, lib) == Some(written[b]);
      var ea := FormatToExtension(lib.toDds(units[a]).value.format, lib.formatName);
      var eb := FormatToExtension(lib.toDds(units[b]).value.format, lib.formatName);
      ExtensionIsDds(lib.toDds(units[a]).value.format, lib.formatName);
      ExtensionIsDds(lib.toDds(units[b]).value.format, lib.formatName);
      OutputPathsDistinct(path, |units|, prefix, a, b, ea, eb);
    }
  }
}

/**
 * The naming rule shared by extraction and injection. Extraction writes
 * unit i of a multi-unit container as prefix + decimal(i) + suffix inside a
 * directory named after the container; injection finds unit i again by
 * listing the entries that match the pattern prefix + decimal(i) + "*.dds".
 */
module Naming {
  import opened Text
  import opened Paths
  import opened Formats

  /** "Arr " for the slices of an array texture, "Tex " for independent textures. */
  function SlotPrefix(isArray: bool): string {
    if isArray then "Arr " else "Tex "
  }

  /** What the name of unit i starts with: the prefix and the decimal index. */
  function Stem(prefix: string, i: nat): string {
    prefix + Dec(i)
  }

  /*
   * Extraction side.
   */

  /**
   * fn_base: the container's file name without its last four characters.
   * The character count given to substr is an unsigned length - 4, which for
   * a name shorter than four characters wraps around to a huge count, so
   * substr then keeps the whole name.
   */
  function BaseName(path: string): (r: string)
    ensures |r| <= |FileName(path)| && r == FileName(path)[..|r|]
    ensures |FileName(path)| >= 4 ==> |r| == |FileName(path)| - 4
    ensures |FileName(path)| < 4 ==> r == FileName(path)
  {
    var fn := FileName(path);
    if |fn| >= 4 then fn[..|fn| - 4] else fn
  }

  /** A name ending in a four-character suffix is its base name followed by that suffix. */
  lemma BaseNameSplit(path: string, suffix: string)
    requires |suffix| == 4 && |FileName(path)| >= 4 && FileName(path)[|FileName(path)| - 4..] == suffix
    ensures FileName(path) == BaseName(path) + suffix
    ensures forall k :: 0 <= k < |BaseName(path)| ==> !IsSep(BaseName(path)[k])
  {
    var fn := FileName(path);
    assert fn == fn[..|fn| - 4] + fn[|fn| - 4..];
  }

  /** Where the files go: the directory part of the container's path, or a directory named after it when there are several units. */
  function ExtractDir(path: string, units: nat): string {
    if units > 1 then Join(DirName(path), BaseName(path)) else DirName(path)
  }

  /** The file name of unit i with the given suffix. */
  function UnitName(path: string, units: nat, prefix: string, i: nat, ext: string): string {
    if units == 1 then BaseName(path) + ext else Stem(prefix, i) + ext
  }

  /** The full path unit i is saved to. */
  function OutputPath(path: string, units: nat, prefix: string, i: nat, ext: string): string {
    Join(ExtractDir(path, units), UnitName(path, units, prefix, i, ext))
  }

  /**
   * A container path without any separator (a bare file name) is its own
   * directory part: its single unit is saved inside a directory named like
   * the container, and several units inside a sub-directory of it, rather
   * than beside the container.
   */
  lemma BareContainerOutputs(path: string, units: nat, prefix: string, ext: string)
    requires path != [] && LastSep(path).None?
    ensures DirName(path) == path
    ensures OutputPath(path, 1, prefix, 0, ext) == path + "/" + BaseName(path) + ext
    ensures units > 1 ==> ExtractDir(path, units) == path + "/" + BaseName(path)
  {
    assert !IsSep(path[|path| - 1]);
  }

  /** "a.g1t" extracts its single texture to "a.g1t/a.rgba.dds". */
  lemma BareContainerExample()
    ensures OutputPath("a.g1t", 1, SlotPrefix(false), 0, ".rgba.dds") == "a.g1t/a.rgba.dds"
  {
    var path := "a.g1t";
    assert LastSep(path).None?;
    BareContainerOutputs(path, 1, SlotPrefix(false), ".rgba.dds");
    assert FileName(path) == path;
    assert BaseName(path) == "a";
  }

  /** With several units no two of them are saved to the same path, whatever their suffixes. */
  lemma OutputPathsDistinct(path: string, units: nat, prefix: string, i: nat, j: nat, exti: string, extj: string)
    requires units > 1 && i != j
    requires IsDdsSuffix(exti) && IsDdsSuffix(extj)
    ensures OutputPath(path, units, prefix, i, exti) != OutputPath(path, units, prefix, j, extj)
  {
    UnitNamesDistinct(path, units, prefix, i, j, exti, extj);
    JoinInjective(ExtractDir(path, units), UnitName(path, units, prefix, i, exti), UnitName(path, units, prefix, j, extj));
  }

  /** With several units, distinct indices give distinct file names, whatever their suffixes. */
  lemma UnitNamesDistinct(path: string, units: nat, prefix: string, i: nat, j: nat, exti: string, extj: string)
    requires units > 1 && i != j
    requires IsDdsSuffix(exti) && IsDdsSuffix(extj)
    ensures UnitName(path, units, prefix, i, exti) != UnitName(path, units, prefix, j, extj)
  {
    var a, b := Dec(i) + exti, Dec(j) + extj;
    IndexedNamesDistinct(i, j, exti, extj);
    assert (prefix + a)[|prefix|..] == a;
    assert (prefix + b)[|prefix|..] == b;
    assert Stem(prefix, i) + exti == prefix + a;
    assert Stem(prefix, j) + extj == prefix + b;
  }

  /** Distinct indices followed by dot-led suffixes never spell the same string. */
  lemma IndexedNamesDistinct(i: nat, j: nat, exti: string, extj: string)
    requires i != j
    requires IsDdsSuffix(exti) && IsDdsSuffix(extj)
    ensures Dec(i) + exti != Dec(j) + extj
  {
    if |Dec(i)| < |Dec(j)| {
      DigitsBeforeDot(Dec(i), exti, Dec(j), extj);
    } else if |Dec(j)| < |Dec(i)| {
      DigitsBeforeDot(Dec(j), extj, Dec(i), exti);
    } else {
      DecInjective(i, j);
      assert (Dec(i) + exti)[..|Dec(i)|] == Dec(i);
      assert (Dec(j) + extj)[..|Dec(j)|] == Dec(j);
    }
  }

  /** A shorter digit string followed by a dot-led suffix differs from a longer one followed by anything dot-led. */
  lemma DigitsBeforeDot(d1: string, e1: string, d2: string, e2: string)
    requires AllDigits(d1) && AllDigits(d2) && e1 != [] && e1[0] == '.' && e2 != [] && e2[0] == '.'
    requires |d1| < |d2|
    ensures d1 + e1 != d2 + e2
  {
    assert (d1 + e1)[|d1|] == '.';
    assert (d2 + e2)[|d1|] == d2[|d1|];
  }

  /*
   * Injection side.
   */

  /** `name` matches the search pattern stem + "*.dds". */
  predicate GlobMatch(name: string, stem: string) {
    |stem| + 4 <= |name| && name[..|stem|] == stem && name[|name| - 4..] == ".dds"
  }

  /** The outcome of looking up one slot. */
  datatype Lookup = Absent | Unique(name: string) | Ambiguous

  /**
   * The lookup of one slot among a directory's entries: no match, exactly
   * one match (its name), or more than one (FindNextFileA finds a second).
   */
  function Resolve(entries: seq<string>, stem: string): Lookup
    decreases |entries|
  {
    if entries == [] then Absent
    else
      var rest := Resolve(entries[1..], stem);
      if !GlobMatch(entries[0], stem) then rest
      else if rest.Absent? then Unique(entries[0])
      else Ambiguous
  }

  /** The lookup finds nothing exactly when no entry matches. */
  lemma {:induction false} ResolveAbsent(entries: seq<string>, stem: string)
    ensures Resolve(entries, stem).Absent? <==> forall j :: 0 <= j < |entries| ==> !GlobMatch(entries[j], stem)
    decreases |entries|
  {
    if entries != [] {
      var rest := entries[1..];
      ResolveAbsent(rest, stem);
      assert forall j :: 1 <= j < |entries| ==> entries[j] == rest[j - 1];
    }
  }

  /** A name the lookup finds is a matching entry. */
  lemma {:induction false} ResolveFound(entries: seq<string>, stem: string)
    ensures Resolve(entries, stem).Unique? ==>
      Resolve(entries, stem).name in entries && GlobMatch(Resolve(entries, stem).name, stem)
    decreases |entries|
  {
    if entries != [] {
      ResolveFound(entries[1..], stem);
    }
  }

  /** Exactly one matching entry: the lookup finds it. */
  lemma {:induction false} ResolveUnique(entries: seq<string>, stem: string, k: nat)
    requires k < |entries| && GlobMatch(entries[k], stem)
    requires forall j :: 0 <= j < |entries| && j != k ==> !GlobMatch(entries[j], stem)
    ensures Resolve(entries, stem) == Unique(entries[k])
    decreases |entries|
  {
    var rest := entries[1..];
    if k == 0 {
      ResolveAbsent(rest, stem);
      assert forall j :: 0 <= j < |rest| ==> rest[j] == entries[j + 1];
    } else {
      ResolveUnique(rest, stem, k - 1);
    }
  }

  /** Two matching entries: the lookup reports the slot as ambiguous. */
  lemma {:induction false} ResolveAmbiguous(entries: seq<string>, stem: string, j: nat, k: nat)
    requires j < k < |entries| && GlobMatch(entries[j], stem) && GlobMatch(entries[k], stem)
    ensures Resolve(entries, stem) == Ambiguous
    decreases |entries|
  {
    var rest := entries[1..];
    if GlobMatch(entries[0], stem) {
      ResolveAbsent(rest, stem);
      assert rest[k - 1] == entries[k];
    } else {
      ResolveAmbiguous(rest, stem, j - 1, k - 1);
    }
  }

  /*
   * The two sides together.
   */

  /** The names a multi-unit extraction gives its units, in index order, for the given suffixes. */
  function ExtractedNames(prefix: string, exts: seq<string>): (names: seq<string>)
    ensures |names| == |exts|
    ensures forall j :: 0 <= j < |exts| ==> names[j] == Stem(prefix, j) + exts[j]
  {
    if exts == [] then [] else ExtractedNames(prefix, exts[..|exts| - 1]) + [Stem(prefix, |exts| - 1) + exts[|exts| - 1]]
  }

  /** A name made of the stem, anything, and a ".dds" suffix matches the stem's pattern. */
  lemma StemMatch(stem: string, tail: string, ext: string)
    requires IsDdsSuffix(ext)
    ensures GlobMatch(stem + tail + ext, stem)
  {
    var name := stem + tail + ext;
    assert name[..|stem|] == stem;
    assert name[|name| - 4..] == ext[|ext| - 4..];
  }

  /**
   * With at most ten units every slot of an unmodified extraction directory
   * resolves to its own file.
   */
  lemma ExtractedNamesResolve(prefix: string, exts: seq<string>, i: nat)
    requires |exts| <= 10 && i < |exts|
    requires forall j :: 0 <= j < |exts| ==> IsDdsSuffix(exts[j])
    ensures Resolve(ExtractedNames(prefix, exts), Stem(prefix, i)) == Unique(Stem(prefix, i) + exts[i])
  {
    var names := ExtractedNames(prefix, exts);
    var stem := Stem(prefix, i);
    StemMatch(stem, [], exts[i]);
    assert stem + [] + exts[i] == names[i];
    forall j | 0 <= j < |names| && j != i
      ensures !GlobMatch(names[j], stem)
    {
      var other := Stem(prefix, j);
      assert Dec(j) == [DigitChar(j)] && Dec(i) == [DigitChar(i)];
      assert (names[j])[|prefix|] == DigitChar(j);
      assert stem[|prefix|] == DigitChar(i);
    }
    ResolveUnique(names, stem, i);
  }

  /**
   * With eleven units or more, "prefix 1*.dds" matches the files of units 1
   * and 10: re-injecting an unmodified extraction directory meets an
   * ambiguous slot.
   */
  lemma ExtractedNamesCollide(prefix: string, exts: seq<string>)
    requires |exts| >= 11
    requires forall j :: 0 <= j < |exts| ==> IsDdsSuffix(exts[j])
    ensures Resolve(ExtractedNames(prefix, exts), Stem(prefix, 1)) == Ambiguous
  {
    var names := ExtractedNames(prefix, exts);
    var stem := Stem(prefix, 1);
    StemMatch(stem, [], exts[1]);
    assert stem + [] + exts[1] == names[1];
    assert Stem(prefix, 10) == stem + [DigitChar(0)];
    StemMatch(stem, [DigitChar(0)], exts[10]);
    ResolveAmbiguous(names, stem, 1, 10);
  }
}

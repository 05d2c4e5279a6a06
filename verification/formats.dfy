/**
 * The format-to-suffix mapper: the file suffix an extracted DDS file gets,
 * chosen from its DXGI pixel format. Six formats have hand-picked suffixes;
 * every other format derives one from its symbolic name, which the DDS
 * library supplies (DdsFile::GetFormatName, a parameter here).
 */
module Formats {
  import opened Wrappers
  import opened Text

  // DXGI_FORMAT enumeration values (dxgiformat.h).
  const DXGI_FORMAT_BC1_UNORM: int := 71
  const DXGI_FORMAT_BC2_UNORM: int := 74
  const DXGI_FORMAT_BC3_UNORM: int := 77
  const DXGI_FORMAT_BC4_UNORM: int := 80
  const DXGI_FORMAT_B8G8R8A8_UNORM: int := 87
  const DXGI_FORMAT_BC6H_UF16: int := 95

  /** The marker whose last occurrence ends the name-derived part of a suffix. */
  const UNORM: string := "_UNORM"

  /** The hand-picked suffixes of the switch statement. */
  function FixedExtension(format: int): Option<string> {
    if format == DXGI_FORMAT_B8G8R8A8_UNORM then Some(".rgba.dds")
    else if format == DXGI_FORMAT_BC1_UNORM then Some(".dxt1.dds")
    else if format == DXGI_FORMAT_BC2_UNORM then Some(".dxt3.dds")
    else if format == DXGI_FORMAT_BC3_UNORM then Some(".dxt5.dds")
    else if format == DXGI_FORMAT_BC4_UNORM then Some(".bc4.dds")
    else if format == DXGI_FORMAT_BC6H_UF16 then Some(".bc6h.dds")
    else None
  }

  /** A usable suffix: it starts with a dot and ends with ".dds". */
  predicate IsDdsSuffix(e: string) {
    |e| >= 4 && e[0] == '.' && e[|e| - 4..] == ".dds"
  }

  /**
   * The suffix derived from a symbolic format name (the default branch): the
   * lower-cased part of the name before its last "_UNORM", between "." and
   * ".dds", when that marker occurs past position 0; the bare ".dds"
   * otherwise.
   */
  function NameExtension(name: string): string {
    var pos := RFind(name, UNORM);
    if pos.Some? && pos.value != 0 then "." + Lower(name[..pos.value]) + ".dds" else ".dds"
  }

  /** format_to_extension: the table's suffix, or else the one derived from the format's name. */
  function FormatToExtension(format: int, formatName: int -> string): string {
    match FixedExtension(format)
    case Some(e) => e
    case None => NameExtension(formatName(format))
  }

  /** Every format gets a usable suffix: one that starts with a dot and ends with ".dds". */
  lemma ExtensionIsDds(format: int, formatName: int -> string)
    ensures IsDdsSuffix(FormatToExtension(format, formatName))
  {
    match FixedExtension(format)
    case Some(e) => FixedSuffixes(format);
    case None =>
      var name := formatName(format);
      var pos := RFind(name, UNORM);
      if pos.Some? && pos.value != 0 {
        DottedSuffix(Lower(name[..pos.value]));
      }
  }

  /** Every suffix of the table is a usable one. */
  lemma FixedSuffixes(format: int)
    ensures FixedExtension(format).Some? ==> IsDdsSuffix(FixedExtension(format).value)
  {
    match FixedExtension(format)
    case None =>
    case Some(e) =>
      var n := |e|;
      assert e[n - 4..] == ".dds" by {
        if e == ".rgba.dds" || e == ".dxt1.dds" || e == ".dxt3.dds" || e == ".dxt5.dds" {
          assert n == 9;
        } else if e == ".bc4.dds" {
          assert n == 8;
        } else {
          assert n == 9;
        }
      }
  }

  lemma DottedSuffix(middle: string)
    ensures IsDdsSuffix("." + middle + ".dds")
  {
    var e := "." + middle + ".dds";
    assert e[|e| - 4..] == ".dds";
  }

  /**
   * When the last "_UNORM" of the name sits at p > 0, the suffix is the
   * lower-cased part of the name before it between "." and ".dds" (the
   * marker need not end the name).
   */
  lemma ExtensionFromName(name: string, p: nat)
    requires OccursAt(name, UNORM, p) && p > 0
    requires forall q: nat :: p < q ==> !OccursAt(name, UNORM, q)
    ensures NameExtension(name) == "." + Lower(name[..p]) + ".dds"
  {
    RFindLast(name, UNORM);
    var pos := RFind(name, UNORM);
    assert pos.Some?;
    var r := pos.value;
    assert !(p < r) && !(r < p);
  }

  /** The bare ".dds" is used exactly when the name has no "_UNORM" at a position other than 0. */
  lemma BareExtension(name: string)
    ensures NameExtension(name) == ".dds" <==> forall q: nat :: 0 < q ==> !OccursAt(name, UNORM, q)
  {
    RFindLast(name, UNORM);
    var pos := RFind(name, UNORM);
    if pos.Some? && pos.value != 0 {
      var e := "." + Lower(name[..pos.value]) + ".dds";
      assert |e| > 4;
    }
  }

  /** A trailing marker: "FOO_UNORM" gives ".foo.dds". */
  lemma TrailingMarkerExample()
    ensures NameExtension("FOO_UNORM") == ".foo.dds"
  {
    assert RFind("FOO_UNORM", UNORM) == Some(3);
    assert "FOO_UNORM"[..3] == "FOO";
    assert Lower("FOO") == "foo";
  }

  /** A marker inside the name: "R8G8_UNORM_SRGB" gives ".r8g8.dds". */
  lemma InnerMarkerExample()
    ensures NameExtension("R8G8_UNORM_SRGB") == ".r8g8.dds"
  {
    var name := "R8G8_UNORM_SRGB";
    InnerMarkerLast();
    ExtensionFromName(name, 4);
    assert name == "R8G8" + "_UNORM_SRGB";
    assert name[..4] == "R8G8";
    LowerChars("R8G8");
    assert Lower("R8G8") == "r8g8";
  }

  /** The last "_UNORM" of "R8G8_UNORM_SRGB" is at position 4. */
  lemma InnerMarkerLast()
    ensures OccursAt("R8G8_UNORM_SRGB", UNORM, 4)
    ensures forall q: nat :: 4 < q ==> !OccursAt("R8G8_UNORM_SRGB", UNORM, q)
  {
    var name := "R8G8_UNORM_SRGB";
    assert name[4..10] == UNORM;
    forall q: nat | 4 < q
      ensures !OccursAt(name, UNORM, q)
    {
      if q + |UNORM| <= |name| {
        assert name[q..q + |UNORM|][0] == name[q] != '_';
      }
    }
  }

  /** A marker at position 0 only: "_UNORM" gives the bare ".dds". */
  lemma LeadingMarkerExample()
    ensures NameExtension("_UNORM") == ".dds"
  {
    assert RFind("_UNORM", UNORM) == Some(0);
  }

  /** No marker: "R32_FLOAT" gives the bare ".dds". */
  lemma NoMarkerExample()
    ensures NameExtension("R32_FLOAT") == ".dds"
  {
    var name := "R32_FLOAT";
    forall q: nat | 0 < q
      ensures !OccursAt(name, UNORM, q)
    {
      if q + |UNORM| <= |name| {
        assert name[q..q + |UNORM|][1] == name[q + 1] != 'U';
      }
    }
    BareExtension(name);
  }
}

/**
 * The values the orchestrator moves around and the collaborators it calls.
 * Pixel payloads are opaque and not represented: a texture is its format,
 * its dimensions and its mip count. The G1T and DDS libraries and the file
 * system are function-valued parameters, each of which may fail.
 */
module Textures {
  import opened Wrappers

  /** One entry of a G1T container (G1tTexture); `format` is the G1T format code. */
  datatype Texture = Texture(format: nat, width: nat, height: nat, mips: nat)

  /** A standalone DDS image (DdsFile); `format` is a DXGI format. */
  datatype Image = Image(format: int, width: nat, height: nat, mips: nat)

  /**
   * A loaded G1T container: its texture entries and whether its first entry
   * is flagged as an array texture (G1tFile::IsArrayTexture(0)).
   */
  datatype G1t = G1t(textures: seq<Texture>, firstIsArray: bool)

  /** The container holds one array texture (main.cpp's `array` flag). */
  predicate IsArray(g: G1t) {
    |g.textures| == 1 && g.firstIsArray
  }

  /** The container needs a directory of files: an array texture or several textures. */
  predicate IsMulti(g: G1t) {
    IsArray(g) || |g.textures| > 1
  }

  /** The slices of a decomposed array texture; there is always at least one. */
  type Slices = s: seq<Texture> | |s| > 0 witness [Texture(0, 0, 0, 0)]

  /** The G1T and DDS library calls, each of which may fail. */
  datatype Library = Library(
    // DdsFile::GetFormatName
    formatName: int -> string,
    // G1tFile::ToDDS
    toDds: Texture -> Option<Image>,
    // G1tFile::FromDDS: the texture rebuilt from the image, replacing the old one
    fromDds: (Texture, Image) -> Option<Texture>,
    // G1tFile::ReduceMipsLevel: whether reducing this texture to that many mips fails;
    // when it does not fail the texture keeps everything but its mip count, which becomes the target
    reduceFails: (Texture, nat) -> bool,
    // G1tFile::DecomposeArrayTexture
    decompose: Texture -> Option<Slices>,
    // G1tFile::ComposeArrayTexture: the container with its array entry rebuilt from the slices
    compose: (G1t, seq<Texture>) -> Option<G1t>)

  /** The file system as the orchestrator sees it. */
  datatype Disk = Disk(
    // Utils::DirExists
    dirExists: string -> bool,
    // Utils::FileExists
    fileExists: string -> bool,
    // the names of the entries of a directory, as FindFirstFileA/FindNextFileA enumerate them
    entries: string -> seq<string>,
    // DdsFile::LoadFromFile
    loadDds: string -> Option<Image>,
    // DdsFile::SaveToFile: whether saving this image at this path succeeds
    saveDds: (string, Image) -> bool,
    // G1tFile::LoadFromFile
    loadG1t: string -> Option<G1t>,
    // G1tFile::SaveToFile: whether saving this container at this path succeeds
    saveG1t: (string, G1t) -> bool)
}

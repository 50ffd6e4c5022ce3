/**
 * File classification, the public base URL and the storage-key layout of the
 * upload provider (lib/index.js:13-23 and the key templates used by `upload`
 * and `delete`).
 */
module Naming {
  import opened Wrappers

  /** The classes a file falls into; each names a top-level key namespace. */
  datatype FileFormat = Image | Icon | File

  /** Extensions classified as images, compared after lower-casing. */
  const ImageExtensions: seq<string> := [".jpg", ".jpeg", ".png", ".webp", ".tiff"]

  /** The kind of artifact written under `images/`; `delete` uses the same constant. */
  const FileType: string := "origin"

  /** Lower-cases one ASCII letter and leaves every other character alone. */
  function LowerChar(c: char): char {
    if 'A' <= c <= 'Z' then (c as int + 32) as char else c
  }

  /** `String.prototype.toLowerCase`, restricted to ASCII letters. */
  function ToLower(s: string): (r: string)
    ensures |r| == |s|
    ensures forall i :: 0 <= i < |s| ==> r[i] == LowerChar(s[i])
  {
    if s == [] then [] else [LowerChar(s[0])] + ToLower(s[1..])
  }

  /** `a` and `b` are the same string once both are lower-cased. */
  predicate EqualIgnoringCase(a: string, b: string) {
    |a| == |b| && forall i :: 0 <= i < |a| ==> LowerChar(a[i]) == LowerChar(b[i])
  }

  /** A string that lower-casing leaves as it is. */
  predicate IsLowerCase(s: string) {
    forall i :: 0 <= i < |s| ==> LowerChar(s[i]) == s[i]
  }

  lemma {:induction false} ToLowerMatchesLowerCase(a: string, b: string)
    requires IsLowerCase(b)
    ensures ToLower(a) == b <==> EqualIgnoringCase(a, b)
  {
    if EqualIgnoringCase(a, b) {
      assert forall i :: 0 <= i < |a| ==> ToLower(a)[i] == b[i];
    }
  }

  /**
   * `getFileFormat`: the extension is lower-cased, then an image extension
   * gives `Image`, `.svg` gives `Icon`, and anything else, a missing
   * extension included, gives `File`.
   */
  function GetFileFormat(ext: Option<string>): (r: FileFormat)
    ensures r == Image <==>
      ext.Some? && exists x :: x in ImageExtensions && EqualIgnoringCase(ext.value, x)
    ensures r == Icon <==> ext.Some? && EqualIgnoringCase(ext.value, ".svg")
    ensures ext.None? ==> r == File
  {
    if ext.None? then File
    else
      var e := ToLower(ext.value);
      LowerCaseExtensions(ext.value);
      if e in ImageExtensions then Image
      else if e == ".svg" then Icon
      else File
  }

  lemma LowerCaseExtensions(a: string)
    ensures forall x :: x in ImageExtensions ==> (ToLower(a) == x <==> EqualIgnoringCase(a, x))
    ensures ToLower(a) == ".svg" <==> EqualIgnoringCase(a, ".svg")
  {
    forall x | x in ImageExtensions || x == ".svg"
      ensures ToLower(a) == x <==> EqualIgnoringCase(a, x)
    {
      ToLowerMatchesLowerCase(a, x);
    }
  }

  /** The word used to pluralise a non-image namespace: `icons/`, `files/`. */
  function FormatWord(format: FileFormat): string {
    match format
    case Image => "image"
    case Icon => "icon"
    case File => "file"
  }

  /** A configured CDN is used only when it is a non-empty string (JavaScript truthiness). */
  predicate CdnGiven(cdn: Option<string>) {
    cdn.Some? && cdn.value != ""
  }

  /** `S3BaseUrl`: the CDN when configured, otherwise the virtual-hosted bucket URL. */
  function BaseUrl(cdn: Option<string>, bucket: string, region: string): string {
    if CdnGiven(cdn) then cdn.value
    else "https://" + bucket + ".s3." + region + ".amazonaws.com"
  }

  /** A file extension is present only when it is a non-empty string. */
  predicate ExtGiven(ext: Option<string>) {
    ext.Some? && ext.value != ""
  }

  /** How a template literal renders the extension: an absent one reads `undefined`. */
  function ExtText(ext: Option<string>): string {
    match ext
    case Some(e) => e
    case None => "undefined"
  }

  /** Hashes with these prefixes name derived files, which `upload` never processes. */
  predicate IsDerivedHash(hash: string) {
    "thumbnail_" <= hash || "small_" <= hash
  }

  /** Path of the unmodified upload, relative to `images/`. */
  function OriginPath(hash: string, ext: string): string {
    FileType + "/" + hash + ext
  }

  /** Path of a variant of size `name` with extension `ext`, relative to `images/`. */
  function SizePath(name: string, hash: string, ext: string): string {
    name + "/" + hash + ext
  }

  /** Store key of an image artifact. */
  function ImageKey(path: string): string {
    "images/" + path
  }

  /** Store key of a non-image file, e.g. `icons/<hash>.svg`. */
  function FormatKey(format: FileFormat, hash: string, ext: string): string {
    FormatWord(format) + "s/" + hash + ext
  }
}

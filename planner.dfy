/**
 * The image branch of `upload` up to the store writes (lib/index.js:43-154):
 * the ordered write jobs (origin first, then per configured size the primary
 * variant, its webp copy and its avif copy) and the nested `formats` map.
 * The image codec is a function-typed parameter; `None` stands for a codec
 * call that throws.
 */
module Planner {
  import opened Wrappers
  import opened Naming

  type Bytes = seq<bv8>

  /** Target box handed opaquely to the resizer; only width and height are read back. */
  datatype ResizeOptions = ResizeOptions(width: Option<int>, height: Option<int>, fit: Option<string>)

  /** One configured size tier. */
  datatype SizeSpec = SizeSpec(
    name: string,
    resizeOptions: Option<ResizeOptions>,
    isGenerateWebp: bool,
    isGenerateAvif: bool)

  /** Output formats the codec is asked for. */
  datatype Encoding = Jpeg | Png | Webp | Avif

  /** decode, resize, rotate upright and encode, in one call; `None` when the codec throws. */
  type Codec = (Bytes, ResizeOptions, Encoding) -> Option<Bytes>

  /** The fields of the uploaded file that the provider reads. */
  datatype FileInfo = FileInfo(hash: string, ext: Option<string>, mime: string, name: string, buffer: Bytes)

  /** One record of the `formats` metadata; `size` is a byte count. */
  datatype Artifact = Artifact(
    ext: string,
    url: string,
    hash: string,
    mime: string,
    name: string,
    width: Option<int>,
    height: Option<int>,
    size: nat,
    path: string)

  /** `formats[sizeName][encodingName]`, where the encoding name is origin, webp or avif. */
  type Formats = map<string, map<string, Artifact>>

  /** An entry of the `buffers` array. */
  datatype WriteJob = WriteJob(buffer: Bytes, path: string, mime: string)

  /** The two values the first loop of `upload` accumulates. */
  datatype Plan = Plan(jobs: seq<WriteJob>, formats: Formats)

  /** Why an upload rejects. */
  datatype UploadError =
    | CodecFailed              // a codec call threw
    | NotABuffer               // `Buffer.byteLength` was handed an unencoded pipeline
    | WriteFailed(key: string) // the store refused a write

  /** The two extra encodings a size may ask for. */
  datatype ExtraFormat = ExtraWebp | ExtraAvif {
    function Encoding(): Encoding {
      if ExtraWebp? then Webp else Avif
    }
    function Ext(): string {
      if ExtraWebp? then ".webp" else ".avif"
    }
    function Key(): string {
      if ExtraWebp? then "webp" else "avif"
    }
    function Mime(): string {
      if ExtraWebp? then "image/webp" else "image/avif"
    }
  }

  /** An extra format is generated when the size asks for it and the source is not already in it. */
  predicate Wanted(s: SizeSpec, x: ExtraFormat, ext: string) {
    match x
    case ExtraWebp => s.isGenerateWebp && ext != ".webp"
    case ExtraAvif => s.isGenerateAvif && ext != ".avif"
  }

  /** `size.resizeOptions || {}` */
  function ResizeOf(s: SizeSpec): ResizeOptions {
    s.resizeOptions.GetOr(ResizeOptions(None, None, None))
  }

  /** `x || null` for a numeric option: absent and zero both give null. */
  function OrNull(x: Option<int>): Option<int> {
    if x.Some? && x.value != 0 then x else None
  }

  function Width(s: SizeSpec): Option<int> {
    OrNull(if s.resizeOptions.Some? then s.resizeOptions.value.width else None)
  }

  function Height(s: SizeSpec): Option<int> {
    OrNull(if s.resizeOptions.Some? then s.resizeOptions.value.height else None)
  }

  /**
   * The encoder applied to a resized primary variant, chosen by the exact
   * (case-sensitive) extension. Any other extension leaves a pipeline object
   * instead of bytes.
   */
  function PrimaryEncoding(ext: string): Option<Encoding> {
    if ext == ".jpeg" || ext == ".jpg" then Some(Jpeg)
    else if ext == ".png" then Some(Png)
    else if ext == ".webp" then Some(Webp)
    else None
  }

  /** One codec call on the original buffer. */
  function Encoded(f: FileInfo, s: SizeSpec, enc: Encoding, codec: Codec): Result<Bytes, UploadError> {
    match codec(f.buffer, ResizeOf(s), enc)
    case Some(b) => Success(b)
    case None => Failure(CodecFailed)
  }

  /** The resized primary buffer of size `s`, or why there is none. */
  function Primary(f: FileInfo, s: SizeSpec, codec: Codec): Result<Bytes, UploadError> {
    match PrimaryEncoding(ExtText(f.ext))
    case None => Failure(NotABuffer)
    case Some(enc) => Encoded(f, s, enc, codec)
  }

  /** Byte length of the primary buffer of size `s` (zero when there is none). */
  function PrimarySize(f: FileInfo, s: SizeSpec, codec: Codec): nat {
    match Primary(f, s, codec)
    case Success(b) => |b|
    case Failure(_) => 0
  }

  /**
   * A `formats` record for size `s`. Whatever its own extension, it carries
   * the primary variant's path and the primary buffer's size.
   */
  function SizeRecord(f: FileInfo, base: string, s: SizeSpec, ext: string, primarySize: nat): Artifact {
    Artifact(
      ext, base + "/images/" + SizePath(s.name, f.hash, ext), f.hash, f.mime, f.name,
      Width(s), Height(s), primarySize, SizePath(s.name, f.hash, ExtText(f.ext)))
  }

  /** `formats[n] = { k: a, ...(formats[n] || {}) }`: a record already present wins. */
  function AddRecord(fm: Formats, n: string, k: string, a: Artifact): Formats {
    fm[n := map[k := a] + (if n in fm then fm[n] else map[])]
  }

  /** Adds the job and the record of one extra format of size `s`. */
  function ExtraStep(p: Plan, f: FileInfo, base: string, codec: Codec, s: SizeSpec, x: ExtraFormat, primarySize: nat): Result<Plan, UploadError> {
    var b :- Encoded(f, s, x.Encoding(), codec);
    Success(Plan(
      p.jobs + [WriteJob(b, SizePath(s.name, f.hash, x.Ext()), x.Mime())],
      AddRecord(p.formats, s.name, x.Key(), SizeRecord(f, base, s, x.Ext(), primarySize))))
  }

  /** One iteration of the loop over `imageSizes`. */
  function SizeStep(p: Plan, f: FileInfo, base: string, codec: Codec, s: SizeSpec): Result<Plan, UploadError> {
    var ext := ExtText(f.ext);
    var primary :- Primary(f, s, codec);
    var p1 := Plan(
      p.jobs + [WriteJob(primary, SizePath(s.name, f.hash, ext), f.mime)],
      AddRecord(p.formats, s.name, "origin", SizeRecord(f, base, s, ext, |primary|)));
    var p2 :- if Wanted(s, ExtraWebp, ext) then ExtraStep(p1, f, base, codec, s, ExtraWebp, |primary|) else Success(p1);
    if Wanted(s, ExtraAvif, ext) then ExtraStep(p2, f, base, codec, s, ExtraAvif, |primary|) else Success(p2)
  }

  /** The job of the unmodified upload, always first. */
  function OriginJob(f: FileInfo): WriteJob {
    WriteJob(f.buffer, OriginPath(f.hash, ExtText(f.ext)), f.mime)
  }

  /** The plan after processing `sizes` in order. */
  function PlanSizes(f: FileInfo, base: string, codec: Codec, sizes: seq<SizeSpec>): Result<Plan, UploadError>
    decreases |sizes|
  {
    if sizes == [] then Success(Plan([OriginJob(f)], map[]))
    else
      var p :- PlanSizes(f, base, codec, sizes[..|sizes| - 1]);
      SizeStep(p, f, base, codec, sizes[|sizes| - 1])
  }

  lemma {:induction false} PlanFailurePropagates(f: FileInfo, base: string, codec: Codec, sizes: seq<SizeSpec>, i: nat)
    requires i <= |sizes| && PlanSizes(f, base, codec, sizes[..i]).Failure?
    ensures PlanSizes(f, base, codec, sizes) == PlanSizes(f, base, codec, sizes[..i])
    decreases |sizes|
  {
    if i < |sizes| {
      var init := sizes[..|sizes| - 1];
      assert init[..i] == sizes[..i];
      PlanFailurePropagates(f, base, codec, init, i);
    } else {
      assert sizes[..i] == sizes;
    }
  }

  /**
   * The first loop of `upload`: builds the write jobs and the `formats` map
   * size by size, rejecting as soon as a codec call fails or the primary
   * variant is not a buffer.
   */
  method BuildJobs(f: FileInfo, base: string, codec: Codec, imageSizes: seq<SizeSpec>) returns (r: Result<Plan, UploadError>)
    ensures r == PlanSizes(f, base, codec, imageSizes)
  {
    var ext := ExtText(f.ext);
    var formats: Formats := map[];
    var buffers := [WriteJob(f.buffer, OriginPath(f.hash, ext), f.mime)];
    for i := 0 to |imageSizes|
      invariant PlanSizes(f, base, codec, imageSizes[..i]) == Success(Plan(buffers, formats))
    {
      var size := imageSizes[i];
      assert imageSizes[..i + 1][..i] == imageSizes[..i];
      var encoding := PrimaryEncoding(ext);
      if encoding.None? {
        PlanFailurePropagates(f, base, codec, imageSizes, i + 1);
        return Failure(NotABuffer);
      }
      var resized := codec(f.buffer, ResizeOf(size), encoding.value);
      if resized.None? {
        PlanFailurePropagates(f, base, codec, imageSizes, i + 1);
        return Failure(CodecFailed);
      }
      var resizedBuffer := resized.value;
      var sizePath := SizePath(size.name, f.hash, ext);
      formats := formats[size.name := map["origin" := SizeRecord(f, base, size, ext, |resizedBuffer|)]
        + (if size.name in formats then formats[size.name] else map[])];
      buffers := buffers + [WriteJob(resizedBuffer, sizePath, f.mime)];

      if size.isGenerateWebp && ext != ".webp" {
        var webpBuffer := codec(f.buffer, ResizeOf(size), Webp);
        if webpBuffer.None? {
          PlanFailurePropagates(f, base, codec, imageSizes, i + 1);
          return Failure(CodecFailed);
        }
        formats := formats[size.name := map["webp" := SizeRecord(f, base, size, ".webp", |resizedBuffer|)]
          + (if size.name in formats then formats[size.name] else map[])];
        buffers := buffers + [WriteJob(webpBuffer.value, SizePath(size.name, f.hash, ".webp"), "image/webp")];
      }
      if size.isGenerateAvif && ext != ".avif" {
        var avifBuffer := codec(f.buffer, ResizeOf(size), Avif);
        if avifBuffer.None? {
          PlanFailurePropagates(f, base, codec, imageSizes, i + 1);
          return Failure(CodecFailed);
        }
        formats := formats[size.name := map["avif" := SizeRecord(f, base, size, ".avif", |resizedBuffer|)]
          + (if size.name in formats then formats[size.name] else map[])];
        buffers := buffers + [WriteJob(avifBuffer.value, SizePath(size.name, f.hash, ".avif"), "image/avif")];
      }
    }
    assert imageSizes[..|imageSizes|] == imageSizes;
    r := Success(Plan(buffers, formats));
  }
}

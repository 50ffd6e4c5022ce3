/**
 * What `upload` decides before it touches the store: when it does nothing,
 * when it rejects, and which writes it issues for an image.
 */
module UploadProperties {
  import opened Wrappers
  import opened Naming
  import opened Planner
  import opened PlanProperties
  import opened ObjectStore
  import opened Provider

  /** An upload does nothing exactly when the extension is missing or empty, or the hash names a derived image. */
  lemma SkipExactly(cfg: Config, codec: Codec, f: FileInfo, params: CustomParams)
    ensures UploadEffect(cfg, codec, f, params) == Success(Skip) <==> !ExtGiven(f.ext) || IsDerivedHash(f.hash)
  {
  }

  /** An image upload whose plan fails rejects with the plan's error, before any write. */
  lemma ImagePlanFailureRejects(cfg: Config, codec: Codec, f: FileInfo, params: CustomParams)
    requires ExtGiven(f.ext) && !IsDerivedHash(f.hash) && GetFileFormat(f.ext) == Image
    requires PlanSizes(f, cfg.Base(), codec, cfg.imageSizes).Failure?
    ensures UploadEffect(cfg, codec, f, params) == Failure(PlanSizes(f, cfg.Base(), codec, cfg.imageSizes).error)
  {
  }

  /**
   * An image whose extension has no primary encoder (`.tiff`, or `.JPG` in
   * upper case) leaves a pipeline instead of a buffer for the first size, so
   * the upload rejects as soon as one size is configured, whatever the codec.
   */
  lemma {:induction false} UnencodablePrimaryRejects(cfg: Config, codec: Codec, f: FileInfo, params: CustomParams)
    requires ExtGiven(f.ext) && !IsDerivedHash(f.hash) && GetFileFormat(f.ext) == Image
    requires PrimaryEncoding(ExtText(f.ext)).None? && cfg.imageSizes != []
    ensures UploadEffect(cfg, codec, f, params) == Failure(NotABuffer)
  {
    var sizes := cfg.imageSizes;
    var base := cfg.Base();
    assert sizes[..1][..0] == [];
    assert PlanSizes(f, base, codec, sizes[..1]) == SizeStep(Plan([OriginJob(f)], map[]), f, base, codec, sizes[0]);
    PlanFailurePropagates(f, base, codec, sizes, 1);
  }

  /** No image extension is rejected for lack of a codec when no size is configured. */
  lemma NoSizesOnlyOrigin(cfg: Config, codec: Codec, f: FileInfo, params: CustomParams)
    requires ExtGiven(f.ext) && !IsDerivedHash(f.hash) && GetFileFormat(f.ext) == Image
    requires cfg.imageSizes == []
    ensures UploadEffect(cfg, codec, f, params)
      == Success(Commit([StoreWrite(ImageKey(OriginPath(f.hash, ExtText(f.ext))), f.buffer, f.mime, params)],
                        cfg.Base() + "/images/" + OriginPath(f.hash, ExtText(f.ext)), Some(map[])))
  {
    assert JobWrites([OriginJob(f)], params) == [StoreWrite(ImageKey(OriginPath(f.hash, ExtText(f.ext))), f.buffer, f.mime, params)];
  }

  /**
   * A planned image upload writes one object per variant, in variant order:
   * under `images/` plus the variant's path, holding the codec's bytes for
   * that variant, typed by the variant's mime type unless overridden, and
   * public-read unless overridden. The url points at the origin.
   */
  lemma ImageUploadWrites(cfg: Config, codec: Codec, f: FileInfo, params: CustomParams, p: Plan)
    requires ExtGiven(f.ext) && !IsDerivedHash(f.hash) && GetFileFormat(f.ext) == Image
    requires PlanSizes(f, cfg.Base(), codec, cfg.imageSizes) == Success(p)
    ensures UploadEffect(cfg, codec, f, params).Success?
    ensures var e := UploadEffect(cfg, codec, f, params).value;
      var ext := ExtText(f.ext);
      var vs := Variants(cfg.imageSizes, ext);
      && e.Commit?
      && e.url == cfg.Base() + "/images/" + OriginPath(f.hash, ext)
      && e.formats == Some(p.formats)
      && |e.writes| == |vs| == 1 + TotalCount(cfg.imageSizes, ext)
      && forall i :: 0 <= i < |vs| ==>
        && e.writes[i].key == ImageKey(VariantPath(vs[i], f.hash, ext))
        && VariantBytes(vs[i], f, codec) == Success(e.writes[i].value.body)
        && e.writes[i].value.contentType == params.contentType.GetOr(VariantMime(vs[i], f.mime))
        && e.writes[i].value.acl == params.acl.GetOr("public-read")
  {
    PlanFollowsVariants(f, cfg.Base(), codec, cfg.imageSizes, p);
    VariantsCount(cfg.imageSizes, ExtText(f.ext));
  }

  /** A non-image upload writes the buffer once, under `icons/` or `files/`, and leaves `formats` alone. */
  lemma NonImageUploadWrites(cfg: Config, codec: Codec, f: FileInfo, params: CustomParams)
    requires ExtGiven(f.ext) && !IsDerivedHash(f.hash) && GetFileFormat(f.ext) != Image
    ensures var key := (if GetFileFormat(f.ext) == Icon then "icons/" else "files/") + f.hash + f.ext.value;
      UploadEffect(cfg, codec, f, params)
        == Success(Commit([StoreWrite(key, f.buffer, f.mime, params)], cfg.Base() + "/" + key, None))
  {
    var format := GetFileFormat(f.ext);
    assert FormatWord(format) + "s/" == if format == Icon then "icons/" else "files/";
    assert FormatKey(format, f.hash, f.ext.value) == FormatWord(format) + "s/" + f.hash + f.ext.value;
  }
}

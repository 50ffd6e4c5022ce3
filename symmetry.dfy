/**
 * What `upload` writes compared with what `delete` removes. Delete rebuilds
 * its keys from the hash, the extension and the configured sizes; it never
 * rebuilds the avif keys, and for a webp source it issues no primary keys, so
 * it misses the primary key of every size name that no webp-asking size
 * shares, other than the origin key.
 */
module Symmetry {
  import opened Wrappers
  import opened Naming
  import opened Planner
  import opened PlanProperties
  import opened ObjectStore
  import opened Provider
  import opened UploadProperties

  /** Key of the unmodified upload. */
  function OriginKey(hash: string, ext: string): string {
    ImageKey(OriginPath(hash, ext))
  }

  /** Keys of the resized primary variants. */
  function PrimaryKeys(hash: string, ext: string, sizes: seq<SizeSpec>): set<string> {
    set s | s in sizes :: ImageKey(SizePath(s.name, hash, ext))
  }

  /** Keys of the extra-format copies `upload` generates. */
  function ExtraKeys(hash: string, ext: string, sizes: seq<SizeSpec>, x: ExtraFormat): set<string> {
    set s | s in sizes && Wanted(s, x, ext) :: ImageKey(SizePath(s.name, hash, x.Ext()))
  }

  /** Keys of webp copies `delete` removes: every size asking for webp, whatever the source. */
  function WebpDeleteKeys(hash: string, sizes: seq<SizeSpec>): set<string> {
    set s | s in sizes && s.isGenerateWebp :: ImageKey(SizePath(s.name, hash, ".webp"))
  }

  /** Every key an image upload writes. */
  function WrittenKeys(hash: string, ext: string, sizes: seq<SizeSpec>): set<string> {
    {OriginKey(hash, ext)} + PrimaryKeys(hash, ext, sizes)
      + ExtraKeys(hash, ext, sizes, ExtraWebp) + ExtraKeys(hash, ext, sizes, ExtraAvif)
  }

  /** Every key an image delete removes. */
  function DeletedKeys(hash: string, ext: string, sizes: seq<SizeSpec>): set<string> {
    {OriginKey(hash, ext)} + (if ext != ".webp" then PrimaryKeys(hash, ext, sizes) else {})
      + WebpDeleteKeys(hash, sizes)
  }

  function VariantKeys(hash: string, ext: string, vs: seq<Variant>): set<string> {
    set v | v in vs :: ImageKey(VariantPath(v, hash, ext))
  }

  function Elements(keys: seq<string>): set<string> {
    set k | k in keys
  }

  lemma ElementsConcat(a: seq<string>, b: seq<string>)
    ensures Elements(a + b) == Elements(a) + Elements(b)
  {
    assert forall k :: k in a + b <==> k in a || k in b;
  }

  lemma VariantKeysConcat(hash: string, ext: string, a: seq<Variant>, b: seq<Variant>)
    ensures VariantKeys(hash, ext, a + b) == VariantKeys(hash, ext, a) + VariantKeys(hash, ext, b)
  {
    assert forall v :: v in a + b <==> v in a || v in b;
  }

  lemma VariantKeysSingleton(hash: string, ext: string, v: Variant)
    ensures VariantKeys(hash, ext, [v]) == {ImageKey(VariantPath(v, hash, ext))}
  {
    assert v in [v];
    assert forall u :: u in [v] <==> u == v;
  }

  lemma SizeVariantKeys(hash: string, ext: string, s: SizeSpec)
    ensures VariantKeys(hash, ext, SizeVariants(s, ext))
      == {ImageKey(SizePath(s.name, hash, ext))}
        + (if Wanted(s, ExtraWebp, ext) then {ImageKey(SizePath(s.name, hash, ".webp"))} else {})
        + (if Wanted(s, ExtraAvif, ext) then {ImageKey(SizePath(s.name, hash, ".avif"))} else {})
  {
    var p := [PrimaryVariant(s)];
    var w := if Wanted(s, ExtraWebp, ext) then [ExtraVariant(s, ExtraWebp)] else [];
    var a := if Wanted(s, ExtraAvif, ext) then [ExtraVariant(s, ExtraAvif)] else [];
    VariantKeysConcat(hash, ext, p, w);
    VariantKeysConcat(hash, ext, p + w, a);
    VariantKeysSingleton(hash, ext, PrimaryVariant(s));
    VariantKeysSingleton(hash, ext, ExtraVariant(s, ExtraWebp));
    VariantKeysSingleton(hash, ext, ExtraVariant(s, ExtraAvif));
  }

  lemma PrimaryKeysSnoc(hash: string, ext: string, sizes: seq<SizeSpec>)
    requires sizes != []
    ensures var s := sizes[|sizes| - 1];
      PrimaryKeys(hash, ext, sizes) == PrimaryKeys(hash, ext, sizes[..|sizes| - 1]) + {ImageKey(SizePath(s.name, hash, ext))}
  {
    assert sizes == sizes[..|sizes| - 1] + [sizes[|sizes| - 1]];
  }

  lemma ExtraKeysSnoc(hash: string, ext: string, sizes: seq<SizeSpec>, x: ExtraFormat)
    requires sizes != []
    ensures var s := sizes[|sizes| - 1];
      ExtraKeys(hash, ext, sizes, x) == ExtraKeys(hash, ext, sizes[..|sizes| - 1], x)
        + (if Wanted(s, x, ext) then {ImageKey(SizePath(s.name, hash, x.Ext()))} else {})
  {
    assert sizes == sizes[..|sizes| - 1] + [sizes[|sizes| - 1]];
  }

  lemma WebpDeleteKeysSnoc(hash: string, sizes: seq<SizeSpec>)
    requires sizes != []
    ensures var s := sizes[|sizes| - 1];
      WebpDeleteKeys(hash, sizes) == WebpDeleteKeys(hash, sizes[..|sizes| - 1])
        + (if s.isGenerateWebp then {ImageKey(SizePath(s.name, hash, ".webp"))} else {})
  {
    assert sizes == sizes[..|sizes| - 1] + [sizes[|sizes| - 1]];
  }

  /** One size's keys join each of the four key sets. */
  lemma WrittenKeysStep(all: set<string>, all0: set<string>, origin: string, primary: set<string>, p: string,
                        webp: set<string>, w: set<string>, avif: set<string>, a: set<string>)
    requires all0 == {origin} + primary + webp + avif
    requires all == all0 + ({p} + w + a)
    ensures all == {origin} + (primary + {p}) + (webp + w) + (avif + a)
  {
  }

  /** The variants an image upload writes cover exactly the origin, the primaries and the wanted extra copies. */
  lemma {:induction false} VariantKeySet(hash: string, ext: string, sizes: seq<SizeSpec>)
    ensures VariantKeys(hash, ext, Variants(sizes, ext)) == WrittenKeys(hash, ext, sizes)
    decreases |sizes|
  {
    if sizes == [] {
      VariantKeysSingleton(hash, ext, OriginVariant);
    } else {
      var init := sizes[..|sizes| - 1];
      var s := sizes[|sizes| - 1];
      VariantKeySet(hash, ext, init);
      VariantKeysConcat(hash, ext, Variants(init, ext), SizeVariants(s, ext));
      SizeVariantKeys(hash, ext, s);
      PrimaryKeysSnoc(hash, ext, sizes);
      ExtraKeysSnoc(hash, ext, sizes, ExtraWebp);
      ExtraKeysSnoc(hash, ext, sizes, ExtraAvif);
      WrittenKeysStep(
        VariantKeys(hash, ext, Variants(sizes, ext)), VariantKeys(hash, ext, Variants(init, ext)),
        OriginKey(hash, ext),
        PrimaryKeys(hash, ext, init), ImageKey(SizePath(s.name, hash, ext)),
        ExtraKeys(hash, ext, init, ExtraWebp), if Wanted(s, ExtraWebp, ext) then {ImageKey(SizePath(s.name, hash, ".webp"))} else {},
        ExtraKeys(hash, ext, init, ExtraAvif), if Wanted(s, ExtraAvif, ext) then {ImageKey(SizePath(s.name, hash, ".avif"))} else {});
    }
  }

  lemma {:induction false} SizeDeleteKeySet(hash: string, ext: string, sizes: seq<SizeSpec>)
    ensures Elements(SizeDeleteKeys(hash, ext, sizes))
      == (if ext != ".webp" then PrimaryKeys(hash, ext, sizes) else {}) + WebpDeleteKeys(hash, sizes)
    decreases |sizes|
  {
    if sizes != [] {
      var init := sizes[..|sizes| - 1];
      var s := sizes[|sizes| - 1];
      SizeDeleteKeySet(hash, ext, init);
      var a := SizeDeleteKeys(hash, ext, init);
      var b := if ext != ".webp" then [ImageKey(SizePath(s.name, hash, ext))] else [];
      var c := if s.isGenerateWebp then [ImageKey(SizePath(s.name, hash, ".webp"))] else [];
      ElementsConcat(a, b);
      ElementsConcat(a + b, c);
      assert Elements(b) == if ext != ".webp" then {ImageKey(SizePath(s.name, hash, ext))} else {};
      assert Elements(c) == if s.isGenerateWebp then {ImageKey(SizePath(s.name, hash, ".webp"))} else {};
      PrimaryKeysSnoc(hash, ext, sizes);
      WebpDeleteKeysSnoc(hash, sizes);
      DeleteKeysStep(Elements(a), PrimaryKeys(hash, ext, init), WebpDeleteKeys(hash, init),
        ImageKey(SizePath(s.name, hash, ext)), ImageKey(SizePath(s.name, hash, ".webp")), ext != ".webp", s.isGenerateWebp);
    }
  }

  /** One size's step of `SizeDeleteKeySet`, on sets alone. */
  lemma DeleteKeysStep(deleted: set<string>, primary: set<string>, webp: set<string>,
                       primaryKey: string, webpKey: string, withPrimary: bool, withWebp: bool)
    requires deleted == (if withPrimary then primary else {}) + webp
    ensures deleted + (if withPrimary then {primaryKey} else {}) + (if withWebp then {webpKey} else {})
      == (if withPrimary then primary + {primaryKey} else {}) + (webp + if withWebp then {webpKey} else {})
  {
  }

  /** For an image, `delete` removes exactly the origin, the primaries unless the source is webp, and the requested webp copies. */
  lemma DeleteKeySet(cfg: Config, hash: string, ext: string)
    requires GetFileFormat(Some(ext)) == Image
    ensures Elements(DeleteKeys(cfg, hash, Some(ext))) == DeletedKeys(hash, ext, cfg.imageSizes)
  {
    SizeDeleteKeySet(hash, ext, cfg.imageSizes);
    ElementsConcat([OriginKey(hash, ext)], SizeDeleteKeys(hash, ext, cfg.imageSizes));
  }

  /** The last two characters of an image extension are never `if`, the end of `.avif`. */
  lemma ImageExtensionEnding(ext: string)
    requires GetFileFormat(Some(ext)) == Image
    ensures |ext| >= 4 && ext[|ext| - 2] != 'i'
  {
    var x :| x in ImageExtensions && EqualIgnoringCase(ext, x);
    assert LowerChar(ext[|ext| - 2]) == x[|x| - 2];
  }

  lemma KeyEnding(prefix: string, ext: string)
    requires |ext| >= 2
    ensures var key := ImageKey(prefix + ext);
      |key| >= 2 && key[|key| - 2] == ext[|ext| - 2] && key[|key| - 1] == ext[|ext| - 1]
  {
  }

  /** An avif key is never the key of an origin, a primary or a webp copy. */
  lemma AvifKeyDistinct(hash: string, ext: string, n: string, m: string)
    requires GetFileFormat(Some(ext)) == Image
    ensures ImageKey(SizePath(n, hash, ".avif")) != OriginKey(hash, ext)
    ensures ImageKey(SizePath(n, hash, ".avif")) != ImageKey(SizePath(m, hash, ext))
    ensures ImageKey(SizePath(n, hash, ".avif")) != ImageKey(SizePath(m, hash, ".webp"))
  {
    ImageExtensionEnding(ext);
    KeyEnding(n + "/" + hash, ".avif");
    KeyEnding(FileType + "/" + hash, ext);
    KeyEnding(m + "/" + hash, ext);
    KeyEnding(m + "/" + hash, ".webp");
  }

  /**
   * Upload then delete of an image: every deleted key was written, and what
   * stays behind is every avif copy plus, for a webp source, the primary keys
   * of size names that no webp-asking size shares, other than the origin key.
   */
  lemma DeleteLeavesAvif(hash: string, ext: string, sizes: seq<SizeSpec>)
    requires GetFileFormat(Some(ext)) == Image
    ensures DeletedKeys(hash, ext, sizes) <= WrittenKeys(hash, ext, sizes)
    ensures WrittenKeys(hash, ext, sizes) - DeletedKeys(hash, ext, sizes)
      == ExtraKeys(hash, ext, sizes, ExtraAvif)
        + (if ext == ".webp" then PrimaryKeys(hash, ext, sizes) - WebpDeleteKeys(hash, sizes) - {OriginKey(hash, ext)} else {})
  {
    AvifNotDeleted(hash, ext, sizes);
    if ext != ".webp" {
      assert WebpDeleteKeys(hash, sizes) == ExtraKeys(hash, ext, sizes, ExtraWebp);
    } else {
      assert ExtraKeys(hash, ext, sizes, ExtraWebp) == {};
      assert WebpDeleteKeys(hash, sizes) <= PrimaryKeys(hash, ext, sizes);
    }
    KeySetAlgebra(OriginKey(hash, ext), PrimaryKeys(hash, ext, sizes), ExtraKeys(hash, ext, sizes, ExtraWebp),
      ExtraKeys(hash, ext, sizes, ExtraAvif), WebpDeleteKeys(hash, sizes), ext == ".webp");
  }

  lemma AvifNotPrimary(hash: string, ext: string, sizes: seq<SizeSpec>, n: string)
    requires GetFileFormat(Some(ext)) == Image
    ensures ImageKey(SizePath(n, hash, ".avif")) !in PrimaryKeys(hash, ext, sizes)
  {
    forall m | m in sizes
      ensures ImageKey(SizePath(n, hash, ".avif")) != ImageKey(SizePath(m.name, hash, ext))
    {
      AvifKeyDistinct(hash, ext, n, m.name);
    }
  }

  lemma AvifNotWebpDeleted(hash: string, ext: string, sizes: seq<SizeSpec>, n: string)
    requires GetFileFormat(Some(ext)) == Image
    ensures ImageKey(SizePath(n, hash, ".avif")) !in WebpDeleteKeys(hash, sizes)
  {
    forall m | m in sizes
      ensures ImageKey(SizePath(n, hash, ".avif")) != ImageKey(SizePath(m.name, hash, ".webp"))
    {
      AvifKeyDistinct(hash, ext, n, m.name);
    }
  }

  lemma AvifNotDeleted(hash: string, ext: string, sizes: seq<SizeSpec>)
    requires GetFileFormat(Some(ext)) == Image
    ensures ExtraKeys(hash, ext, sizes, ExtraAvif) !! DeletedKeys(hash, ext, sizes)
  {
    forall k | k in ExtraKeys(hash, ext, sizes, ExtraAvif)
      ensures k !in DeletedKeys(hash, ext, sizes)
    {
      var s :| s in sizes && Wanted(s, ExtraAvif, ext) && k == ImageKey(SizePath(s.name, hash, ".avif"));
      AvifNotPrimary(hash, ext, sizes, s.name);
      AvifNotWebpDeleted(hash, ext, sizes, s.name);
      AvifKeyDistinct(hash, ext, s.name, s.name);
    }
  }

  /** The set reasoning behind `DeleteLeavesAvif`, over abstract key sets. */
  lemma KeySetAlgebra(origin: string, primary: set<string>, webp: set<string>, avif: set<string>,
                      webpDeleted: set<string>, webpSource: bool)
    requires avif !! ({origin} + (if !webpSource then primary else {}) + webpDeleted)
    requires !webpSource ==> webpDeleted == webp
    requires webpSource ==> webp == {} && webpDeleted <= primary
    ensures var written := {origin} + primary + webp + avif;
      var deleted := {origin} + (if !webpSource then primary else {}) + webpDeleted;
      && deleted <= written
      && written - deleted == avif + (if webpSource then primary - webpDeleted - {origin} else {})
  {
  }

  lemma WriteKeySet(ws: seq<Write>)
    ensures (set w | w in ws :: w.key) == Elements(WriteKeys(ws))
  {
    var keys := WriteKeys(ws);
    forall k | k in Elements(keys)
      ensures k in set w | w in ws :: w.key
    {
      var i :| 0 <= i < |keys| && keys[i] == k;
      assert ws[i] in ws;
    }
    forall w | w in ws
      ensures w.key in Elements(keys)
    {
      var i :| 0 <= i < |ws| && ws[i] == w;
      assert keys[i] == w.key;
    }
  }

  /** The keys a planned image upload writes are exactly the origin, the primaries and the wanted extra copies. */
  lemma UploadedImageKeys(cfg: Config, codec: Codec, f: FileInfo, params: CustomParams, p: Plan)
    requires ExtGiven(f.ext) && !IsDerivedHash(f.hash) && GetFileFormat(f.ext) == Image
    requires PlanSizes(f, cfg.Base(), codec, cfg.imageSizes) == Success(p)
    ensures UploadEffect(cfg, codec, f, params).Success? && UploadEffect(cfg, codec, f, params).value.Commit?
    ensures Elements(WriteKeys(UploadEffect(cfg, codec, f, params).value.writes))
      == WrittenKeys(f.hash, f.ext.value, cfg.imageSizes)
  {
    ImageUploadWrites(cfg, codec, f, params, p);
    MatchedWriteKeys(UploadEffect(cfg, codec, f, params).value.writes, Variants(cfg.imageSizes, f.ext.value), f.hash, f.ext.value);
    VariantKeySet(f.hash, f.ext.value, cfg.imageSizes);
  }

  /** Writes whose keys follow a variant list, index by index, cover exactly the variants' keys. */
  lemma MatchedWriteKeys(ws: seq<Write>, vs: seq<Variant>, hash: string, ext: string)
    requires |ws| == |vs| && forall i :: 0 <= i < |vs| ==> ws[i].key == ImageKey(VariantPath(vs[i], hash, ext))
    ensures Elements(WriteKeys(ws)) == VariantKeys(hash, ext, vs)
  {
    var keys := WriteKeys(ws);
    forall k | k in Elements(keys)
      ensures k in VariantKeys(hash, ext, vs)
    {
      var i :| 0 <= i < |keys| && keys[i] == k;
      assert vs[i] in vs;
    }
    forall k | k in VariantKeys(hash, ext, vs)
      ensures k in Elements(keys)
    {
      var v :| v in vs && k == ImageKey(VariantPath(v, hash, ext));
      var i :| 0 <= i < |vs| && vs[i] == v;
      assert keys[i] == k;
    }
  }

  /**
   * A planned image upload followed by a delete of the same file, with no
   * store failure: objects the bucket held before lose the deleted keys, and
   * of the uploaded objects only the avif copies survive, plus, for a webp
   * source, the primary keys of size names that no webp-asking size shares,
   * other than the origin key.
   */
  lemma ImageUploadThenDelete(cfg: Config, codec: Codec, f: FileInfo, params: CustomParams, p: Plan,
                              objects: map<string, StoredObject>)
    requires ExtGiven(f.ext) && !IsDerivedHash(f.hash) && GetFileFormat(f.ext) == Image
    requires PlanSizes(f, cfg.Base(), codec, cfg.imageSizes) == Success(p)
    ensures UploadEffect(cfg, codec, f, params).Success? && UploadEffect(cfg, codec, f, params).value.Commit?
    ensures var ws := UploadEffect(cfg, codec, f, params).value.writes;
      var deleted := Elements(DeleteKeys(cfg, f.hash, f.ext));
      var ext := f.ext.value;
      var sizes := cfg.imageSizes;
      && deleted <= Elements(WriteKeys(ws))
      && Removed(Apply(objects, ws), DeleteKeys(cfg, f.hash, f.ext)).Keys
        == (objects.Keys - deleted) + ExtraKeys(f.hash, ext, sizes, ExtraAvif)
          + (if ext == ".webp" then PrimaryKeys(f.hash, ext, sizes) - WebpDeleteKeys(f.hash, sizes) - {OriginKey(f.hash, ext)} else {})
  {
    var ext := f.ext.value;
    UploadedImageKeys(cfg, codec, f, params, p);
    var ws := UploadEffect(cfg, codec, f, params).value.writes;
    DeleteKeySet(cfg, f.hash, ext);
    DeleteLeavesAvif(f.hash, ext, cfg.imageSizes);
    RemovedAfterApply(objects, ws, DeleteKeys(cfg, f.hash, f.ext));
  }

  /** Keys left when `keys` are removed after `ws` were applied. */
  lemma RemovedAfterApply(objects: map<string, StoredObject>, ws: seq<Write>, keys: seq<string>)
    ensures Removed(Apply(objects, ws), keys).Keys
      == (objects.Keys - Elements(keys)) + (Elements(WriteKeys(ws)) - Elements(keys))
  {
    ApplyKeys(objects, ws);
    WriteKeySet(ws);
    assert Removed(Apply(objects, ws), keys) == Apply(objects, ws) - Elements(keys);
  }

  /** A non-image file is deleted under exactly the one key it was uploaded to. */
  lemma NonImageUploadThenDelete(cfg: Config, codec: Codec, f: FileInfo, params: CustomParams)
    requires ExtGiven(f.ext) && !IsDerivedHash(f.hash) && GetFileFormat(f.ext) != Image
    ensures UploadEffect(cfg, codec, f, params).Success? && UploadEffect(cfg, codec, f, params).value.Commit?
    ensures DeleteKeys(cfg, f.hash, f.ext) == WriteKeys(UploadEffect(cfg, codec, f, params).value.writes)
  {
    NonImageUploadWrites(cfg, codec, f, params);
  }

  /**
   * `delete` keeps neither the extension nor the hash guard of `upload`: a
   * file without an extension, which `upload` skips, is still deleted under
   * a `files/` key that ends in the text `undefined`.
   */
  lemma DeleteWithoutExtension(cfg: Config, codec: Codec, f: FileInfo, params: CustomParams)
    requires f.ext.None?
    ensures UploadEffect(cfg, codec, f, params) == Success(Skip)
    ensures DeleteKeys(cfg, f.hash, f.ext) == ["files/" + f.hash + "undefined"]
  {
    assert FormatKey(File, f.hash, "undefined") == "files/" + f.hash + "undefined";
  }

  /**
   * `file.url` is the base URL joined by `/` to the key of the first write:
   * the origin key for an image, the one key written otherwise.
   */
  lemma CommittedUrl(cfg: Config, codec: Codec, f: FileInfo, params: CustomParams)
    requires UploadEffect(cfg, codec, f, params).Success? && UploadEffect(cfg, codec, f, params).value.Commit?
    ensures var e := UploadEffect(cfg, codec, f, params).value;
      && |e.writes| >= 1
      && e.url == BaseUrl(cfg.cdn, cfg.bucket, cfg.region) + "/" + e.writes[0].key
      && (GetFileFormat(f.ext) == Image ==> e.writes[0].key == OriginKey(f.hash, f.ext.value))
  {
    assert ExtGiven(f.ext) && !IsDerivedHash(f.hash);
    if GetFileFormat(f.ext) == Image {
      ImageCommittedUrl(cfg, codec, f, params, PlanSizes(f, cfg.Base(), codec, cfg.imageSizes).value);
    } else {
      NonImageUploadWrites(cfg, codec, f, params);
    }
  }

  lemma ImageCommittedUrl(cfg: Config, codec: Codec, f: FileInfo, params: CustomParams, p: Plan)
    requires ExtGiven(f.ext) && !IsDerivedHash(f.hash) && GetFileFormat(f.ext) == Image
    requires PlanSizes(f, cfg.Base(), codec, cfg.imageSizes) == Success(p)
    ensures UploadEffect(cfg, codec, f, params).Success? && UploadEffect(cfg, codec, f, params).value.Commit?
    ensures var e := UploadEffect(cfg, codec, f, params).value;
      && |e.writes| >= 1
      && e.url == cfg.Base() + "/" + e.writes[0].key
      && e.writes[0].key == OriginKey(f.hash, f.ext.value)
  {
    ImageUploadWrites(cfg, codec, f, params, p);
    var origin := OriginPath(f.hash, f.ext.value);
    assert Variants(cfg.imageSizes, f.ext.value)[0] == OriginVariant;
    assert cfg.Base() + "/images/" + origin == cfg.Base() + "/" + ImageKey(origin);
  }

  /**
   * Every record in `file.formats` carries the base URL joined by `/` to a
   * key the same upload writes: the key of that tier's variant in the
   * record's format.
   */
  lemma RecordUrls(cfg: Config, codec: Codec, f: FileInfo, params: CustomParams)
    requires UploadEffect(cfg, codec, f, params).Success? && UploadEffect(cfg, codec, f, params).value.Commit?
    requires UploadEffect(cfg, codec, f, params).value.formats.Some?
    ensures var e := UploadEffect(cfg, codec, f, params).value;
      var fm := e.formats.value;
      forall n, k :: n in fm && k in fm[n] ==>
        var key := ImageKey(SizePath(n, f.hash, KeyExt(k, f.ext.value)));
        && fm[n][k].url == BaseUrl(cfg.cdn, cfg.bucket, cfg.region) + "/" + key
        && key in Elements(WriteKeys(e.writes))
  {
    assert ExtGiven(f.ext) && !IsDerivedHash(f.hash) && GetFileFormat(f.ext) == Image;
    var p := PlanSizes(f, cfg.Base(), codec, cfg.imageSizes).value;
    UploadedImageKeys(cfg, codec, f, params, p);
    assert UploadEffect(cfg, codec, f, params).value.formats == Some(p.formats);
    forall n, k | n in p.formats && k in p.formats[n]
      ensures var key := ImageKey(SizePath(n, f.hash, KeyExt(k, f.ext.value)));
        && p.formats[n][k].url == cfg.Base() + "/" + key
        && key in WrittenKeys(f.hash, f.ext.value, cfg.imageSizes)
    {
      RecordKeyWritten(f, cfg.Base(), codec, cfg.imageSizes, p, n, k);
    }
  }

  /** The record `k` of tier `n` in a plan names a key the plan writes. */
  lemma RecordKeyWritten(f: FileInfo, base: string, codec: Codec, sizes: seq<SizeSpec>, p: Plan, n: string, k: string)
    requires ExtGiven(f.ext) && PlanSizes(f, base, codec, sizes) == Success(p)
    requires n in p.formats && k in p.formats[n]
    ensures var key := ImageKey(SizePath(n, f.hash, KeyExt(k, f.ext.value)));
      && p.formats[n][k].url == base + "/" + key
      && key in WrittenKeys(f.hash, f.ext.value, sizes)
  {
    var ext := f.ext.value;
    PlanFormatEntries(f, base, codec, sizes, p);
    var path := SizePath(n, f.hash, KeyExt(k, ext));
    assert base + "/images/" + path == base + "/" + ImageKey(path);
    if k == "origin" {
      TierKeyWritten(f.hash, ext, sizes, n);
    } else {
      var x := if k == "webp" then ExtraWebp else ExtraAvif;
      assert x.Key() == k;
      ExtraKeyWritten(f.hash, ext, sizes, n, x);
    }
  }

  lemma TierKeyWritten(hash: string, ext: string, sizes: seq<SizeSpec>, n: string)
    requires exists i :: 0 <= i < |sizes| && sizes[i].name == n
    ensures ImageKey(SizePath(n, hash, ext)) in PrimaryKeys(hash, ext, sizes)
  {
    var i :| 0 <= i < |sizes| && sizes[i].name == n;
    assert sizes[i] in sizes;
  }

  lemma ExtraKeyWritten(hash: string, ext: string, sizes: seq<SizeSpec>, n: string, x: ExtraFormat)
    requires exists i :: 0 <= i < |sizes| && sizes[i].name == n && Wanted(sizes[i], x, ext)
    ensures ImageKey(SizePath(n, hash, x.Ext())) in ExtraKeys(hash, ext, sizes, x)
  {
    var i :| 0 <= i < |sizes| && sizes[i].name == n && Wanted(sizes[i], x, ext);
    assert sizes[i] in sizes;
  }
}

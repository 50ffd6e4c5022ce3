/**
 * The `upload` and `delete` operations returned by `init` (lib/index.js:33-228).
 * Each is a method over a mutable file descriptor and the bucket, proved
 * against a function that says which writes or deletes it issues and what it
 * assigns to the file.
 */
module Provider {
  import opened Wrappers
  import opened Naming
  import opened Planner
  import opened ObjectStore

  /** The options `init` reads; the codec's optimize options live inside the codec parameter. */
  datatype Config = Config(imageSizes: seq<SizeSpec>, cdn: Option<string>, bucket: string, region: string) {
    function Base(): string {
      BaseUrl(cdn, bucket, region)
    }
  }

  /** `customParams`, reduced to the two request fields it may override. */
  datatype CustomParams = CustomParams(acl: Option<string>, contentType: Option<string>)

  /** The file descriptor owned by the caller; `upload` assigns `url` and `formats`. */
  class UploadedFile {
    const hash: string
    const ext: Option<string>
    const mime: string
    const name: string
    const buffer: Bytes
    var url: Option<string>
    var formats: Option<Formats>

    constructor (hash: string, ext: Option<string>, mime: string, name: string, buffer: Bytes)
      ensures this.hash == hash && this.ext == ext && this.mime == mime && this.name == name
      ensures this.buffer == buffer && url == None && formats == None
    {
      this.hash, this.ext, this.mime, this.name, this.buffer := hash, ext, mime, name, buffer;
      url, formats := None, None;
    }

    function Info(): FileInfo {
      FileInfo(hash, ext, mime, name, buffer)
    }
  }

  /** One store write: `ACL` is public-read and `ContentType` the job's type unless overridden. */
  function StoreWrite(key: string, body: Bytes, mime: string, params: CustomParams): Write {
    Write(key, StoredObject(body, params.contentType.GetOr(mime), params.acl.GetOr("public-read")))
  }

  /** The writes of the second loop of `upload`, one per job, under `images/`. */
  function JobWrites(jobs: seq<WriteJob>, params: CustomParams): seq<Write> {
    seq(|jobs|, i requires 0 <= i < |jobs| => StoreWrite(ImageKey(jobs[i].path), jobs[i].buffer, jobs[i].mime, params))
  }

  /** What an upload does once its plan is settled. */
  datatype Effect =
    | Skip
    | Commit(writes: seq<Write>, url: string, formats: Option<Formats>)

  /** The writes `upload` issues and the fields it then assigns, or why it rejects first. */
  function UploadEffect(cfg: Config, codec: Codec, f: FileInfo, params: CustomParams): Result<Effect, UploadError> {
    if !ExtGiven(f.ext) || IsDerivedHash(f.hash) then Success(Skip)
    else
      var base := cfg.Base();
      var ext := ExtText(f.ext);
      var format := GetFileFormat(f.ext);
      if format == Image then
        var plan :- PlanSizes(f, base, codec, cfg.imageSizes);
        Success(Commit(JobWrites(plan.jobs, params), base + "/images/" + OriginPath(f.hash, ext), Some(plan.formats)))
      else
        var key := FormatKey(format, f.hash, ext);
        Success(Commit([StoreWrite(key, f.buffer, f.mime, params)], base + "/" + key, None))
  }

  /**
   * The second loop of `upload`: one store write per job, in order, stopping
   * at the first write the store refuses.
   */
  method WriteJobs(buffers: seq<WriteJob>, params: CustomParams, store: Bucket) returns (r: Outcome<UploadError>)
    modifies store
    ensures var writes := JobWrites(buffers, params);
      var k := FirstRefused(WriteKeys(writes), store.refused);
      && store.objects == Apply(old(store.objects), writes[..k])
      && (k == |writes| ==> r == Pass)
      && (k < |writes| ==> r == Fail(WriteFailed(writes[k].key)))
  {
    ghost var writes := JobWrites(buffers, params);
    for i := 0 to |buffers|
      invariant store.objects == Apply(old(store.objects), writes[..i])
      invariant forall j :: 0 <= j < i ==> writes[j].key !in store.refused
    {
      var item := buffers[i];
      var ok := store.Put(ImageKey(item.path), StoredObject(item.buffer, params.contentType.GetOr(item.mime), params.acl.GetOr("public-read")));
      if !ok {
        ghost var keys := WriteKeys(writes);
        assert keys[i] in store.refused && forall j :: 0 <= j < i ==> keys[j] == writes[j].key;
        assert FirstRefused(keys, store.refused) == i;
        return Fail(WriteFailed(ImageKey(item.path)));
      }
      assert writes[..i + 1] == writes[..i] + [writes[i]];
    }
    assert writes[..|buffers|] == writes;
    r := Pass;
  }

  /**
   * `upload(file, customParams)`. Writes run one after another and the first
   * refused write rejects the rest; `file.formats` and `file.url` are
   * assigned only after every write has succeeded.
   */
  method Upload(cfg: Config, codec: Codec, file: UploadedFile, params: CustomParams, store: Bucket)
    returns (r: Outcome<UploadError>)
    modifies file, store
    ensures match UploadEffect(cfg, codec, file.Info(), params)
      case Failure(e) =>
        r == Fail(e) && unchanged(file) && store.objects == old(store.objects)
      case Success(Skip) =>
        r == Pass && unchanged(file) && store.objects == old(store.objects)
      case Success(Commit(writes, url, formats)) =>
        var k := FirstRefused(WriteKeys(writes), store.refused);
        && store.objects == Apply(old(store.objects), writes[..k])
        && (k == |writes| ==>
              && r == Pass && file.url == Some(url)
              && file.formats == if formats.Some? then formats else old(file.formats))
        && (k < |writes| ==> r == Fail(WriteFailed(writes[k].key)) && unchanged(file))
  {
    if !ExtGiven(file.ext) {
      return Pass;
    }
    var fileFormat := GetFileFormat(file.ext);
    if IsDerivedHash(file.hash) {
      return Pass;
    }
    if fileFormat == Image {
      r := UploadImage(cfg, codec, file, params, store);
    } else {
      r := UploadOther(cfg, file, fileFormat, params, store);
    }
  }

  /**
   * The image branch of `upload`: plan every variant, write them in order,
   * then assign `formats` and the origin's url.
   */
  method UploadImage(cfg: Config, codec: Codec, file: UploadedFile, params: CustomParams, store: Bucket)
    returns (r: Outcome<UploadError>)
    modifies file, store
    ensures match PlanSizes(file.Info(), cfg.Base(), codec, cfg.imageSizes)
      case Failure(e) =>
        r == Fail(e) && unchanged(file) && store.objects == old(store.objects)
      case Success(plan) =>
        var writes := JobWrites(plan.jobs, params);
        var k := FirstRefused(WriteKeys(writes), store.refused);
        && store.objects == Apply(old(store.objects), writes[..k])
        && (k == |writes| ==>
              && r == Pass && file.formats == Some(plan.formats)
              && file.url == Some(cfg.Base() + "/images/" + OriginPath(file.hash, ExtText(file.ext))))
        && (k < |writes| ==> r == Fail(WriteFailed(writes[k].key)) && unchanged(file))
  {
    var base := cfg.Base();
    var plan := BuildJobs(file.Info(), base, codec, cfg.imageSizes);
    if plan.Failure? {
      return Fail(plan.error);
    }
    r := CommitImage(base, plan.value, file, params, store);
  }

  /** The second loop of the image branch and the assignments after it. */
  method CommitImage(base: string, plan: Plan, file: UploadedFile, params: CustomParams, store: Bucket)
    returns (r: Outcome<UploadError>)
    modifies file, store
    ensures var writes := JobWrites(plan.jobs, params);
      var k := FirstRefused(WriteKeys(writes), store.refused);
      && store.objects == Apply(old(store.objects), writes[..k])
      && (k == |writes| ==>
            && r == Pass && file.formats == Some(plan.formats)
            && file.url == Some(base + "/images/" + OriginPath(file.hash, ExtText(file.ext))))
      && (k < |writes| ==> r == Fail(WriteFailed(writes[k].key)) && unchanged(file))
  {
    var fileType := FileType;
    var ext := ExtText(file.ext);
    r := WriteJobs(plan.jobs, params, store);
    if r.Fail? {
      return;
    }
    file.formats := Some(plan.formats);
    file.url := Some(base + "/images/" + fileType + "/" + file.hash + ext);
    assert base + "/images/" + fileType + "/" + file.hash + ext == base + "/images/" + OriginPath(file.hash, ext);
  }

  /** The non-image branch of `upload`: one write under `icons/` or `files/`, then the url. */
  method UploadOther(cfg: Config, file: UploadedFile, fileFormat: FileFormat, params: CustomParams, store: Bucket)
    returns (r: Outcome<UploadError>)
    modifies file, store
    ensures var key := FormatKey(fileFormat, file.hash, ExtText(file.ext));
      && (key !in store.refused ==>
            && r == Pass && file.url == Some(cfg.Base() + "/" + key) && file.formats == old(file.formats)
            && store.objects == old(store.objects)[key := StoreWrite(key, file.buffer, file.mime, params).value])
      && (key in store.refused ==> r == Fail(WriteFailed(key)) && unchanged(file) && store.objects == old(store.objects))
  {
    var key := FormatKey(fileFormat, file.hash, ExtText(file.ext));
    var ok := store.Put(key, StoredObject(file.buffer, params.contentType.GetOr(file.mime), params.acl.GetOr("public-read")));
    if !ok {
      return Fail(WriteFailed(key));
    }
    file.url := Some(cfg.Base() + "/" + key);
    r := Pass;
  }

  /** The keys `delete` issues for the sizes, in order. */
  function SizeDeleteKeys(hash: string, ext: string, sizes: seq<SizeSpec>): seq<string>
    decreases |sizes|
  {
    if sizes == [] then []
    else
      var s := sizes[|sizes| - 1];
      SizeDeleteKeys(hash, ext, sizes[..|sizes| - 1])
        + (if ext != ".webp" then [ImageKey(SizePath(s.name, hash, ext))] else [])
        + (if s.isGenerateWebp then [ImageKey(SizePath(s.name, hash, ".webp"))] else [])
  }

  /** The keys `delete` issues, rebuilt from the hash, the extension and the sizes alone. */
  function DeleteKeys(cfg: Config, hash: string, ext: Option<string>): seq<string> {
    var format := GetFileFormat(ext);
    if format == Image then
      [ImageKey(OriginPath(hash, ExtText(ext)))] + SizeDeleteKeys(hash, ExtText(ext), cfg.imageSizes)
    else [FormatKey(format, hash, ExtText(ext))]
  }

  lemma {:induction false} SizeDeleteKeysPrefix(hash: string, ext: string, sizes: seq<SizeSpec>, i: nat)
    requires i <= |sizes|
    ensures SizeDeleteKeys(hash, ext, sizes[..i]) <= SizeDeleteKeys(hash, ext, sizes)
    decreases |sizes|
  {
    if i < |sizes| {
      var init := sizes[..|sizes| - 1];
      assert init[..i] == sizes[..i];
      SizeDeleteKeysPrefix(hash, ext, init, i);
    } else {
      assert sizes[..i] == sizes;
    }
  }

  /**
   * One store delete inside a planned sequence `keys` of which the prefix
   * `done` has been removed: on success the prefix grows by `key`, on refusal
   * `key` is the first refused key of the sequence.
   */
  method RemoveNext(key: string, ghost keys: seq<string>, ghost done: seq<string>,
                    ghost start: map<string, StoredObject>, store: Bucket) returns (ok: bool)
    modifies store
    requires done <= keys && |done| < |keys| && keys[|done|] == key
    requires forall j :: 0 <= j < |done| ==> done[j] !in store.refused
    requires store.objects == Removed(start, done)
    ensures ok ==> store.objects == Removed(start, done + [key])
    ensures ok ==> forall j :: 0 <= j < |done + [key]| ==> (done + [key])[j] !in store.refused
    ensures !ok ==> FirstRefused(keys, store.refused) == |done| && store.objects == Removed(start, keys[..|done|])
  {
    ok := store.Remove(key);
    if ok {
      RemovedAppend(start, done, key);
    } else {
      FirstRefusedAppend(done, keys[|done|..], store.refused);
      assert done + keys[|done|..] == keys;
      assert keys[..|done|] == done;
    }
  }

  /**
   * The loop of `delete` over the sizes: the primary key unless the source
   * is webp, then the webp key when the size asks for webp; it stops at the
   * first delete the store refuses.
   */
  method DeleteSizes(sizes: seq<SizeSpec>, hash: string, ext: string, store: Bucket) returns (r: Outcome<string>)
    modifies store
    ensures var keys := SizeDeleteKeys(hash, ext, sizes);
      var k := FirstRefused(keys, store.refused);
      && store.objects == Removed(old(store.objects), keys[..k])
      && (k == |keys| ==> r == Pass)
      && (k < |keys| ==> r == Fail(keys[k]))
  {
    ghost var keys := SizeDeleteKeys(hash, ext, sizes);
    ghost var done: seq<string> := [];
    for i := 0 to |sizes|
      invariant done == SizeDeleteKeys(hash, ext, sizes[..i])
      invariant done <= keys
      invariant forall j :: 0 <= j < |done| ==> done[j] !in store.refused
      invariant store.objects == Removed(old(store.objects), done)
    {
      var size := sizes[i];
      assert sizes[..i + 1][..i] == sizes[..i];
      SizeDeleteKeysPrefix(hash, ext, sizes, i + 1);
      if ext != ".webp" {
        var key := ImageKey(size.name + "/" + hash + ext);
        var ok := RemoveNext(key, keys, done, old(store.objects), store);
        if !ok {
          return Fail(key);
        }
        done := done + [key];
      }
      if size.isGenerateWebp {
        var key := ImageKey(size.name + "/" + hash + ".webp");
        var ok := RemoveNext(key, keys, done, old(store.objects), store);
        if !ok {
          return Fail(key);
        }
        done := done + [key];
      }
    }
    assert sizes[..|sizes|] == sizes;
    assert keys[..|keys|] == keys;
    FirstRefusedAppend(keys, [], store.refused);
    assert keys + [] == keys;
    r := Pass;
  }

  /** Deleting one accepted key and then a sequence is deleting their concatenation. */
  lemma DeleteThenDelete(objects: map<string, StoredObject>, first: string, rest: seq<string>, refused: set<string>)
    requires first !in refused
    ensures var k := FirstRefused(rest, refused);
      && FirstRefused([first] + rest, refused) == 1 + k
      && Removed(Removed(objects, [first]), rest[..k]) == Removed(objects, ([first] + rest)[..1 + k])
  {
    var k := FirstRefused(rest, refused);
    FirstRefusedAppend([first], rest, refused);
    RemovedConcat(objects, [first], rest[..k]);
    assert ([first] + rest)[..1 + k] == [first] + rest[..k];
  }

  /**
   * `delete(file, customParams)`. Deletes run one after another and the first
   * refused delete rejects the rest; the result carries the refused key.
   */
  method Delete(cfg: Config, file: UploadedFile, params: CustomParams, store: Bucket)
    returns (r: Outcome<string>)
    modifies store
    ensures var keys := DeleteKeys(cfg, file.hash, file.ext);
      var k := FirstRefused(keys, store.refused);
      && store.objects == Removed(old(store.objects), keys[..k])
      && (k == |keys| ==> r == Pass)
      && (k < |keys| ==> r == Fail(keys[k]))
  {
    var fileFormat := GetFileFormat(file.ext);
    var ext := ExtText(file.ext);
    if fileFormat == Image {
      r := DeleteImage(cfg.imageSizes, file.hash, ext, store);
    } else {
      var key := FormatKey(fileFormat, file.hash, ext);
      var ok := store.Remove(key);
      if !ok {
        return Fail(key);
      }
      RemovedAppend(old(store.objects), [], key);
      assert [key][..1] == [] + [key];
      r := Pass;
    }
  }

  /** The image branch of `delete`: the origin key, then the keys of every size. */
  method DeleteImage(sizes: seq<SizeSpec>, hash: string, ext: string, store: Bucket) returns (r: Outcome<string>)
    modifies store
    ensures var keys := [ImageKey(OriginPath(hash, ext))] + SizeDeleteKeys(hash, ext, sizes);
      var k := FirstRefused(keys, store.refused);
      && store.objects == Removed(old(store.objects), keys[..k])
      && (k == |keys| ==> r == Pass)
      && (k < |keys| ==> r == Fail(keys[k]))
  {
    var fileType := FileType;
    var originKey := ImageKey(fileType + "/" + hash + ext);
    ghost var sizeKeys := SizeDeleteKeys(hash, ext, sizes);
    var ok := store.Remove(originKey);
    if !ok {
      return Fail(originKey);
    }
    RemovedAppend(old(store.objects), [], originKey);
    if fileType != "thumbnail" {
      r := DeleteSizes(sizes, hash, ext, store);
      DeleteThenDelete(old(store.objects), originKey, sizeKeys, store.refused);
    }
  }
}

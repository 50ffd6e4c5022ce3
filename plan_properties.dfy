/**
 * What the image plan contains, stated independently of how `SizeStep`
 * builds it: the codec-independent variant list (which artifacts, in which
 * order, under which paths and content types) and, for `formats`, which size
 * supplies each record.
 */
module PlanProperties {
  import opened Wrappers
  import opened Naming
  import opened Planner

  /** One artifact the planner schedules. */
  datatype Variant =
    | OriginVariant
    | PrimaryVariant(size: SizeSpec)
    | ExtraVariant(size: SizeSpec, format: ExtraFormat)

  /** The variants of one size, in upload order: primary, then webp, then avif. */
  function SizeVariants(s: SizeSpec, ext: string): seq<Variant> {
    [PrimaryVariant(s)]
      + (if Wanted(s, ExtraWebp, ext) then [ExtraVariant(s, ExtraWebp)] else [])
      + (if Wanted(s, ExtraAvif, ext) then [ExtraVariant(s, ExtraAvif)] else [])
  }

  /** All variants of an image: the origin, then each size's variants in configuration order. */
  function Variants(sizes: seq<SizeSpec>, ext: string): (r: seq<Variant>)
    ensures |r| >= 1 && r[0] == OriginVariant
    decreases |sizes|
  {
    if sizes == [] then [OriginVariant]
    else Variants(sizes[..|sizes| - 1], ext) + SizeVariants(sizes[|sizes| - 1], ext)
  }

  function VariantPath(v: Variant, hash: string, ext: string): string {
    match v
    case OriginVariant => OriginPath(hash, ext)
    case PrimaryVariant(s) => SizePath(s.name, hash, ext)
    case ExtraVariant(s, x) => SizePath(s.name, hash, x.Ext())
  }

  function VariantMime(v: Variant, mime: string): string {
    match v
    case ExtraVariant(_, x) => x.Mime()
    case _ => mime
  }

  /** The bytes stored for a variant: the upload itself for the origin, one codec call otherwise. */
  function VariantBytes(v: Variant, f: FileInfo, codec: Codec): Result<Bytes, UploadError> {
    match v
    case OriginVariant => Success(f.buffer)
    case PrimaryVariant(s) => Primary(f, s, codec)
    case ExtraVariant(s, x) => Encoded(f, s, x.Encoding(), codec)
  }

  predicate JobMatches(job: WriteJob, v: Variant, f: FileInfo, codec: Codec) {
    && job.path == VariantPath(v, f.hash, ExtText(f.ext))
    && job.mime == VariantMime(v, f.mime)
    && VariantBytes(v, f, codec) == Success(job.buffer)
  }

  predicate JobsMatch(jobs: seq<WriteJob>, vs: seq<Variant>, f: FileInfo, codec: Codec) {
    |jobs| == |vs| && forall i :: 0 <= i < |jobs| ==> JobMatches(jobs[i], vs[i], f, codec)
  }

  /** Number of artifacts one size contributes. */
  function VariantCount(s: SizeSpec, ext: string): nat {
    1 + (if Wanted(s, ExtraWebp, ext) then 1 else 0) + (if Wanted(s, ExtraAvif, ext) then 1 else 0)
  }

  function TotalCount(sizes: seq<SizeSpec>, ext: string): nat
    decreases |sizes|
  {
    if sizes == [] then 0
    else TotalCount(sizes[..|sizes| - 1], ext) + VariantCount(sizes[|sizes| - 1], ext)
  }

  /** An image has 1 + the sum over sizes of (1 + [webp] + [avif]) artifacts. */
  lemma {:induction false} VariantsCount(sizes: seq<SizeSpec>, ext: string)
    ensures |Variants(sizes, ext)| == 1 + TotalCount(sizes, ext)
    decreases |sizes|
  {
    if sizes != [] {
      VariantsCount(sizes[..|sizes| - 1], ext);
    }
  }

  lemma JobsMatchAppend(a: seq<WriteJob>, va: seq<Variant>, b: seq<WriteJob>, vb: seq<Variant>, f: FileInfo, codec: Codec)
    requires JobsMatch(a, va, f, codec) && JobsMatch(b, vb, f, codec)
    ensures JobsMatch(a + b, va + vb, f, codec)
  {
    forall i | 0 <= i < |a + b|
      ensures JobMatches((a + b)[i], (va + vb)[i], f, codec)
    {
      if i < |a| {
        assert (a + b)[i] == a[i] && (va + vb)[i] == va[i];
      } else {
        assert (a + b)[i] == b[i - |a|] && (va + vb)[i] == vb[i - |a|];
      }
    }
  }

  lemma JobsMatchSnoc(jobs: seq<WriteJob>, vs: seq<Variant>, job: WriteJob, v: Variant, f: FileInfo, codec: Codec)
    requires JobsMatch(jobs, vs, f, codec) && JobMatches(job, v, f, codec)
    ensures JobsMatch(jobs + [job], vs + [v], f, codec)
  {
    JobsMatchAppend(jobs, vs, [job], [v], f, codec);
  }

  /** An extra-format step appends one job, the one of that extra variant. */
  lemma ExtraStepJob(p: Plan, f: FileInfo, base: string, codec: Codec, s: SizeSpec, x: ExtraFormat, primarySize: nat, q: Plan)
    requires ExtraStep(p, f, base, codec, s, x, primarySize) == Success(q)
    ensures |q.jobs| == |p.jobs| + 1 && q.jobs[..|p.jobs|] == p.jobs
    ensures JobMatches(q.jobs[|p.jobs|], ExtraVariant(s, x), f, codec)
  {
    assert q.jobs[..|p.jobs|] == p.jobs;
  }

  /** One loop iteration appends exactly the jobs of that size's variants. */
  lemma SizeStepJobs(p0: Plan, f: FileInfo, base: string, codec: Codec, s: SizeSpec, p: Plan)
    requires SizeStep(p0, f, base, codec, s) == Success(p)
    ensures |p0.jobs| <= |p.jobs| && p.jobs[..|p0.jobs|] == p0.jobs
    ensures JobsMatch(p.jobs[|p0.jobs|..], SizeVariants(s, ExtText(f.ext)), f, codec)
  {
    SizeStepUnfold(p0, f, base, codec, s, p);
    SpelledStepJobs(p0, f, base, codec, s, p);
  }

  /** `SizeStepJobs` over the spelled-out iteration of `SizeStepUnfold`. */
  lemma SpelledStepJobs(p0: Plan, f: FileInfo, base: string, codec: Codec, s: SizeSpec, p: Plan)
    requires Primary(f, s, codec).Success?
    requires var ext := ExtText(f.ext);
      var size := |Primary(f, s, codec).value|;
      var p1 := Plan(
        p0.jobs + [WriteJob(Primary(f, s, codec).value, SizePath(s.name, f.hash, ext), f.mime)],
        AddRecord(p0.formats, s.name, "origin", SizeRecord(f, base, s, ext, size)));
      var p2 := if Wanted(s, ExtraWebp, ext) then ExtraStep(p1, f, base, codec, s, ExtraWebp, size) else Success(p1);
      && p2.Success?
      && Success(p) == if Wanted(s, ExtraAvif, ext) then ExtraStep(p2.value, f, base, codec, s, ExtraAvif, size) else p2
    ensures |p0.jobs| <= |p.jobs| && p.jobs[..|p0.jobs|] == p0.jobs
    ensures JobsMatch(p.jobs[|p0.jobs|..], SizeVariants(s, ExtText(f.ext)), f, codec)
  {
    var ext := ExtText(f.ext);
    var n := |p0.jobs|;
    var size := |Primary(f, s, codec).value|;
    var p1 := Plan(
      p0.jobs + [WriteJob(Primary(f, s, codec).value, SizePath(s.name, f.hash, ext), f.mime)],
      AddRecord(p0.formats, s.name, "origin", SizeRecord(f, base, s, ext, size)));
    assert p1.jobs[n..] == [p1.jobs[n]];
    assert p1.jobs[..n] == p0.jobs;
    var p2 := if Wanted(s, ExtraWebp, ext) then ExtraStep(p1, f, base, codec, s, ExtraWebp, size) else Success(p1);
    ExtraStage(p0.jobs, p1, p2, f, base, codec, s, ExtraWebp, size, [PrimaryVariant(s)]);
    var vw := if Wanted(s, ExtraWebp, ext) then [ExtraVariant(s, ExtraWebp)] else [];
    ExtraStage(p0.jobs, p2.value, Success(p), f, base, codec, s, ExtraAvif, size, [PrimaryVariant(s)] + vw);
  }

  /**
   * The optional extra-format step of one size keeps the jobs before it and
   * appends the job of that extra variant exactly when it is wanted.
   */
  lemma ExtraStage(prefix: seq<WriteJob>, pa: Plan, pb: Result<Plan, UploadError>, f: FileInfo, base: string,
                   codec: Codec, s: SizeSpec, x: ExtraFormat, size: nat, vs: seq<Variant>)
    requires |prefix| <= |pa.jobs| && pa.jobs[..|prefix|] == prefix
    requires JobsMatch(pa.jobs[|prefix|..], vs, f, codec)
    requires pb.Success?
    requires pb == if Wanted(s, x, ExtText(f.ext)) then ExtraStep(pa, f, base, codec, s, x, size) else Success(pa)
    ensures |prefix| <= |pb.value.jobs| && pb.value.jobs[..|prefix|] == prefix
    ensures JobsMatch(pb.value.jobs[|prefix|..], vs + (if Wanted(s, x, ExtText(f.ext)) then [ExtraVariant(s, x)] else []), f, codec)
  {
    var n := |prefix|;
    if Wanted(s, x, ExtText(f.ext)) {
      var q := pb.value;
      ExtraStepJob(pa, f, base, codec, s, x, size, q);
      JobsMatchSnoc(pa.jobs[n..], vs, q.jobs[|pa.jobs|], ExtraVariant(s, x), f, codec);
      assert q.jobs[n..] == pa.jobs[n..] + [q.jobs[|pa.jobs|]];
      assert q.jobs[..n] == q.jobs[..|pa.jobs|][..n];
    } else {
      assert vs + [] == vs;
    }
  }

  /**
   * A successful plan holds exactly one write job per planned variant, in the
   * same order, with the variant's path, content type and bytes.
   */
  lemma {:induction false} PlanFollowsVariants(f: FileInfo, base: string, codec: Codec, sizes: seq<SizeSpec>, p: Plan)
    requires PlanSizes(f, base, codec, sizes) == Success(p)
    ensures JobsMatch(p.jobs, Variants(sizes, ExtText(f.ext)), f, codec)
    decreases |sizes|
  {
    if sizes != [] {
      var init := sizes[..|sizes| - 1];
      var p0 := PlanSizes(f, base, codec, init).value;
      PlanFollowsVariants(f, base, codec, init, p0);
      SizeStepJobs(p0, f, base, codec, sizes[|sizes| - 1], p);
      JobsMatchAppend(p0.jobs, Variants(init, ExtText(f.ext)), p.jobs[|p0.jobs|..], SizeVariants(sizes[|sizes| - 1], ExtText(f.ext)), f, codec);
      assert p.jobs == p0.jobs + p.jobs[|p0.jobs|..];
    }
  }

  /**
   * The write-job list of a successful plan: the unmodified upload under
   * `origin/`, then one job per variant, 1 + sum of (1 + [webp] + [avif])
   * jobs in all.
   */
  lemma PlanJobs(f: FileInfo, base: string, codec: Codec, sizes: seq<SizeSpec>, p: Plan)
    requires PlanSizes(f, base, codec, sizes) == Success(p)
    ensures |p.jobs| == 1 + TotalCount(sizes, ExtText(f.ext))
    ensures p.jobs[0] == WriteJob(f.buffer, OriginPath(f.hash, ExtText(f.ext)), f.mime)
  {
    PlanFollowsVariants(f, base, codec, sizes, p);
    VariantsCount(sizes, ExtText(f.ext));
  }

  // ---------------------------------------------------------------- formats

  /** Size `s` writes the record named `k` (origin always; webp and avif when wanted). */
  predicate Sets(s: SizeSpec, k: string, ext: string) {
    || k == "origin"
    || (k == "webp" && Wanted(s, ExtraWebp, ext))
    || (k == "avif" && Wanted(s, ExtraAvif, ext))
  }

  /** The extension a record named `k` describes. */
  function KeyExt(k: string, ext: string): string {
    if k == "webp" then ".webp" else if k == "avif" then ".avif" else ext
  }

  /** The first size, in configuration order, named `n` that writes record `k`. */
  function FirstSetter(sizes: seq<SizeSpec>, n: string, k: string, ext: string): (r: Option<nat>)
    ensures r.Some? ==>
      && r.value < |sizes|
      && sizes[r.value].name == n && Sets(sizes[r.value], k, ext)
      && forall j :: 0 <= j < r.value ==> !(sizes[j].name == n && Sets(sizes[j], k, ext))
    ensures r.None? ==> forall j :: 0 <= j < |sizes| ==> !(sizes[j].name == n && Sets(sizes[j], k, ext))
    decreases |sizes|
  {
    if sizes == [] then None
    else
      var r := FirstSetter(sizes[..|sizes| - 1], n, k, ext);
      if r.Some? then r
      else if sizes[|sizes| - 1].name == n && Sets(sizes[|sizes| - 1], k, ext) then Some(|sizes| - 1)
      else None
  }

  /** `formats[n] || {}` */
  function Entry(fm: Formats, n: string): map<string, Artifact> {
    if n in fm then fm[n] else map[]
  }

  /** The records size `s` writes, keyed by record name. */
  function SizeRecords(f: FileInfo, base: string, codec: Codec, s: SizeSpec): map<string, Artifact> {
    var ext := ExtText(f.ext);
    map k | k in {"origin", "webp", "avif"} && Sets(s, k, ext) ::
      SizeRecord(f, base, s, KeyExt(k, ext), PrimarySize(f, s, codec))
  }

  lemma AddRecordMerge(fm0: Formats, n: string, m: map<string, Artifact>, k: string, a: Artifact)
    ensures AddRecord(fm0[n := m + Entry(fm0, n)], n, k, a) == fm0[n := (map[k := a] + m) + Entry(fm0, n)]
  {
    var e := Entry(fm0, n);
    assert map[k := a] + (m + e) == (map[k := a] + m) + e;
  }

  lemma ExtraStepFormats(p: Plan, f: FileInfo, base: string, codec: Codec, s: SizeSpec, x: ExtraFormat, primarySize: nat, q: Plan)
    requires ExtraStep(p, f, base, codec, s, x, primarySize) == Success(q)
    ensures q.formats == AddRecord(p.formats, s.name, x.Key(), SizeRecord(f, base, s, x.Ext(), primarySize))
  {
  }

  /** `SizeStep` spelled out: the primary variant, then the optional webp and avif steps. */
  lemma SizeStepUnfold(p0: Plan, f: FileInfo, base: string, codec: Codec, s: SizeSpec, p: Plan)
    requires SizeStep(p0, f, base, codec, s) == Success(p)
    ensures Primary(f, s, codec).Success?
    ensures var ext := ExtText(f.ext);
      var size := |Primary(f, s, codec).value|;
      var p1 := Plan(
        p0.jobs + [WriteJob(Primary(f, s, codec).value, SizePath(s.name, f.hash, ext), f.mime)],
        AddRecord(p0.formats, s.name, "origin", SizeRecord(f, base, s, ext, size)));
      var p2 := if Wanted(s, ExtraWebp, ext) then ExtraStep(p1, f, base, codec, s, ExtraWebp, size) else Success(p1);
      && p2.Success?
      && Success(p) == if Wanted(s, ExtraAvif, ext) then ExtraStep(p2.value, f, base, codec, s, ExtraAvif, size) else p2
  {
  }

  lemma SizeRecordsSpelled(f: FileInfo, base: string, codec: Codec, s: SizeSpec, size: nat)
    requires PrimarySize(f, s, codec) == size
    ensures var ext := ExtText(f.ext);
      var m1 := map["origin" := SizeRecord(f, base, s, ext, size)];
      var m2 := if Wanted(s, ExtraWebp, ext) then map["webp" := SizeRecord(f, base, s, ".webp", size)] + m1 else m1;
      var m3 := if Wanted(s, ExtraAvif, ext) then map["avif" := SizeRecord(f, base, s, ".avif", size)] + m2 else m2;
      m3 == SizeRecords(f, base, codec, s)
  {
  }

  /**
   * One loop iteration merges the records of one size under its name, an
   * existing record winning over a new one.
   */
  lemma SizeStepFormats(p0: Plan, f: FileInfo, base: string, codec: Codec, s: SizeSpec, p: Plan)
    requires SizeStep(p0, f, base, codec, s) == Success(p)
    ensures Primary(f, s, codec).Success?
    ensures p.formats == p0.formats[s.name := SizeRecords(f, base, codec, s) + Entry(p0.formats, s.name)]
  {
    SizeStepUnfold(p0, f, base, codec, s, p);
    var ext := ExtText(f.ext);
    var n := s.name;
    var e := Entry(p0.formats, n);
    var primary := Primary(f, s, codec).value;
    var size := |primary|;
    SizeRecordsSpelled(f, base, codec, s, size);
    var p1 := Plan(
      p0.jobs + [WriteJob(primary, SizePath(n, f.hash, ext), f.mime)],
      AddRecord(p0.formats, n, "origin", SizeRecord(f, base, s, ext, size)));
    var p2 := if Wanted(s, ExtraWebp, ext) then ExtraStep(p1, f, base, codec, s, ExtraWebp, size).value else p1;
    var m1 := map["origin" := SizeRecord(f, base, s, ext, size)];
    assert p1.formats == p0.formats[n := m1 + e];
    var m2 := if Wanted(s, ExtraWebp, ext) then map["webp" := SizeRecord(f, base, s, ".webp", size)] + m1 else m1;
    if Wanted(s, ExtraWebp, ext) {
      ExtraStepFormats(p1, f, base, codec, s, ExtraWebp, size, p2);
      AddRecordMerge(p0.formats, n, m1, "webp", SizeRecord(f, base, s, ".webp", size));
    }
    assert p2.formats == p0.formats[n := m2 + e];
    if Wanted(s, ExtraAvif, ext) {
      ExtraStepFormats(p2, f, base, codec, s, ExtraAvif, size, p);
      AddRecordMerge(p0.formats, n, m2, "avif", SizeRecord(f, base, s, ".avif", size));
    }
  }

  /** Every entry of `fm` has an `origin` record. */
  ghost predicate OriginEverywhere(fm: Formats) {
    forall n :: n in fm ==> "origin" in fm[n]
  }

  /** Every record of `fm` was written by some size of that name. */
  ghost predicate OnlySetRecords(fm: Formats, sizes: seq<SizeSpec>, ext: string) {
    forall n, k :: n in fm && k in fm[n] ==> FirstSetter(sizes, n, k, ext).Some?
  }

  /** Every record some size writes is in `fm`, as the first such size wrote it. */
  ghost predicate FirstRecordsKept(fm: Formats, f: FileInfo, base: string, codec: Codec, sizes: seq<SizeSpec>) {
    var ext := ExtText(f.ext);
    forall n, k :: FirstSetter(sizes, n, k, ext).Some? ==>
      var i := FirstSetter(sizes, n, k, ext).value;
      && n in fm && k in fm[n]
      && fm[n][k] == SizeRecord(f, base, sizes[i], KeyExt(k, ext), PrimarySize(f, sizes[i], codec))
  }

  /**
   * `fm` is the `formats` map after `sizes`: every entry has an `origin`
   * record, and record `k` of entry `n` exists exactly when some size named
   * `n` writes `k`, holding what the first such size wrote.
   */
  ghost predicate FormatsFollow(fm: Formats, f: FileInfo, base: string, codec: Codec, sizes: seq<SizeSpec>) {
    && OriginEverywhere(fm)
    && OnlySetRecords(fm, sizes, ExtText(f.ext))
    && FirstRecordsKept(fm, f, base, codec, sizes)
  }

  lemma OriginEverywhereStep(fm0: Formats, f: FileInfo, base: string, codec: Codec, s: SizeSpec)
    requires OriginEverywhere(fm0)
    ensures OriginEverywhere(fm0[s.name := SizeRecords(f, base, codec, s) + Entry(fm0, s.name)])
  {
    assert "origin" in SizeRecords(f, base, codec, s);
  }

  lemma OnlySetRecordsStep(fm0: Formats, f: FileInfo, base: string, codec: Codec, sizes: seq<SizeSpec>)
    requires sizes != [] && OnlySetRecords(fm0, sizes[..|sizes| - 1], ExtText(f.ext))
    ensures var s := sizes[|sizes| - 1];
      OnlySetRecords(fm0[s.name := SizeRecords(f, base, codec, s) + Entry(fm0, s.name)], sizes, ExtText(f.ext))
  {
    var ext := ExtText(f.ext);
    var s := sizes[|sizes| - 1];
    var e := Entry(fm0, s.name);
    var fm := fm0[s.name := SizeRecords(f, base, codec, s) + e];
    forall n, k | n in fm && k in fm[n]
      ensures FirstSetter(sizes, n, k, ext).Some?
    {
      if n == s.name && k !in e {
        assert Sets(s, k, ext);
      }
    }
  }

  lemma FirstRecordsKeptStep(fm0: Formats, f: FileInfo, base: string, codec: Codec, sizes: seq<SizeSpec>)
    requires sizes != [] && FirstRecordsKept(fm0, f, base, codec, sizes[..|sizes| - 1])
    requires OnlySetRecords(fm0, sizes[..|sizes| - 1], ExtText(f.ext))
    ensures var s := sizes[|sizes| - 1];
      FirstRecordsKept(fm0[s.name := SizeRecords(f, base, codec, s) + Entry(fm0, s.name)], f, base, codec, sizes)
  {
    var ext := ExtText(f.ext);
    var init := sizes[..|sizes| - 1];
    var s := sizes[|sizes| - 1];
    var e := Entry(fm0, s.name);
    var fm := fm0[s.name := SizeRecords(f, base, codec, s) + e];
    forall n, k | FirstSetter(sizes, n, k, ext).Some?
      ensures var i := FirstSetter(sizes, n, k, ext).value;
        && n in fm && k in fm[n]
        && fm[n][k] == SizeRecord(f, base, sizes[i], KeyExt(k, ext), PrimarySize(f, sizes[i], codec))
    {
      var r0 := FirstSetter(init, n, k, ext);
      if r0.Some? {
        assert init[r0.value] == sizes[r0.value];
      } else {
        assert n == s.name && Sets(s, k, ext);
        assert k !in e;
      }
    }
  }

  lemma FormatsFollowStep(fm0: Formats, f: FileInfo, base: string, codec: Codec, sizes: seq<SizeSpec>)
    requires sizes != [] && FormatsFollow(fm0, f, base, codec, sizes[..|sizes| - 1])
    ensures var s := sizes[|sizes| - 1];
      FormatsFollow(fm0[s.name := SizeRecords(f, base, codec, s) + Entry(fm0, s.name)], f, base, codec, sizes)
  {
    OriginEverywhereStep(fm0, f, base, codec, sizes[|sizes| - 1]);
    OnlySetRecordsStep(fm0, f, base, codec, sizes);
    FirstRecordsKeptStep(fm0, f, base, codec, sizes);
  }

  /**
   * The `formats` map of a successful plan: every entry has an `origin`
   * record; record `k` of entry `n` exists exactly when some size named `n`
   * writes `k`; and it is the one the FIRST such size wrote, because the
   * spread keeps an existing record over a new one.
   */
  lemma {:induction false} PlanFormats(f: FileInfo, base: string, codec: Codec, sizes: seq<SizeSpec>, p: Plan)
    requires PlanSizes(f, base, codec, sizes) == Success(p)
    ensures FormatsFollow(p.formats, f, base, codec, sizes)
    decreases |sizes|
  {
    if sizes != [] {
      var init := sizes[..|sizes| - 1];
      var p0 := PlanSizes(f, base, codec, init).value;
      PlanFormats(f, base, codec, init, p0);
      SizeStepFormats(p0, f, base, codec, sizes[|sizes| - 1], p);
      FormatsFollowStep(p0.formats, f, base, codec, sizes);
    }
  }

  /**
   * The entries of `formats`: one per configured size name, each with an
   * `origin` record, a `webp` (an `avif`) record exactly when some size of
   * that name generates webp (avif), and every record, whatever its format,
   * pointing at the primary variant's path.
   */
  lemma PlanFormatEntries(f: FileInfo, base: string, codec: Codec, sizes: seq<SizeSpec>, p: Plan)
    requires PlanSizes(f, base, codec, sizes) == Success(p)
    ensures forall n :: n in p.formats <==> exists i :: 0 <= i < |sizes| && sizes[i].name == n
    ensures forall n :: n in p.formats ==> "origin" in p.formats[n]
    ensures forall n, x: ExtraFormat :: n in p.formats ==>
      (x.Key() in p.formats[n] <==> exists i :: 0 <= i < |sizes| && sizes[i].name == n && Wanted(sizes[i], x, ExtText(f.ext)))
    ensures forall n, k :: n in p.formats && k in p.formats[n] ==>
      && (k == "origin" || k == "webp" || k == "avif")
      && p.formats[n][k].ext == KeyExt(k, ExtText(f.ext))
      && p.formats[n][k].url == base + "/images/" + SizePath(n, f.hash, KeyExt(k, ExtText(f.ext)))
      && p.formats[n][k].path == SizePath(n, f.hash, ExtText(f.ext))
  {
    PlanFormats(f, base, codec, sizes, p);
    FollowNames(p.formats, f, base, codec, sizes);
    FollowExtras(p.formats, f, base, codec, sizes);
    FollowRecords(p.formats, f, base, codec, sizes);
  }

  lemma FollowNames(fm: Formats, f: FileInfo, base: string, codec: Codec, sizes: seq<SizeSpec>)
    requires FormatsFollow(fm, f, base, codec, sizes)
    ensures forall n :: n in fm <==> exists i :: 0 <= i < |sizes| && sizes[i].name == n
  {
    var ext := ExtText(f.ext);
    forall n | exists i :: 0 <= i < |sizes| && sizes[i].name == n
      ensures n in fm
    {
      var i :| 0 <= i < |sizes| && sizes[i].name == n;
      assert Sets(sizes[i], "origin", ext);
      assert FirstSetter(sizes, n, "origin", ext).Some?;
    }
    forall n | n in fm
      ensures exists i :: 0 <= i < |sizes| && sizes[i].name == n
    {
      assert FirstSetter(sizes, n, "origin", ext).Some?;
    }
  }

  lemma FollowExtras(fm: Formats, f: FileInfo, base: string, codec: Codec, sizes: seq<SizeSpec>)
    requires FormatsFollow(fm, f, base, codec, sizes)
    ensures forall n, x: ExtraFormat :: n in fm ==>
      (x.Key() in fm[n] <==> exists i :: 0 <= i < |sizes| && sizes[i].name == n && Wanted(sizes[i], x, ExtText(f.ext)))
  {
    var ext := ExtText(f.ext);
    assert SetRecordsPresent(fm, sizes, ext);
    FollowExtra(fm, sizes, ext, ExtraWebp);
    FollowExtra(fm, sizes, ext, ExtraAvif);
    forall n, x: ExtraFormat | n in fm
      ensures x.Key() in fm[n] <==> exists i :: 0 <= i < |sizes| && sizes[i].name == n && Wanted(sizes[i], x, ext)
    {
      if x == ExtraWebp {
      } else {
      }
    }
  }

  /** Every record some size of that name writes is present in `fm`. */
  ghost predicate SetRecordsPresent(fm: Formats, sizes: seq<SizeSpec>, ext: string) {
    forall n, k :: FirstSetter(sizes, n, k, ext).Some? ==> n in fm && k in fm[n]
  }

  lemma FollowExtra(fm: Formats, sizes: seq<SizeSpec>, ext: string, x: ExtraFormat)
    requires OnlySetRecords(fm, sizes, ext) && SetRecordsPresent(fm, sizes, ext)
    ensures forall n :: n in fm ==>
      (x.Key() in fm[n] <==> exists i :: 0 <= i < |sizes| && sizes[i].name == n && Wanted(sizes[i], x, ext))
  {
    forall n | n in fm
      ensures x.Key() in fm[n] <==> exists i :: 0 <= i < |sizes| && sizes[i].name == n && Wanted(sizes[i], x, ext)
    {
      var r := FirstSetter(sizes, n, x.Key(), ext);
      if exists i :: 0 <= i < |sizes| && sizes[i].name == n && Wanted(sizes[i], x, ext) {
        var i :| 0 <= i < |sizes| && sizes[i].name == n && Wanted(sizes[i], x, ext);
        assert Sets(sizes[i], x.Key(), ext);
      }
      if x.Key() in fm[n] {
        assert r.Some? && Sets(sizes[r.value], x.Key(), ext);
      }
    }
  }

  lemma FollowRecords(fm: Formats, f: FileInfo, base: string, codec: Codec, sizes: seq<SizeSpec>)
    requires FormatsFollow(fm, f, base, codec, sizes)
    ensures forall n, k :: n in fm && k in fm[n] ==>
      && (k == "origin" || k == "webp" || k == "avif")
      && fm[n][k].ext == KeyExt(k, ExtText(f.ext))
      && fm[n][k].url == base + "/images/" + SizePath(n, f.hash, KeyExt(k, ExtText(f.ext)))
      && fm[n][k].path == SizePath(n, f.hash, ExtText(f.ext))
  {
  }

  /**
   * When two sizes share a name, the entry is the earlier one's: the record
   * named `k` comes from the first size of that name that writes `k`, and in
   * particular the `origin` record from the first size of that name.
   */
  lemma EarlierSizeWins(f: FileInfo, base: string, codec: Codec, sizes: seq<SizeSpec>, p: Plan, i: nat, j: nat)
    requires PlanSizes(f, base, codec, sizes) == Success(p)
    requires i < j < |sizes| && sizes[i].name == sizes[j].name
    requires forall h :: 0 <= h < i ==> sizes[h].name != sizes[i].name
    ensures sizes[j].name in p.formats && "origin" in p.formats[sizes[j].name]
    ensures p.formats[sizes[j].name]["origin"]
      == SizeRecord(f, base, sizes[i], ExtText(f.ext), PrimarySize(f, sizes[i], codec))
  {
    PlanFormats(f, base, codec, sizes, p);
    FollowFirstOrigin(p.formats, f, base, codec, sizes, i);
  }

  lemma FollowFirstOrigin(fm: Formats, f: FileInfo, base: string, codec: Codec, sizes: seq<SizeSpec>, i: nat)
    requires FormatsFollow(fm, f, base, codec, sizes)
    requires i < |sizes| && forall h :: 0 <= h < i ==> sizes[h].name != sizes[i].name
    ensures sizes[i].name in fm && "origin" in fm[sizes[i].name]
    ensures fm[sizes[i].name]["origin"] == SizeRecord(f, base, sizes[i], ExtText(f.ext), PrimarySize(f, sizes[i], codec))
  {
    var r := FirstSetter(sizes, sizes[i].name, "origin", ExtText(f.ext));
    assert Sets(sizes[i], "origin", ExtText(f.ext));
    assert r.Some? && r.value == i;
  }

  lemma UniqueSizeSetter(sizes: seq<SizeSpec>, i: nat, k: string, ext: string)
    requires i < |sizes| && forall j :: 0 <= j < |sizes| && j != i ==> sizes[j].name != sizes[i].name
    ensures FirstSetter(sizes, sizes[i].name, k, ext) == if Sets(sizes[i], k, ext) then Some(i) else None
  {
  }

  /**
   * A size whose name no other size shares gets exactly the records it
   * writes: its own primary size, width and height on each of them.
   */
  lemma UniqueSizeEntry(f: FileInfo, base: string, codec: Codec, sizes: seq<SizeSpec>, p: Plan, i: nat)
    requires PlanSizes(f, base, codec, sizes) == Success(p)
    requires i < |sizes| && forall j :: 0 <= j < |sizes| && j != i ==> sizes[j].name != sizes[i].name
    ensures sizes[i].name in p.formats && p.formats[sizes[i].name] == SizeRecords(f, base, codec, sizes[i])
  {
    PlanFormats(f, base, codec, sizes, p);
    FollowUniqueEntry(p.formats, f, base, codec, sizes, i);
  }

  lemma FollowUniqueEntry(fm: Formats, f: FileInfo, base: string, codec: Codec, sizes: seq<SizeSpec>, i: nat)
    requires OnlySetRecords(fm, sizes, ExtText(f.ext)) && FirstRecordsKept(fm, f, base, codec, sizes)
    requires i < |sizes| && forall j :: 0 <= j < |sizes| && j != i ==> sizes[j].name != sizes[i].name
    ensures sizes[i].name in fm && fm[sizes[i].name] == SizeRecords(f, base, codec, sizes[i])
  {
    var n := sizes[i].name;
    var m := SizeRecords(f, base, codec, sizes[i]);
    FollowUniqueRecord(fm, f, base, codec, sizes, i, "origin");
    forall k
      ensures (k in fm[n] <==> k in m) && (k in m ==> fm[n][k] == m[k])
    {
      FollowUniqueRecord(fm, f, base, codec, sizes, i, k);
    }
    SameMap(fm[n], m);
  }

  lemma SameMap(a: map<string, Artifact>, b: map<string, Artifact>)
    requires forall k :: (k in a <==> k in b) && (k in b ==> a[k] == b[k])
    ensures a == b
  {
  }

  lemma FollowUniqueRecord(fm: Formats, f: FileInfo, base: string, codec: Codec, sizes: seq<SizeSpec>, i: nat, k: string)
    requires OnlySetRecords(fm, sizes, ExtText(f.ext)) && FirstRecordsKept(fm, f, base, codec, sizes)
    requires i < |sizes| && forall j :: 0 <= j < |sizes| && j != i ==> sizes[j].name != sizes[i].name
    ensures sizes[i].name in fm
    ensures k in fm[sizes[i].name] <==> k in SizeRecords(f, base, codec, sizes[i])
    ensures k in fm[sizes[i].name] ==> fm[sizes[i].name][k] == SizeRecords(f, base, codec, sizes[i])[k]
  {
    var ext := ExtText(f.ext);
    UniqueSizeSetter(sizes, i, "origin", ext);
    UniqueSizeSetter(sizes, i, k, ext);
  }
}

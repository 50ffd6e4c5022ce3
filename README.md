# Verified model of an S3 upload provider with image variants

The provider stores uploaded files in an S3 bucket (`lib/index.js`). `init`
returns two operations:

- `upload(file, customParams)` classifies the file by extension.
  - An image (`.jpg`, `.jpeg`, `.png`, `.webp`, `.tiff`, in any case) is stored under `images/origin/`.
  - Then, for every configured size tier, it stores a resized copy in the source's encoding, plus an optional webp copy and an optional avif copy.
  - It fills `file.formats` with one metadata record per copy and sets `file.url` to the origin.
  - Any other file is stored once under `icons/` (for `.svg`) or `files/`.
  - Files whose hash starts with `thumbnail_` or `small_` are skipped.
- `delete(file, customParams)` rebuilds the keys from the hash, the extension and the size tiers, and deletes them one after another.

The model is split into these modules:

| module | file | role |
|---|---|---|
| `Wrappers` | `wrappers.dfy` | `Option`, `Result` and `Outcome`. |
| `Naming` | `naming.dfy` | `getFileFormat`, the public base URL and the key layout. |
| `Planner` | `planner.dfy` | The first loop of the image branch as the method `BuildJobs`, proved equal to the function `PlanSizes`. `PlanSizes` produces the ordered write jobs and the `formats` map. |
| `PlanProperties` | `plan_properties.dfy` | What the plan contains: the jobs, one per variant in order, and the shape of `formats`. |
| `ObjectStore` | `store.dfy` | The bucket as a class over a key-to-object map. A fixed set of keys whose writes or deletes it refuses stands for store failures. |
| `Provider` | `provider.dfy` | `upload` and `delete` as methods over a mutable `UploadedFile` and the bucket. Each is proved against a function of the inputs: `UploadEffect` or `DeleteKeys`. |
| `UploadProperties` | `upload_properties.dfy` | When `upload` skips, when it rejects, and which writes it issues. |
| `Symmetry` | `symmetry.dfy` | The keys `upload` writes compared with the keys `delete` removes. |

The image codec (Sharp) is a function-typed parameter. It decodes, resizes,
rotates upright and encodes in one call, and returns `None` when it throws.

The model follows the code as written, including these behaviours:

- **Primary encoder.** The resized primary copy is encoded only when the extension is exactly `.jpeg`, `.jpg`, `.png` or `.webp` (case-sensitive).
  - For every other image extension (`.tiff`, `.JPG`, …), `Buffer.byteLength` receives an unencoded pipeline and throws. An upload of such a file rejects with `NotABuffer` before any write, as soon as one size tier is configured.
  - `.tiff` is therefore never re-encoded.
- **webp and avif records.** They carry the primary copy's byte size and the primary copy's `path`. Their `url` and `ext` are their own.
- **Order of `formats` records.** Within `formats[size.name]`, a record already present wins over the one being added, because of the spread order. When two tiers share a name, the first tier's records stay.
- **`delete` and avif copies.** `delete` never removes avif copies. For a `.webp` source, it issues no primary keys. A tier's primary copy is then removed only when some tier of the same name asks for webp, because that tier's webp key is the same key, or when the tier is named `origin`, because its primary key is the origin key that `delete` removes first. `delete` has no hash-prefix check, and a missing extension renders as `undefined` in its key.
- **Store failures.** Each operation stops at the first store write or delete that fails; the rest are not attempted.
  - Deletion is not best-effort: each delete is awaited in turn, so the first refused delete rejects the call.
- **The `thumbnail` guard in `delete`.** It compares the constant `"origin"` with `"thumbnail"`, so it always holds. It is kept as written.

## Model

| member | source | states |
|---|---|---|
| Naming.ToLower | lib/index.js:18 | Lower-casing keeps the length and lower-cases each character independently (ASCII letters). |
| Naming.ToLowerMatchesLowerCase | lib/index.js:18-19 | Comparing the lower-cased extension with a lower-case literal is exactly a case-insensitive comparison, in both directions. |
| Naming.GetFileFormat | lib/index.js:17-23 | `Image` iff the extension equals one of the five image extensions ignoring case. `Icon` iff it equals `.svg` ignoring case. A missing extension gives `File`. |
| Planner.PlanFailurePropagates | lib/index.js:53-154 | Once the tiers processed so far have failed, processing further tiers returns that same failure. |
| Planner.BuildJobs | lib/index.js:43-154 | The loop over the size tiers returns exactly `PlanSizes`: the same jobs, the same `formats` map, or the same error. |
| PlanProperties.Variants | lib/index.js:44-51 | The variant list always starts with the origin. |
| PlanProperties.VariantsCount | lib/index.js:53-153 | The number of variants is one plus, per tier, one primary plus one per wanted extra format. |
| PlanProperties.PlanFollowsVariants | lib/index.js:44-153 | A successful plan has one job per variant, in variant order. Each job has the variant's path and mime type and holds the bytes the codec returns for that variant; the origin job holds the uploaded buffer. |
| PlanProperties.PlanJobs | lib/index.js:44-51 | A successful plan has one job more than the tiers' variant count (`VariantsCount`), and the first is the unmodified buffer under `origin/<hash><ext>` with the file's mime type. |
| PlanProperties.FirstSetter | lib/index.js:74-147 | Finds the first tier with a given name that writes a given record, or proves none does. |
| PlanProperties.SizeStepFormats | lib/index.js:74-147 | After one tier, that tier's records are merged under its name, and records already present win. |
| PlanProperties.PlanFormats | lib/index.js:53-154 | Every entry of `formats` holds, per record name, the record of the first tier of that name that writes it. |
| PlanProperties.PlanFormatEntries | lib/index.js:74-147 | See the detail below the table. |
| PlanProperties.EarlierSizeWins | lib/index.js:74-86 | When two tiers share a name, the `origin` record is the first tier's. |
| PlanProperties.UniqueSizeEntry | lib/index.js:74-147 | A tier whose name is unique gets exactly its own records. |
| ObjectStore.Bucket.Put | lib/index.js:25-27 | A write succeeds iff the bucket accepts the key, and then stores the object under it. |
| ObjectStore.Bucket.Remove | lib/index.js:29-31 | A delete succeeds iff the bucket accepts the key, and then removes it. |
| ObjectStore.FirstRefused | lib/index.js:156-165 | Index of the first refused key in a sequence: every earlier key is accepted, and the key at that index, if any, is refused. |
| ObjectStore.ApplyKeys | lib/index.js:156-165 | After a sequence of writes, the bucket holds its old keys plus every written key. |
| ObjectStore.ApplyLastWrite | lib/index.js:156-165 | A key holds the object of the last write to it. |
| Provider.WriteJobs | lib/index.js:156-165 | Writes run in order up to the first refused key. The bucket then equals the old one with exactly that prefix applied. The result names the refused key. |
| Provider.Upload | lib/index.js:34-183 | See the detail below the table. |
| Provider.UploadImage | lib/index.js:42-167 | The image branch: if the plan fails, it returns the plan's error and changes nothing. Otherwise its writes run up to the first refused key. On full success, `formats` is the plan's and `url` is the origin's. |
| Provider.CommitImage | lib/index.js:156-167 | Writes a plan's jobs in order up to the first refused key. `formats` and `url` are assigned only when every write succeeded; otherwise the file is untouched. |
| Provider.UploadOther | lib/index.js:168-179 | The non-image branch: one write of the buffer under `<format>s/<hash><ext>`. If the store accepts it, the url is the base plus that key; if not, the file is untouched. |
| Provider.DeleteSizes | lib/index.js:199-219 | Per tier, deletes the primary key unless the source is `.webp`, then the webp key if the tier asks for webp. Stops at the first refused key. |
| Provider.DeleteImage | lib/index.js:189-220 | The image branch: deletes the origin key, then the tier keys, stopping at the first refused key. The bucket loses exactly the accepted prefix. |
| Provider.Delete | lib/index.js:185-228 | The bucket loses exactly the prefix of `DeleteKeys` before the first refused key. The result names that key, or passes. |
| UploadProperties.SkipExactly | lib/index.js:35-41 | An upload does nothing iff the extension is missing or empty, or the hash starts with `thumbnail_` or `small_`. |
| UploadProperties.ImagePlanFailureRejects | lib/index.js:53-165 | A codec failure while planning rejects the whole upload with that error. |
| UploadProperties.UnencodablePrimaryRejects | lib/index.js:58-83 | An image extension without an exact-case primary encoder (`.tiff`, `.JPG`) rejects with `NotABuffer` whenever a tier is configured, whatever the codec. |
| UploadProperties.NoSizesOnlyOrigin | lib/index.js:44-167 | With no tiers, an image upload writes only the origin and sets `formats` to the empty map. |
| UploadProperties.ImageUploadWrites | lib/index.js:156-167 | See the detail below the table. |
| UploadProperties.NonImageUploadWrites | lib/index.js:168-179 | A non-image upload is one write of the buffer under `icons/` or `files/` plus `<hash><ext>`. The url is the base plus that key, and `formats` is untouched. |
| Symmetry.VariantKeySet | lib/index.js:44-153 | The keys of the variants are the origin key, the primary keys, the wanted webp keys and the wanted avif keys. |
| Symmetry.SizeDeleteKeySet | lib/index.js:199-219 | The keys of the tier loop of `delete` are the primary keys (unless the source is `.webp`) plus the webp key of every tier that asks for webp. |
| Symmetry.DeleteKeySet | lib/index.js:189-220 | An image delete removes the origin key plus the tier loop's keys. |
| Symmetry.ImageExtensionEnding | lib/index.js:19 | An image extension has at least four characters and its next-to-last is not `i`. |
| Symmetry.AvifKeyDistinct | lib/index.js:122-212 | An avif key never coincides with an origin, primary or webp key of an image. |
| Symmetry.DeleteLeavesAvif | lib/index.js:185-220 | Every key `delete` removes was written. What remains is every avif key plus, for a `.webp` source, the primary keys of tier names that no webp-asking tier shares, other than the origin key. |
| Symmetry.UploadedImageKeys | lib/index.js:44-165 | The keys of a planned image upload's writes are the origin key, the primary keys and the wanted webp and avif keys. |
| Symmetry.ImageUploadThenDelete | lib/index.js:156-220 | An image upload followed by its delete, with no store failure, leaves the other objects minus the deleted keys, plus the avif copies and, for `.webp`, the primary copies of tier names that no webp-asking tier shares, other than the origin. |
| Symmetry.NonImageUploadThenDelete | lib/index.js:168-226 | A non-image file is deleted under exactly the one key it was written to. |
| Symmetry.CommittedUrl | lib/index.js:166-179 | Whenever an upload commits, `file.url` is the base URL (the non-empty CDN, otherwise `https://<bucket>.s3.<region>.amazonaws.com`) plus `/` plus the key of its first write: the origin key for an image, the one key otherwise. |
| Symmetry.RecordUrls | lib/index.js:74-147 | Every record in a committed upload's `formats` has as `url` the base URL plus `/` plus the key of that tier's copy in the record's format, and that key is among the upload's writes. |
| Symmetry.DeleteWithoutExtension | lib/index.js:185-227 | A file without an extension is skipped by `upload`, yet `delete` issues `files/<hash>undefined`. |

Detail for the longer rows:

- **PlanProperties.PlanFormatEntries.** It states four things:
  - `formats` has one entry per configured tier name, and each entry has an `origin` record.
  - Each entry has a `webp` (or `avif`) record iff some tier of that name wants it.
  - Each record's `url` ends in its own extension.
  - Each record's `path` is the primary copy's path.
- **Provider.Upload.** It states four things:
  - A skip leaves the file and the bucket unchanged.
  - A rejected plan leaves both unchanged and returns the error.
  - Otherwise the writes of `UploadEffect` run up to the first refused key, and the bucket equals the old one with that prefix applied.
  - On full success, `url` (and, for images, `formats`) are assigned. On a refused write the result names the key and the file is untouched.
- **UploadProperties.ImageUploadWrites.** A planned image upload writes one object per variant, in variant order. Each object has:
  - the key `images/` plus the variant's path;
  - the codec's bytes for that variant;
  - the variant's mime type and `public-read`, each unless overridden.
  
  The url is the origin's, and `formats` is the plan's.

## Left out

- The S3 client construction is not modelled (lib/index.js:8-11). The bucket is the `ObjectStore.Bucket` map.
- A store failure is a fixed set of refused keys. Transient failures, and errors other than a refused key, are not modelled.
- The image codec is an uninterpreted function parameter. The optimize options live inside it. The model does not distinguish the primary pipeline (`resize`, `rotate`, encode) from the extra-format pipeline (`toFormat`, `resize`, `rotate`, encode) beyond the requested encoding.
- Logging (`strapi.log.info`) is not modelled.
- `async`/`await` is modelled as strictly sequential execution. Concurrent calls on the same file or bucket are not modelled.
- Planner.SizeRecord: records the byte count of the primary copy as a natural number, not `Buffer.byteLength / 1024` as a floating-point kilobyte value.
- Planner.Width: the `|| null` fallback is modelled for 0 and absent values. Non-integer and `NaN` widths are not modelled; the same holds for `Planner.Height`.
- `customParams` is reduced to its `ACL` and `ContentType` overrides. An override of `Key`, `Body` or other request fields is not modelled. In `delete`, `customParams` only travels to the store call, so it is ignored.
- Naming.ToLower: lower-cases ASCII letters only, not the full Unicode case mapping of `toLowerCase`.
- `file` itself being `undefined` in `upload`, and a non-string hash or extension, are not modelled.
- A tier named `__proto__` is not modelled. In the source, assigning `formats["__proto__"]` (lib/index.js:74, 104, 134) replaces the prototype of `formats` and adds no entry; `Planner.AddRecord` adds a real map entry for that name.
- The `isOrigin` flag on the first job (lib/index.js:49) is never read, so it is not modelled.
- UploadProperties.UnencodablePrimaryRejects: assumes the `resize` and `rotate` calls of lib/index.js:54-56 do not throw on their own. In the source they run for every extension before the encoder is chosen, so a resize option the resizer rejects would reject the upload with the resizer's error rather than `NotABuffer`. The same holds for `Planner.Primary`, where the codec's `None` covers resizer failures only for the four encodable extensions.

# Thumbnail formats, regeneration and closest-format selection

A Dafny model of the thumbnailing core of a chat server's file uploads. Every
uploaded image gets a fixed set of configured thumbnail formats: an extension,
maximum width and height, and an animated flag. The model covers:

- **Format values** (`thumbnail.dfy`, `decimal.dfy`). There are three format
  classes: a base format, a configured format with encoder options, and a stored
  rendering with its actual size, content type and byte size. Equality compares
  only the four identity fields. Each format has a stable name
  `{max_width}x{max_height}[-anim].{extension}`. The parser of that name returns
  nothing, rather than failing, on any string outside the grammar. Storage paths
  have the form `thumbnail/{path_id}/{name}`.
- **Missing thumbnails** (`thumbnail.dfy`). These are the configured formats an
  image still lacks, in configured order. An animated format applies only to an
  original with more than one frame.
- **Resizing, abstracted** (`resize.dfy`). A rendering fails with `BadImageError`
  on an undecodable original, on a pixel bomb (width × height × frames above the
  ceiling), or on an empty box. Otherwise it fits the box, keeps the aspect ratio
  and never scales up.
- **The thumbnailing worker** (`worker.dfy`). This is an `ImageAttachment` class
  whose `thumbnailMetadata` and `saved` fields change in place. The worker renders
  each missing format in a loop and appends one stored entry per success. At the
  first failure it deletes the attachment and returns the count so far.
- **Serving** (`upload.dfy`). A request for a configured format the image
  lacks first runs the worker, which renders every missing format. A requested
  format that was never rendered is served by `closest_thumbnail_format`. It prefers, in this order: the same
  animated flag, the same extension, a higher Accept weight for the content type,
  the rendered width closest to the requested maximum width, and the smaller file.
  Among full ties it keeps the first in stored order.
- **The cases of the test suite** (`scenarios.dfy`), stated about the model.

The only repository file whose text this model draws on is
`zerver/tests/test_thumbnail.py`. The source text of the three files that
implement the core is not part of this model:

- `zerver/lib/thumbnail.py` is not part of this model;
- `zerver/views/upload.py` is not part of this model;
- `zerver/worker/thumbnail.py` is not part of this model.

Their behaviour is still modelled: each operation follows what the tests
call and assert about it. The assertions fix, for example, that a still
original (frames = 1) drops animated formats while 10 frames keep them, and
that a failed rendering deletes the record.

Two details are modelling choices that the tests do not pin down:

- after a failed rendering, the worker returns the count rendered so far;
- the width distance of the closest-format order uses the rendered `width`.

## Model

| member | source | states |
|---|---|---|
| Thumbnail.SameFormatIffSameStr | zerver/tests/test_thumbnail.py:205-265 | two formats are equal on the identity fields exactly when their string forms are equal, whatever their class, options or rendered sizes |
| Thumbnail.SameFormat | zerver/tests/test_thumbnail.py:205-265 | two formats are equal exactly when their base formats (extension, maximum width and height, animated flag) are equal, whatever their classes and options |
| Thumbnail.Equals | zerver/tests/test_thumbnail.py:205-209 | a format is only ever equal to another format, and then exactly when the two are `SameFormat`, in either order |
| ThumbnailScenarios.ClassEquivalence | zerver/tests/test_thumbnail.py:205-265 | a format never equals its name as text; options do not matter; a base, a configured and a stored format with the same four fields are equal; a change in extension, width or animated flag makes them unequal |
| ThumbnailScenarios.NeverEqualToText | zerver/tests/test_thumbnail.py:206-209 | no format equals any string |
| Decimal.Digits | zerver/tests/test_thumbnail.py:267-277 | the numeral of a number is a non-empty digit string without a leading zero (unless the number is 0) |
| Decimal.ValueOfDigits | zerver/tests/test_thumbnail.py:279-292 | reading back the numeral of n gives n |
| Decimal.ValueOf | zerver/tests/test_thumbnail.py:279-292 | the value of an n-digit numeral is below 10 to the n |
| Decimal.DigitsOfValue | zerver/tests/test_thumbnail.py:279-292 | printing the value of a numeral without leading zeros gives the numeral back |
| Decimal.DigitRun | zerver/tests/test_thumbnail.py:286-294 | the leading digit run of a string is all digits and is followed by a non-digit or the end |
| Decimal.DigitRunOfNumeral | zerver/tests/test_thumbnail.py:286-294 | a numeral followed by a non-digit is read as exactly that numeral |
| ThumbnailScenarios.Stringification | zerver/tests/test_thumbnail.py:267-277 | the still 150x100 webp is named `150x100.webp` and the animated one `150x100-anim.webp` |
| Thumbnail.StrEndsWithExtension | zerver/tests/test_thumbnail.py:267-277 | the name of a format ends in `.` and its extension; before that comes `-anim` for an animated format and a digit of the height for a still one |
| Thumbnail.ParseStr | zerver/tests/test_thumbnail.py:279-292 | parsing the name of a format gives back its four identity fields as a base format; the options are dropped |
| Thumbnail.Parse | zerver/tests/test_thumbnail.py:279-294 | whatever `from_string` returns is a base format whose extension is a non-empty run of word characters |
| Thumbnail.DecodeStr | zerver/tests/test_thumbnail.py:279-292 | the structural decoding of any format's name recovers its identity fields |
| Thumbnail.ParseAccepts | zerver/tests/test_thumbnail.py:279-294 | every string `WxH[-anim].EXT` with digit runs W, H and a word-character extension parses to those fields, leading zeros included |
| Thumbnail.ParseSound | zerver/tests/test_thumbnail.py:279-294 | whatever parses is a base format with a valid extension, and the string spells its fields in that grammar |
| Thumbnail.DecodeGrammar | zerver/tests/test_thumbnail.py:279-294 | the structural decoder reads every grammar string into the fields it spells |
| Thumbnail.DecodeSound | zerver/tests/test_thumbnail.py:279-294 | whatever the structural decoder accepts is a grammar string spelling the decoded fields |
| Thumbnail.ReadNumeral | zerver/tests/test_thumbnail.py:286-294 | a numeral followed by a non-digit is read as its value, with the rest left over |
| Thumbnail.ReadNumberSound | zerver/tests/test_thumbnail.py:286-294 | a number that was read is the value of a digit prefix of the input |
| Thumbnail.ReadTailOf | zerver/tests/test_thumbnail.py:286-292 | the `[-anim].EXT` tail is read back to its animated flag and extension |
| Thumbnail.ReadTailSound | zerver/tests/test_thumbnail.py:286-294 | a tail that was read spells the flag and extension it was read as |
| Thumbnail.ParseNormalises | zerver/tests/test_thumbnail.py:286-292 | a parsed format prints to a name that parses to the same format |
| Thumbnail.ParseCanonical | zerver/tests/test_thumbnail.py:268-292 | a grammar string without leading zeros is exactly the name of what it parses to |
| ThumbnailScenarios.FromStringCases | zerver/tests/test_thumbnail.py:280-292 | `150x100-anim.webp` parses to the animated 150x100 webp base format |
| ThumbnailScenarios.RejectedNames | zerver/tests/test_thumbnail.py:294 | `bad.webp` and `bogus` do not parse |
| Thumbnail.LastIndexOf | zerver/tests/test_thumbnail.py:342-345 | the last index of a character, or -1; no later position holds it |
| Thumbnail.SplitThumbnailPathRoundTrip | zerver/tests/test_thumbnail.py:338-345 | splitting the storage path of a format gives back the path id and the format's identity |
| Thumbnail.SplitThumbnailPathSound | zerver/tests/test_thumbnail.py:342-345 | a path that splits is `thumbnail/` + path id + `/` + a slash-free last component that parses to the returned format |
| Thumbnail.ThumbnailPath | zerver/tests/test_thumbnail.py:338-341 | the storage path starts with `thumbnail/`, ends with the name of the format, and is longer than the two by exactly the path id and one slash |
| Thumbnail.SplitThumbnailPathRefuses | zerver/tests/test_thumbnail.py:342-345 | a path outside `thumbnail/`, or one whose last component does not parse, splits to nothing |
| Thumbnail.StrNoSlash | zerver/tests/test_thumbnail.py:338-345 | the name of a format with a valid extension contains no slash |
| Thumbnail.LastSlashOfThumbnailPath | zerver/tests/test_thumbnail.py:342-345 | in a path under `thumbnail/` the last slash is at position 9 or later |
| ThumbnailScenarios.AnimatedNames | zerver/tests/test_thumbnail.py:330-345 | the animated rendering is named `100x75-anim.webp`, is stored at `thumbnail/{path_id}/100x75-anim.webp`, and that path splits back into the path id and format; the larger still is `150x100.webp` |
| Thumbnail.MissingThumbnails | zerver/tests/test_thumbnail.py:424-473 | the missing formats are a subsequence of the configuration; a format is missing exactly when it is configured, applies to the frame count and no stored rendering equals it; multiplicities are stated by `MissingThumbnailsCount` |
| Thumbnail.MissingThumbnailsCount | zerver/tests/test_thumbnail.py:424-473 | each missing format occurs in the result as often as it is configured, and every other format not at all |
| Thumbnail.IsStoredInAppended | zerver/tests/test_thumbnail.py:451-466 | a format is stored in appended metadata exactly when it is stored in one of the two parts |
| Thumbnail.MissingAfterStoring | zerver/tests/test_thumbnail.py:352 | once renderings equal to every missing format are stored, nothing is missing |
| Thumbnail.MissingAfterGrowth | zerver/tests/test_thumbnail.py:559-579 | after storing exactly what an earlier configuration lacked, a new configuration lacks exactly what it lacked before and the earlier one did not hold |
| ThumbnailScenarios.MissingThumbnailCases | zerver/tests/test_thumbnail.py:424-473 | the six cases: no formats; one still; an animated format dropped for one frame; a second still kept; the stored still satisfied; the animated format kept for ten frames |
| Resize.FitWithin | zerver/tests/test_thumbnail.py:363-365 | the fitted size is positive, within the box and within the original; an original that fits keeps its size; otherwise one side touches the box |
| Resize.Render | zerver/tests/test_thumbnail.py:162-171 | a rendering succeeds exactly when the original decodes, has pixels and frames, is not a pixel bomb and the box is not empty; a success fits the box and is never scaled up |
| Resize.RoundDivAtMost | zerver/tests/test_thumbnail.py:330-333 | rounding a / b to nearest stays at most c when a <= c * b |
| ThumbnailScenarios.AnimatedUnequalRenders | zerver/tests/test_thumbnail.py:330-365 | the 128x56 original renders at 100x44 in a 100x75 box and at 128x56 in the larger boxes |
| ThumbnailWorker.SucceedingPrefix | zerver/tests/test_thumbnail.py:410-422 | the count of leading formats that render: all of them render, and the next one fails |
| ThumbnailWorker.StoredEntries | zerver/tests/test_thumbnail.py:326-336 | one stored entry per rendered format, in order, equal to its format and carrying the rendering's width, height and byte size; the content type is stated by `StoredEntriesContentType` |
| ThumbnailWorker.StoredEntriesContentType | zerver/tests/test_thumbnail.py:326-366 | the content type of every stored entry is the one its extension maps to (`image/webp` for webp) |
| ThumbnailWorker.ContentTypesAreImages | zerver/tests/test_thumbnail.py:326-366 | every content type in the table is an `image/` type; `image/jpeg` comes from jpg or jpeg only and `image/webp` from webp only |
| ThumbnailWorker.StoredEntriesSnoc | zerver/tests/test_thumbnail.py:352-357 | one more successful rendering appends exactly one entry |
| ThumbnailWorker.ImageAttachment.constructor | zerver/tests/test_thumbnail.py:402-409 | a new attachment holds the given dimensions, frames and metadata and is saved |
| ThumbnailWorker.ImageAttachment.Delete | zerver/tests/test_thumbnail.py:421-422 | the attachment is no longer saved |
| ThumbnailWorker.ImageAttachment.AppendRenderings | zerver/tests/test_thumbnail.py:352-422 | renders the formats in order: the count returned is the successful prefix, the metadata gains exactly those entries, and the row stays saved exactly when every format rendered |
| ThumbnailWorker.EnsureThumbnails | zerver/tests/test_thumbnail.py:352-422 | `ensure_thumbnails` returns the number of missing formats that rendered before the first failure, appends their entries after the existing metadata, and deletes the row exactly when a missing format failed |
| ThumbnailWorker.MetadataAfter | zerver/tests/test_thumbnail.py:352-422 | the metadata after a call keeps the stored entries as a prefix and adds one rendering per missing format that rendered before the first failure |
| ThumbnailWorker.NothingMissingAfterEnsure | zerver/tests/test_thumbnail.py:352 | after a call in which every missing format rendered, nothing is missing, so the next call renders nothing |
| ThumbnailWorker.GrowthRendersOnlyNewFormats | zerver/tests/test_thumbnail.py:559-579 | after a complete call, a changed configuration lacks exactly the formats it lacked before that the earlier configuration did not cover |
| ThumbnailScenarios.AnimatedFirstCall | zerver/tests/test_thumbnail.py:326-336 | the first call on the animated upload renders its one format and stores the 100x44 rendering |
| ThumbnailScenarios.AnimatedSecondCall | zerver/tests/test_thumbnail.py:352 | a second call finds nothing missing and leaves the metadata as it was |
| ThumbnailScenarios.AnimatedBiggerCall | zerver/tests/test_thumbnail.py:354-365 | with the larger still webp configured, one format is missing and is stored at the original's 128x56 |
| ThumbnailScenarios.UploadAnimatedImage | zerver/tests/test_thumbnail.py:302-365 | the calls return 1, 0 and 1; the first entry is `100x75-anim.webp` at 100x44; its path splits back; the second is `150x100.webp` at 128x56 |
| ThumbnailScenarios.BadUpload | zerver/tests/test_thumbnail.py:385-422 | the truncated 128x128 upload lacks one format; the call renders nothing and the attachment is gone |
| ThumbnailScenarios.BothWebpCall | zerver/tests/test_thumbnail.py:490-530 | the animated upload with both webp formats configured stores the animated and the still rendering |
| ThumbnailScenarios.ShrunkCall | zerver/tests/test_thumbnail.py:550-557 | after the configuration shrinks to the still webp, nothing is missing and the metadata is unchanged |
| ThumbnailScenarios.ServesRenderedAnim | zerver/tests/test_thumbnail.py:556-557 | the animated webp, no longer configured, is still served as rendered |
| ThumbnailScenarios.ShrinkConfiguration | zerver/tests/test_thumbnail.py:490-557 | with the two webp formats the call renders 2; after shrinking it renders 0 and the animated rendering is still served |
| ThumbnailScenarios.GrownMissing | zerver/tests/test_thumbnail.py:559-573 | the grown configuration lacks exactly the two jpg formats |
| ThumbnailScenarios.GrownCall | zerver/tests/test_thumbnail.py:569-573 | one call renders exactly the two jpg formats, at 100x44 and 128x56 |
| ThumbnailScenarios.RegrownCall | zerver/tests/test_thumbnail.py:575-579 | after that call nothing more is missing and a further call changes nothing |
| ThumbnailScenarios.GrowConfiguration | zerver/tests/test_thumbnail.py:559-579 | after the growth one call renders 2 and the next renders 0, leaving four entries in generation order |
| ThumbnailScenarios.GrownServes | zerver/tests/test_thumbnail.py:559-579 | the small jpg is configured and not yet stored, so its request renders; afterwards the small and big jpg requests are served the small and big jpg renderings |
| ThumbnailScenarios.RequestRenderedFormat | zerver/tests/test_thumbnail.py:575-579 | the request for the already rendered big jpg renders nothing, leaves the four entries and is served the big jpg |
| ThumbnailScenarios.StillTifMissing | zerver/tests/test_thumbnail.py:586-600 | the still upload drops the animated webp from what it is missing |
| ThumbnailScenarios.StillTifCall | zerver/tests/test_thumbnail.py:586-600 | the still upload renders only the still webp and the jpg |
| ThumbnailScenarios.StillTifServesAnimated | zerver/tests/test_thumbnail.py:602-612 | a request for the unrendered animated webp is served the still webp |
| ThumbnailScenarios.StaticUpload | zerver/tests/test_thumbnail.py:586-616 | the still upload renders 2; the animated request is served the same rendering as the still one; the jpg is served as rendered |
| UploadView.QFor | zerver/tests/test_thumbnail.py:640-690 | the Accept weight of a content type is the highest q among the matching entries, or 0 when none matches |
| UploadView.MatchesRanges | zerver/tests/test_thumbnail.py:640-690 | `*/*` matches every content type, `type/*` exactly those of the form `type/...`, and an exact range only itself |
| UploadView.QForAtMost | zerver/tests/test_thumbnail.py:671-690 | more Accept entries never lower a weight |
| UploadView.QForOrderIndependent | zerver/tests/test_thumbnail.py:711-720 | the weight does not depend on the order of the Accept entries |
| UploadView.OutranksOrder | zerver/tests/test_thumbnail.py:642-720 | the preference order is a strict weak order |
| UploadView.RankOfMeaning | zerver/tests/test_thumbnail.py:642-720 | the sort key records a mismatch of the animated flag and of the extension, none for an exact rendering, a width distance of zero exactly at the requested width, the Accept weight of the content type and the byte size |
| UploadView.BestIndex | zerver/tests/test_thumbnail.py:642-720 | no rendered format outranks the one chosen, and it outranks every format listed before it |
| UploadView.BestStep | zerver/tests/test_thumbnail.py:642-720 | extending the list by one keeps the first best, unless the new entry outranks it |
| UploadView.ClosestThumbnailFormat | zerver/tests/test_thumbnail.py:642-720 | `closest_thumbnail_format` returns nothing exactly when nothing was rendered; otherwise it returns a rendered format that none outranks and that outranks every one listed before it |
| UploadView.ClosestPreferenceOrder | zerver/tests/test_thumbnail.py:642-720 | the rules in turn: the animated flag matches if any rendering matches it; then the extension; then the highest weight; then the closest width; then the smallest file |
| UploadView.StrictBestIsChosen | zerver/tests/test_thumbnail.py:642-720 | a rendering that outranks all the others is the one chosen, wherever it is listed |
| UploadView.FirstSame | zerver/tests/test_thumbnail.py:550-557 | the first stored entry equal to a format, or -1 exactly when none is |
| UploadView.ChooseRendered | zerver/tests/test_thumbnail.py:550-557 | what is served from the renderings at hand: a rendered request is served as rendered; any other request gets the closest rendered format; a 404 only when nothing was rendered |
| UploadView.ServeThumbnail | zerver/tests/test_thumbnail.py:550-616 | a request for a configured format that nothing stored equals runs `ensure_thumbnails`: the count, metadata and saved flag are exactly those of `EnsureThumbnails`; any other request changes nothing and renders 0; the stored entries stay renderings; the served format is `ChooseRendered` over the new metadata |
| UploadView.ConfiguredRequestServedExactly | zerver/tests/test_thumbnail.py:559-579 | after a call in which every missing format rendered, a request for a configured format that applies to the image is served a rendering equal to it, never a substitute |
| ThumbnailScenarios.FixtureNames | zerver/tests/test_thumbnail.py:621-624 | the four renderings are named `100x75-anim.webp`, `100x75.webp`, `10x10.webp` and `100x75.gif` |
| ThumbnailScenarios.BrowserWeights | zerver/tests/test_thumbnail.py:640 | under `image/webp, image/*, */*;q=0.8` both webp and gif weigh 1 |
| ThumbnailScenarios.GifOverWebpWeights | zerver/tests/test_thumbnail.py:675 | under `image/webp;q=0.9, image/gif` webp weighs 0.9 and gif 1 |
| ThumbnailScenarios.GifOnlyWeights | zerver/tests/test_thumbnail.py:685 | under `image/gif` only gif has a weight |
| ThumbnailScenarios.GifAndWebpWeights | zerver/tests/test_thumbnail.py:715 | under `image/gif, image/webp` both weigh 1 |
| ThumbnailScenarios.ClosestPrefersAnimated | zerver/tests/test_thumbnail.py:642-650 | an animated gif request is served `100x75-anim.webp` |
| ThumbnailScenarios.ClosestPrefersExtension | zerver/tests/test_thumbnail.py:652-660 | a 10x10 gif request is served `100x75.gif`, not the exact-size webp |
| ThumbnailScenarios.ClosestByWidthWithoutExtension | zerver/tests/test_thumbnail.py:662-670 | a 10x10 tif request is served `10x10.webp` |
| ThumbnailScenarios.ClosestByAcceptWeight | zerver/tests/test_thumbnail.py:671-680 | a tif request that weighs webp below gif is served `100x75.gif` |
| ThumbnailScenarios.ClosestByOnlyAccepted | zerver/tests/test_thumbnail.py:681-690 | a tif request that accepts only gif is served `100x75.gif` |
| ThumbnailScenarios.ClosestByWidthNarrow | zerver/tests/test_thumbnail.py:692-700 | a 20-wide webp request is served `10x10.webp` |
| ThumbnailScenarios.ClosestByWidthWide | zerver/tests/test_thumbnail.py:701-708 | an 80-wide webp request is served `100x75.webp` |
| ThumbnailScenarios.ClosestBySize | zerver/tests/test_thumbnail.py:710-720 | with equal weights and widths the smaller `100x75.webp` beats the gif |

## Left out

- The HTTP layer is not modelled: status codes and response headers, the 404 for a format name that does not parse (`bogus`), the 404 for an upload that is not an image, the legacy `/thumbnail` redirect and its signed URLs, and message rendering. The 404 for an image with nothing rendered yet is the `None` of `UploadView.ChooseRendered`. A format name that parses but is not configured (`webp_anim` after the configuration shrinks) is served with 200, as `UploadView.ServeThumbnail` models.
- `resize_emoji` and the emoji tests are not modelled; they are a separate resizer outside this core. The one exception is the pixel-bomb guard of `Resize.Render`, which is abstracted from the emoji pixel-bomb test.
- Pixel data and encoders are not modelled. A rendering is seen only through its dimensions and whether it fails. The encoded byte size is a parameter of `Resize.Render`, and the tests compare sizes only loosely.
- Storage, the database, the job queue, the post-commit worker trigger and logging are not modelled; they are external.
- Concurrency is not modelled: serialising writes to one attachment is the caller's responsibility.
- Accept headers are taken as already parsed. Each entry is a media range and a q weight in thousandths; the header syntax itself is left out.
- ThumbnailWorker.EnsureThumbnails: does not store the still counterpart of an animated rendering in the same pass. Each missing format yields exactly one rendering, and the still counterpart is rendered when its own format comes up.
- ThumbnailWorker.EnsureThumbnails: models only `BadImageError` as a failure. Other faults propagate in the source and are outside the model.
- Resize.Render: does not model frame timing, cropping or the separate still-frame output of an animated source.
- Resize.Render: takes the pixel ceiling as a parameter rather than the value of the configuration constant.
- Thumbnail.Parse: accepts only ASCII digits and ASCII word characters. Python's `\d` and `\w` also match other Unicode digits and letters.
- Thumbnail.SplitThumbnailPath: returns None where the source asserts: a path without the `thumbnail/` prefix, or a last component that does not parse. There a failed assertion raises an exception; the model turns it into an error value.
- ThumbnailWorker.EnsureThumbnails: requires every configured extension to be in the six-entry table of `ThumbnailWorker.ContentTypeFor` (webp, gif, png, jpg/jpeg, tif/tiff, avif). `mimetypes.guess_type` knows more extensions; a configured extension outside the table is not modelled.
- ThumbnailWorker.ImageAttachment.AppendRenderings: has the same six-extension requirement as `EnsureThumbnails`.
- UploadView.ServeThumbnail: has the same six-extension requirement. After a failed rendering it serves from the entries already in memory, although the attachment was deleted; what the view serves then is not modelled.
- UploadView.ServeThumbnail: renders only on a request for a configured format that no stored rendering equals. The tests show this condition (a request for a new configured format renders, one for a rendered format does not), but the code in `zerver/views/upload.py` that decides it is not part of this model.

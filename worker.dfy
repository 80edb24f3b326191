/**
  * The thumbnailing worker: `ensure_thumbnails` renders every configured
  * format an image attachment is missing, in order, appending one stored
  * format per rendering to the attachment's metadata, and deletes the
  * attachment when a rendering fails with `BadImageError`.
  */
module ThumbnailWorker {
  import opened Wrappers
  import opened Thumbnail
  import opened Resize

  /** The content type that `mimetypes.guess_type` gives `image.{ext}`, for the image extensions. */
  function ContentTypeFor(ext: string): Option<string> {
    if ext == "webp" then Some("image/webp")
    else if ext == "gif" then Some("image/gif")
    else if ext == "png" then Some("image/png")
    else if ext == "jpg" || ext == "jpeg" then Some("image/jpeg")
    else if ext == "tif" || ext == "tiff" then Some("image/tiff")
    else if ext == "avif" then Some("image/avif")
    else None
  }

  /** Every extension with a content type has an `image/` one, and different image types have different extensions. */
  lemma ContentTypesAreImages(ext: string)
    ensures ContentTypeFor(ext).Some? ==>
              |ContentTypeFor(ext).value| > 6 && ContentTypeFor(ext).value[..6] == "image/"
    ensures ContentTypeFor(ext) == Some("image/jpeg") <==> ext == "jpg" || ext == "jpeg"
    ensures ContentTypeFor(ext) == Some("image/webp") <==> ext == "webp"
  {
  }

  predicate KnownExtension(f: Format) {
    ContentTypeFor(f.extension).Some?
  }

  /**
    * The `ImageAttachment` row of an uploaded image: its dimensions and frame
    * count, the formats rendered so far in generation order, and whether the
    * row still exists.
    */
  class ImageAttachment {
    var pathId: string
    var originalWidth: nat
    var originalHeight: nat
    var frames: nat
    var thumbnailMetadata: seq<Format>
    var saved: bool

    constructor (pathId: string, originalWidth: nat, originalHeight: nat, frames: nat,
                 thumbnailMetadata: seq<Format>)
      ensures this.pathId == pathId && this.originalWidth == originalWidth
      ensures this.originalHeight == originalHeight && this.frames == frames
      ensures this.thumbnailMetadata == thumbnailMetadata && saved
    {
      this.pathId := pathId;
      this.originalWidth := originalWidth;
      this.originalHeight := originalHeight;
      this.frames := frames;
      this.thumbnailMetadata := thumbnailMetadata;
      saved := true;
    }

    /** `image_attachment.delete()`: the row is gone, the in-memory fields stay as they were. */
    method Delete()
      modifies this`saved
      ensures !saved
    {
      saved := false;
    }

    /**
      * The loop of `ensure_thumbnails`: renders the formats in order and
      * appends one stored entry per success to the metadata; at the first
      * failure deletes the row and stops. Returns the number appended.
      */
    method AppendRenderings(formats: seq<Format>, render: Format -> RenderOutcome) returns (written: nat)
      requires forall i :: 0 <= i < |formats| ==> KnownExtension(formats[i])
      modifies this`thumbnailMetadata, this`saved
      ensures written == SucceedingPrefix(formats, render)
      ensures thumbnailMetadata == old(thumbnailMetadata) + StoredEntries(formats[..written], render)
      ensures saved == (old(saved) && written == |formats|)
    {
      written := 0;
      while written < |formats|
        invariant written <= SucceedingPrefix(formats, render)
        invariant thumbnailMetadata == old(thumbnailMetadata) + StoredEntries(formats[..written], render)
        invariant saved == old(saved)
      {
        var outcome := render(formats[written]);
        if outcome.BadImage? {
          Delete();
          return;
        }
        StoredEntriesSnoc(formats, render, written);
        thumbnailMetadata := thumbnailMetadata + [StoredEntry(formats[written], outcome)];
        written := written + 1;
      }
      assert formats[..written] == formats;
    }
  }

  /** How many of the leading formats render successfully before the first failure. */
  function SucceedingPrefix(formats: seq<Format>, render: Format -> RenderOutcome): (k: nat)
    ensures k <= |formats|
    ensures forall i :: 0 <= i < k ==> render(formats[i]).Rendered?
    ensures k < |formats| ==> render(formats[k]).BadImage?
  {
    if formats == [] || render(formats[0]).BadImage? then 0
    else 1 + SucceedingPrefix(formats[1..], render)
  }

  /** The metadata entry stored for a successful rendering of f. */
  function StoredEntry(f: Format, out: RenderOutcome): Format
    requires out.Rendered? && KnownExtension(f)
  {
    StoredFormat(f.extension, f.maxWidth, f.maxHeight, f.animated,
                 ContentTypeFor(f.extension).value, out.width, out.height, out.byteSize)
  }

  /** The entries stored for renderings of formats, one each and in order. */
  function StoredEntries(formats: seq<Format>, render: Format -> RenderOutcome): (r: seq<Format>)
    requires forall i :: 0 <= i < |formats| ==> render(formats[i]).Rendered? && KnownExtension(formats[i])
    ensures |r| == |formats|
    ensures forall i :: 0 <= i < |r| ==>
              r[i].StoredFormat? && SameFormat(r[i], formats[i]) &&
              r[i].width == render(formats[i]).width && r[i].height == render(formats[i]).height &&
              r[i].byteSize == render(formats[i]).byteSize
  {
    if formats == [] then []
    else
      var n := |formats| - 1;
      StoredEntries(formats[..n], render) + [StoredEntry(formats[n], render(formats[n]))]
  }

  /** One more successful rendering adds one entry at the end. */
  lemma {:induction false} StoredEntriesSnoc(formats: seq<Format>, render: Format -> RenderOutcome, n: nat)
    requires n <= SucceedingPrefix(formats, render) && n < |formats|
    requires forall i :: 0 <= i < |formats| ==> KnownExtension(formats[i])
    requires render(formats[n]).Rendered?
    ensures n < SucceedingPrefix(formats, render)
    ensures StoredEntries(formats[..n + 1], render)
         == StoredEntries(formats[..n], render) + [StoredEntry(formats[n], render(formats[n]))]
  {
    var longer := formats[..n + 1];
    assert longer[..n] == formats[..n] && longer[n] == formats[n];
    if n == SucceedingPrefix(formats, render) {
      // the prefix would stop at formats[n], which rendered
      assert false;
    }
  }

  /** The content type of every stored entry is the one its format's extension maps to. */
  lemma {:induction false} StoredEntriesContentType(formats: seq<Format>, render: Format -> RenderOutcome)
    requires forall i :: 0 <= i < |formats| ==> render(formats[i]).Rendered? && KnownExtension(formats[i])
    ensures forall i :: 0 <= i < |formats| ==>
              Some(StoredEntries(formats, render)[i].contentType) == ContentTypeFor(formats[i].extension)
  {
    if formats != [] {
      var n := |formats| - 1;
      StoredEntriesContentType(formats[..n], render);
      var r := StoredEntries(formats, render);
      assert r == StoredEntries(formats[..n], render) + [StoredEntry(formats[n], render(formats[n]))];
      forall i | 0 <= i < |formats|
        ensures Some(r[i].contentType) == ContentTypeFor(formats[i].extension)
      {
        if i < n {
          assert r[i] == StoredEntries(formats[..n], render)[i] && formats[..n][i] == formats[i];
        }
      }
    }
  }

  /**
    * The metadata one call leaves behind: the entries of the missing formats
    * that rendered before the first failure, after the existing entries.
    */
  function MetadataAfter(config: seq<Format>, frames: nat, stored: seq<Format>, render: Format -> RenderOutcome): (r: seq<Format>)
    requires forall f :: f in config ==> KnownExtension(f)
    ensures |r| == |stored| + SucceedingPrefix(MissingThumbnails(config, frames, stored), render)
    ensures r[..|stored|] == stored
    ensures forall i :: |stored| <= i < |r| ==> r[i].StoredFormat?
  {
    var missing := MissingThumbnails(config, frames, stored);
    stored + StoredEntries(missing[..SucceedingPrefix(missing, render)], render)
  }

  /**
    * `ensure_thumbnails`: renders each missing format in turn. On success the
    * stored entries are appended after the existing ones and the count is
    * returned. At the first `BadImageError` the attachment is deleted and the
    * remaining formats are not attempted; the count rendered so far is
    * returned.
    */
  method EnsureThumbnails(image: ImageAttachment, config: seq<Format>, render: Format -> RenderOutcome)
    returns (written: nat)
    requires forall f :: f in config ==> KnownExtension(f)
    modifies image`thumbnailMetadata, image`saved
    ensures var missing := MissingThumbnails(config, image.frames, old(image.thumbnailMetadata));
            written == SucceedingPrefix(missing, render) &&
            image.thumbnailMetadata == MetadataAfter(config, image.frames, old(image.thumbnailMetadata), render) &&
            image.saved == (old(image.saved) && written == |missing|)
  {
    var missing := MissingThumbnails(config, image.frames, image.thumbnailMetadata);
    if |missing| == 0 {
      return 0;
    }
    assert forall i :: 0 <= i < |missing| ==> missing[i] in config;
    written := image.AppendRenderings(missing, render);
  }

  /** After a call that rendered every missing format, nothing is missing: a second call renders nothing. */
  lemma NothingMissingAfterEnsure(config: seq<Format>, frames: nat, stored: seq<Format>,
                                  render: Format -> RenderOutcome)
    requires forall f :: f in config ==> KnownExtension(f)
    requires var missing := MissingThumbnails(config, frames, stored);
             SucceedingPrefix(missing, render) == |missing|
    ensures MissingThumbnails(config, frames, MetadataAfter(config, frames, stored, render)) == []
  {
    var missing := MissingThumbnails(config, frames, stored);
    assert missing[..|missing|] == missing;
    var added := StoredEntries(missing, render);
    forall f | f in missing
      ensures IsStored(f, added)
    {
      var i :| 0 <= i < |missing| && missing[i] == f;
      assert SameFormat(f, added[i]);
    }
    MissingAfterStoring(config, frames, stored, added);
  }

  /**
    * Growing the configuration after a complete call renders only the new
    * gap: what is missing then is what was missing before, less the formats
    * of the earlier configuration.
    */
  lemma GrowthRendersOnlyNewFormats(previous: seq<Format>, config: seq<Format>, frames: nat,
                                    stored: seq<Format>, render: Format -> RenderOutcome)
    requires forall f :: f in previous ==> KnownExtension(f)
    requires var missing := MissingThumbnails(previous, frames, stored);
             SucceedingPrefix(missing, render) == |missing|
    ensures forall f :: f in MissingThumbnails(config, frames, MetadataAfter(previous, frames, stored, render)) <==>
                        f in MissingThumbnails(config, frames, stored) && !IsStored(f, previous)
  {
    var missing := MissingThumbnails(previous, frames, stored);
    assert missing[..|missing|] == missing;
    var added := StoredEntries(missing, render);
    forall f | f in missing
      ensures IsStored(f, added)
    {
      var i :| 0 <= i < |missing| && missing[i] == f;
      assert SameFormat(f, added[i]);
    }
    forall i | 0 <= i < |added|
      ensures IsStored(added[i], missing)
    {
      assert SameFormat(added[i], missing[i]);
    }
    MissingAfterGrowth(previous, config, frames, stored, added);
  }
}

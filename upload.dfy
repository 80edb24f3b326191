/**
  * Serving a thumbnail: when the requested format was never rendered,
  * `closest_thumbnail_format` picks the rendered format to serve instead,
  * preferring in turn the same animated flag, the same extension, the
  * client's Accept weight for its content type, the width closest to the
  * requested one and the smallest file.
  */
module UploadView {
  import opened Wrappers
  import opened Thumbnail
  import opened Resize
  import opened ThumbnailWorker

  // A media range of an Accept header: `*/*`, `type/*`, or one exact `type/subtype`.
  datatype MediaRange = AnyType | AnySubtype(mainType: string) | ExactType(mediaType: string)

  /** One already-parsed Accept entry; q is in thousandths, so 1000 is `q=1` and 800 is `q=0.8`. */
  datatype Accepted = Accepted(range: MediaRange, q: nat)

  predicate Matches(range: MediaRange, contentType: string) {
    match range
    case AnyType => true
    case AnySubtype(m) => |m| < |contentType| && contentType[..|m| + 1] == m + "/"
    case ExactType(t) => contentType == t
  }

  /** `type/*` matches exactly the content types `type/...`; `*/*` matches every one. */
  lemma MatchesRanges(range: MediaRange, contentType: string)
    ensures range.AnyType? ==> Matches(range, contentType)
    ensures range.AnySubtype? ==>
              (Matches(range, contentType) <==> exists sub :: contentType == range.mainType + "/" + sub)
    ensures range.ExactType? ==> (Matches(range, contentType) <==> contentType == range.mediaType)
  {
    if range.AnySubtype? {
      var m := range.mainType;
      if Matches(range, contentType) {
        var sub := contentType[|m| + 1..];
        assert contentType == contentType[..|m| + 1] + sub;
      }
      if exists sub :: contentType == m + "/" + sub {
        var sub :| contentType == m + "/" + sub;
        assert contentType[..|m| + 1] == m + "/";
      }
    }
  }

  /**
    * The Accept weight of a content type: the highest q among the entries
    * that match it, 0 when none does (so it is never excluded, only ranked
    * last).
    */
  function QFor(contentType: string, accepts: seq<Accepted>): (q: nat)
    ensures forall i :: 0 <= i < |accepts| && Matches(accepts[i].range, contentType) ==> accepts[i].q <= q
    ensures q == 0 || exists i :: 0 <= i < |accepts| && Matches(accepts[i].range, contentType) && accepts[i].q == q
  {
    if accepts == [] then 0
    else
      var rest := QFor(contentType, accepts[1..]);
      if Matches(accepts[0].range, contentType) && accepts[0].q > rest then accepts[0].q else rest
  }

  /** The weight does not depend on the order of the Accept entries: equal q values tie. */
  lemma QForOrderIndependent(contentType: string, a: seq<Accepted>, b: seq<Accepted>)
    requires forall e :: e in a <==> e in b
    ensures QFor(contentType, a) == QFor(contentType, b)
  {
    QForAtMost(contentType, a, b);
    QForAtMost(contentType, b, a);
  }

  lemma QForAtMost(contentType: string, a: seq<Accepted>, b: seq<Accepted>)
    requires forall e :: e in a ==> e in b
    ensures QFor(contentType, a) <= QFor(contentType, b)
  {
    var q := QFor(contentType, a);
    if q != 0 {
      var i :| 0 <= i < |a| && Matches(a[i].range, contentType) && a[i].q == q;
      assert a[i] in b;
      var j :| 0 <= j < |b| && b[j] == a[i];
    }
  }

  predicate AllStored(rendered: seq<Format>) {
    forall i :: 0 <= i < |rendered| ==> rendered[i].StoredFormat?
  }

  /** The sort key of a rendered format, first component most significant. */
  datatype Rank = Rank(animatedMismatch: bool, extensionMismatch: bool, q: nat, widthDistance: nat, byteSize: nat)

  function RankOf(requested: Format, accepts: seq<Accepted>, f: Format): Rank
    requires f.StoredFormat?
  {
    Rank(f.animated != requested.animated,
         f.extension != requested.extension,
         QFor(f.contentType, accepts),
         if requested.maxWidth >= f.width then requested.maxWidth - f.width else f.width - requested.maxWidth,
         f.byteSize)
  }

  /**
    * What the key records: an exact rendering of the request has neither
    * mismatch, the distance is zero exactly at the requested width, and the
    * weight is the Accept weight of the rendering's content type.
    */
  lemma RankOfMeaning(requested: Format, accepts: seq<Accepted>, f: Format)
    requires f.StoredFormat?
    ensures var r := RankOf(requested, accepts, f);
            (r.animatedMismatch <==> f.animated != requested.animated) &&
            (r.extensionMismatch <==> f.extension != requested.extension) &&
            (SameFormat(f, requested) ==> !r.animatedMismatch && !r.extensionMismatch) &&
            (r.widthDistance == 0 <==> f.width == requested.maxWidth) &&
            r.widthDistance + f.width >= requested.maxWidth &&
            r.q == QFor(f.contentType, accepts) && r.byteSize == f.byteSize
  {
  }

  /** x sorts strictly before y: a match beats a mismatch, a higher q beats a lower, a smaller distance or size beats a larger. */
  predicate Outranks(x: Rank, y: Rank) {
    (!x.animatedMismatch && y.animatedMismatch) ||
    (x.animatedMismatch == y.animatedMismatch &&
     ((!x.extensionMismatch && y.extensionMismatch) ||
      (x.extensionMismatch == y.extensionMismatch &&
       (x.q > y.q ||
        (x.q == y.q &&
         (x.widthDistance < y.widthDistance ||
          (x.widthDistance == y.widthDistance && x.byteSize < y.byteSize)))))))
  }

  /** Outranks is a strict weak order: transitive, and its complement is transitive too. */
  lemma OutranksOrder()
    ensures forall x, y, z :: Outranks(x, y) && Outranks(y, z) ==> Outranks(x, z)
    ensures forall x, y, z :: Outranks(x, y) && !Outranks(z, y) ==> Outranks(x, z)
    ensures forall x :: !Outranks(x, x)
  {
  }

  /** The index of the first entry that no entry outranks: element 0 of a stable sort by rank. */
  function BestIndex(requested: Format, accepts: seq<Accepted>, rendered: seq<Format>): (i: nat)
    requires |rendered| > 0 && AllStored(rendered)
    ensures i < |rendered|
    ensures forall j :: 0 <= j < |rendered| ==>
              !Outranks(RankOf(requested, accepts, rendered[j]), RankOf(requested, accepts, rendered[i]))
    ensures forall j :: 0 <= j < i ==>
              Outranks(RankOf(requested, accepts, rendered[i]), RankOf(requested, accepts, rendered[j]))
  {
    if |rendered| == 1 then 0
    else
      var n := |rendered| - 1;
      var k := BestIndex(requested, accepts, rendered[..n]);
      BestStep(requested, accepts, rendered, k);
      if Outranks(RankOf(requested, accepts, rendered[n]), RankOf(requested, accepts, rendered[k])) then n
      else k
  }

  /** Extending the best of all but the last entry to the best of all entries. */
  lemma BestStep(requested: Format, accepts: seq<Accepted>, rendered: seq<Format>, k: nat)
    requires |rendered| > 1 && AllStored(rendered) && k < |rendered| - 1
    requires var n := |rendered| - 1;
             (forall j :: 0 <= j < n ==>
                !Outranks(RankOf(requested, accepts, rendered[..n][j]), RankOf(requested, accepts, rendered[..n][k]))) &&
             (forall j :: 0 <= j < k ==>
                Outranks(RankOf(requested, accepts, rendered[..n][k]), RankOf(requested, accepts, rendered[..n][j])))
    ensures var n := |rendered| - 1;
            var last := RankOf(requested, accepts, rendered[n]);
            var best := RankOf(requested, accepts, rendered[k]);
            if Outranks(last, best) then
              (forall j :: 0 <= j < |rendered| ==> !Outranks(RankOf(requested, accepts, rendered[j]), last)) &&
              (forall j :: 0 <= j < n ==> Outranks(last, RankOf(requested, accepts, rendered[j])))
            else
              (forall j :: 0 <= j < |rendered| ==> !Outranks(RankOf(requested, accepts, rendered[j]), best)) &&
              (forall j :: 0 <= j < k ==> Outranks(best, RankOf(requested, accepts, rendered[j])))
  {
    var n := |rendered| - 1;
    var last := RankOf(requested, accepts, rendered[n]);
    var best := RankOf(requested, accepts, rendered[k]);
    assert forall j :: 0 <= j < n ==> rendered[..n][j] == rendered[j];
    OutranksOrder();
    if Outranks(last, best) {
      forall j | 0 <= j < n
        ensures !Outranks(RankOf(requested, accepts, rendered[j]), last)
        ensures Outranks(last, RankOf(requested, accepts, rendered[j]))
      {
        assert !Outranks(RankOf(requested, accepts, rendered[..n][j]), best);
      }
    }
  }

  /**
    * `closest_thumbnail_format`: the best rendered format for the request,
    * None when nothing was rendered. The result is ranked at least as well
    * as every rendered format, and strictly better than every one listed
    * before it.
    */
  function ClosestThumbnailFormat(requested: Format, accepts: seq<Accepted>, rendered: seq<Format>): (r: Option<Format>)
    requires AllStored(rendered)
    ensures r.None? <==> rendered == []
    ensures r.Some? ==>
              exists i :: 0 <= i < |rendered| && rendered[i] == r.value &&
                          (forall j :: 0 <= j < i ==>
                             Outranks(RankOf(requested, accepts, r.value), RankOf(requested, accepts, rendered[j])))
    ensures r.Some? ==> forall j :: 0 <= j < |rendered| ==>
              !Outranks(RankOf(requested, accepts, rendered[j]), RankOf(requested, accepts, r.value))
  {
    if rendered == [] then None else Some(rendered[BestIndex(requested, accepts, rendered)])
  }

  /**
    * The preference order, one rule at a time: each rule decides among the
    * rendered formats that tie with the chosen one on all earlier rules.
    */
  lemma ClosestPreferenceOrder(requested: Format, accepts: seq<Accepted>, rendered: seq<Format>)
    requires AllStored(rendered) && rendered != []
    ensures var c := ClosestThumbnailFormat(requested, accepts, rendered).value;
            c.StoredFormat? &&
            (forall j :: 0 <= j < |rendered| && rendered[j].animated == requested.animated ==>
               c.animated == requested.animated) &&
            (forall j :: 0 <= j < |rendered| && rendered[j].animated == c.animated &&
                         rendered[j].extension == requested.extension ==>
               c.extension == requested.extension) &&
            (forall j :: 0 <= j < |rendered| && rendered[j].animated == c.animated &&
                         (rendered[j].extension == requested.extension) == (c.extension == requested.extension) ==>
               QFor(rendered[j].contentType, accepts) <= QFor(c.contentType, accepts)) &&
            (forall j :: 0 <= j < |rendered| && rendered[j].animated == c.animated &&
                         (rendered[j].extension == requested.extension) == (c.extension == requested.extension) &&
                         QFor(rendered[j].contentType, accepts) == QFor(c.contentType, accepts) ==>
               RankOf(requested, accepts, c).widthDistance <= RankOf(requested, accepts, rendered[j]).widthDistance) &&
            (forall j :: 0 <= j < |rendered| && rendered[j].animated == c.animated &&
                         (rendered[j].extension == requested.extension) == (c.extension == requested.extension) &&
                         QFor(rendered[j].contentType, accepts) == QFor(c.contentType, accepts) &&
                         RankOf(requested, accepts, c).widthDistance == RankOf(requested, accepts, rendered[j]).widthDistance ==>
               c.byteSize <= rendered[j].byteSize)
  {
    var c := ClosestThumbnailFormat(requested, accepts, rendered).value;
    forall j | 0 <= j < |rendered|
      ensures !Outranks(RankOf(requested, accepts, rendered[j]), RankOf(requested, accepts, c))
    {
    }
  }

  /** A rendered format that outranks every other one is the one chosen, wherever it is listed. */
  lemma StrictBestIsChosen(requested: Format, accepts: seq<Accepted>, rendered: seq<Format>, i: nat)
    requires AllStored(rendered) && i < |rendered|
    requires forall j :: 0 <= j < |rendered| && j != i ==>
               Outranks(RankOf(requested, accepts, rendered[i]), RankOf(requested, accepts, rendered[j]))
    ensures ClosestThumbnailFormat(requested, accepts, rendered) == Some(rendered[i])
  {
    var c := ClosestThumbnailFormat(requested, accepts, rendered).value;
    var k :| 0 <= k < |rendered| && rendered[k] == c &&
             (forall j :: 0 <= j < k ==> Outranks(RankOf(requested, accepts, c), RankOf(requested, accepts, rendered[j])));
    assert !Outranks(RankOf(requested, accepts, rendered[i]), RankOf(requested, accepts, c));
    if k != i {
      assert false;
    }
  }

  /** The first stored entry equal to f, or -1. */
  function FirstSame(f: Format, stored: seq<Format>): (i: int)
    ensures -1 <= i < |stored|
    ensures i >= 0 ==> SameFormat(f, stored[i])
    ensures i >= 0 ==> forall j :: 0 <= j < i ==> !SameFormat(f, stored[j])
    ensures i == -1 <==> !IsStored(f, stored)
  {
    if stored == [] then -1
    else if SameFormat(f, stored[0]) then 0
    else
      var i := FirstSame(f, stored[1..]);
      if i == -1 then -1 else i + 1
  }

  /**
    * The rendered format served for a request: the requested one when it was
    * rendered, otherwise the closest rendered one; None (a 404) when nothing
    * was rendered. It depends on what was rendered, not on the configuration.
    */
  function ChooseRendered(requested: Format, accepts: seq<Accepted>, rendered: seq<Format>): (r: Option<Format>)
    requires AllStored(rendered)
    ensures r.None? <==> rendered == []
    ensures r.Some? ==> r.value in rendered
    ensures IsStored(requested, rendered) ==> r.Some? && SameFormat(r.value, requested)
    ensures !IsStored(requested, rendered) ==> r == ClosestThumbnailFormat(requested, accepts, rendered)
  {
    var i := FirstSame(requested, rendered);
    if i >= 0 then Some(rendered[i]) else ClosestThumbnailFormat(requested, accepts, rendered)
  }

  /**
    * Serving a thumbnail of an image: a request for a configured format the
    * image lacks first runs `ensure_thumbnails`, which renders every missing
    * format, not only the requested one; then the requested format, or the
    * closest rendered one, is served. Any other request renders nothing.
    */
  method ServeThumbnail(image: ImageAttachment, config: seq<Format>, requested: Format,
                        accepts: seq<Accepted>, render: Format -> RenderOutcome)
    returns (written: nat, served: Option<Format>)
    requires forall f :: f in config ==> KnownExtension(f)
    requires AllStored(image.thumbnailMetadata)
    modifies image`thumbnailMetadata, image`saved
    ensures var before := old(image.thumbnailMetadata);
            var missing := MissingThumbnails(config, image.frames, before);
            if !IsStored(requested, before) && IsStored(requested, config) then
              written == SucceedingPrefix(missing, render) &&
              image.thumbnailMetadata == MetadataAfter(config, image.frames, before, render) &&
              image.saved == (old(image.saved) && written == |missing|)
            else
              written == 0 && image.thumbnailMetadata == before && image.saved == old(image.saved)
    ensures AllStored(image.thumbnailMetadata)
    ensures served == ChooseRendered(requested, accepts, image.thumbnailMetadata)
  {
    written := 0;
    if !IsStored(requested, image.thumbnailMetadata) && IsStored(requested, config) {
      ghost var before := image.thumbnailMetadata;
      written := EnsureThumbnails(image, config, render);
      forall i | 0 <= i < |before|
        ensures image.thumbnailMetadata[i].StoredFormat?
      {
        assert image.thumbnailMetadata[i] == image.thumbnailMetadata[..|before|][i];
      }
    }
    served := ChooseRendered(requested, accepts, image.thumbnailMetadata);
  }

  /**
    * Once every missing format has rendered, a request for a configured
    * format that applies to the image is served that very format, never a
    * substitute.
    */
  lemma ConfiguredRequestServedExactly(config: seq<Format>, frames: nat, stored: seq<Format>,
                                       render: Format -> RenderOutcome, requested: Format, accepts: seq<Accepted>)
    requires forall f :: f in config ==> KnownExtension(f)
    requires AllStored(stored)
    requires IsStored(requested, config) && Applies(requested, frames)
    requires var missing := MissingThumbnails(config, frames, stored);
             SucceedingPrefix(missing, render) == |missing|
    ensures AllStored(MetadataAfter(config, frames, stored, render))
    ensures var r := ChooseRendered(requested, accepts, MetadataAfter(config, frames, stored, render));
            r.Some? && SameFormat(r.value, requested)
  {
    var after := MetadataAfter(config, frames, stored, render);
    forall i | 0 <= i < |stored|
      ensures after[i] == stored[i]
    {
      assert after[i] == after[..|stored|][i];
    }
    if IsStored(requested, stored) {
      var i :| 0 <= i < |stored| && SameFormat(requested, stored[i]);
      assert SameFormat(requested, after[i]);
    } else {
      var j :| 0 <= j < |config| && SameFormat(requested, config[j]);
      var c := config[j];
      assert !IsStored(c, stored);
      NothingMissingAfterEnsure(config, frames, stored, render);
      assert c !in MissingThumbnails(config, frames, after);
      var k :| 0 <= k < |after| && SameFormat(c, after[k]);
      assert SameFormat(requested, after[k]);
    }
  }
}

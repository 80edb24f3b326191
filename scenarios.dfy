/**
  * The concrete cases of the thumbnail test suite, stated about the model:
  * format equality and string forms, the storage path round trip, missing
  * formats, regeneration after upload, after a bad upload and after the
  * configuration grows, and the choice of a closest rendered format.
  */
module ThumbnailScenarios {
  import opened Wrappers
  import opened Decimal
  import opened Thumbnail
  import opened Resize
  import opened ThumbnailWorker
  import opened UploadView

  // ----- Format classes -----

  /** Equality looks at extension, bounds and the animated flag only; a format is never equal to a string. */
  lemma ClassEquivalence()
    ensures !Equals(ThumbnailFormat("webp", 150, 100, true, "Q=90"), TextValue("150x100-anim.webp"))
    ensures Equals(ThumbnailFormat("webp", 150, 100, true, "Q=90"),
                   FormatValue(ThumbnailFormat("webp", 150, 100, true, "Q=10")))
    ensures Equals(ThumbnailFormat("webp", 150, 100, true, "Q=90"), FormatValue(BaseFormat("webp", 150, 100, true)))
    ensures !Equals(ThumbnailFormat("jpeg", 150, 100, true, "Q=90"),
                    FormatValue(ThumbnailFormat("webp", 150, 100, true, "Q=90")))
    ensures !Equals(ThumbnailFormat("webp", 300, 100, true, "Q=90"),
                    FormatValue(ThumbnailFormat("webp", 150, 100, true, "Q=90")))
    ensures !Equals(ThumbnailFormat("webp", 150, 100, false, "Q=90"),
                    FormatValue(ThumbnailFormat("webp", 150, 100, true, "Q=90")))
    ensures Equals(ThumbnailFormat("webp", 150, 100, false, "Q=90"),
                   FormatValue(StoredFormat("webp", 150, 100, false, "image/webp", 120, 100, 123)))
    ensures !Equals(ThumbnailFormat("webp", 150, 100, false, "Q=90"),
                    FormatValue(StoredFormat("webp", 150, 100, true, "image/webp", 120, 100, 123)))
  {
  }

  /** For every format and every string, the format is not equal to the string. */
  lemma NeverEqualToText(f: Format, s: string)
    ensures !Equals(f, TextValue(s))
  {
  }

  /** The numerals that occur in the cases below. */
  lemma Numerals()
    ensures Digits(10) == "10" && Digits(75) == "75" && Digits(100) == "100"
    ensures Digits(150) == "150" && Digits(200) == "200"
  {
    assert Digits(1) == "1" && Digits(7) == "7" && Digits(2) == "2";
    assert Digits(10) == Digits(1) + [DigitChar(0)] == "10";
    assert Digits(15) == Digits(1) + [DigitChar(5)] == "15";
    assert Digits(20) == Digits(2) + [DigitChar(0)] == "20";
    assert Digits(75) == Digits(7) + [DigitChar(5)] == "75";
    assert Digits(100) == Digits(10) + [DigitChar(0)] == "100";
    assert Digits(150) == Digits(15) + [DigitChar(0)] == "150";
    assert Digits(200) == Digits(20) + [DigitChar(0)] == "200";
  }

  /** The stable string forms of a still and an animated format. */
  lemma Stringification()
    ensures Str(ThumbnailFormat("webp", 150, 100, false, "")) == "150x100.webp"
    ensures Str(ThumbnailFormat("webp", 150, 100, true, "")) == "150x100-anim.webp"
  {
    Numerals();
    assert Str(ThumbnailFormat("webp", 150, 100, false, "")) == Spell(Digits(150), Digits(100), false, "webp");
    assert Spell("150", "100", false, "webp") == "150x100.webp";
    assert Str(ThumbnailFormat("webp", 150, 100, true, "")) == Spell(Digits(150), Digits(100), true, "webp");
    assert Spell("150", "100", true, "webp") == "150x100-anim.webp";
  }

  /** `from_string` reads an animated name back to a base format. */
  lemma FromStringCases()
    ensures Parse("150x100-anim.webp") == Some(BaseFormat("webp", 150, 100, true))
  {
    var f := ThumbnailFormat("webp", 150, 100, true, "");
    Stringification();
    ParseStr(f);
  }

  lemma RejectedNames()
    ensures Parse("bad.webp") == None && Parse("bogus") == None
  {
    assert DigitRun("bad.webp") == 0 && DigitRun("bogus") == 0;
  }

  // ----- Missing thumbnails -----

  const StillWebp := ThumbnailFormat("webp", 100, 75, false, "Q=90")
  const AnimWebp := ThumbnailFormat("webp", 100, 75, true, "Q=90")
  const StillJpeg := ThumbnailFormat("jpeg", 100, 75, false, "Q=90")
  const RenderedStillWebp := StoredFormat("webp", 100, 75, false, "image/webp", 150, 50, 1234)

  /** Which formats a 150x100 original is missing, as configuration, stored renderings and frame count change. */
  lemma MissingThumbnailCases()
    ensures MissingThumbnails([], 1, []) == []
    ensures MissingThumbnails([StillWebp], 1, []) == [StillWebp]
    ensures MissingThumbnails([StillWebp, AnimWebp], 1, []) == [StillWebp]
    ensures MissingThumbnails([StillWebp, AnimWebp, StillJpeg], 1, []) == [StillWebp, StillJpeg]
    ensures MissingThumbnails([StillWebp, AnimWebp, StillJpeg], 1, [RenderedStillWebp]) == [StillJpeg]
    ensures MissingThumbnails([StillWebp, AnimWebp, StillJpeg], 10, [RenderedStillWebp]) == [AnimWebp, StillJpeg]
  {
    var c := [StillWebp, AnimWebp, StillJpeg];
    var st := [RenderedStillWebp];
    assert MissingThumbnails(c[2..], 1, []) == [StillJpeg];
    assert MissingThumbnails(c[1..], 1, []) == [StillJpeg];
    assert IsStored(StillWebp, st) by {
      assert SameFormat(StillWebp, st[0]);
    }
    assert !IsStored(StillJpeg, st);
    assert !IsStored(AnimWebp, st);
    assert MissingThumbnails(c[2..], 1, st) == [StillJpeg];
    assert MissingThumbnails(c[1..], 1, st) == [StillJpeg];
    assert MissingThumbnails(c[2..], 10, st) == [StillJpeg];
    assert MissingThumbnails(c[1..], 10, st) == [AnimWebp, StillJpeg];
  }

  // ----- Regeneration -----

  /** The renderer for one original, with a pixel ceiling far above it and a fixed encoded size. */
  function RendererFor(src: Original): Format -> RenderOutcome {
    f => Render(src, f, 100000000, 1000)
  }

  /** A call in which every missing format renders leaves their entries after the stored ones. */
  lemma CompleteCall(config: seq<Format>, frames: nat, stored: seq<Format>, render: Format -> RenderOutcome,
                     missing: seq<Format>, entries: seq<Format>)
    requires forall f :: f in config ==> KnownExtension(f)
    requires MissingThumbnails(config, frames, stored) == missing
    requires SucceedingPrefix(missing, render) == |missing|
    requires StoredEntries(missing, render) == entries
    ensures MetadataAfter(config, frames, stored, render) == stored + entries
  {
    assert missing[..|missing|] == missing;
  }

  /** One format that renders. */
  lemma RendersOne(a: Format, render: Format -> RenderOutcome)
    requires render(a).Rendered? && KnownExtension(a)
    ensures SucceedingPrefix([a], render) == 1
    ensures StoredEntries([a], render) == [StoredEntry(a, render(a))]
  {
    assert [a][..0] == [];
  }

  /** Two formats that both render. */
  lemma RendersTwo(a: Format, b: Format, render: Format -> RenderOutcome)
    requires render(a).Rendered? && KnownExtension(a)
    requires render(b).Rendered? && KnownExtension(b)
    ensures SucceedingPrefix([a, b], render) == 2
    ensures StoredEntries([a, b], render) == [StoredEntry(a, render(a)), StoredEntry(b, render(b))]
  {
    assert [a, b][1..] == [b];
    assert [a, b][..1] == [a];
    RendersOne(a, render);
    RendersOne(b, render);
  }

  const WebpAnim := ThumbnailFormat("webp", 100, 75, true, "")
  const WebpStill := ThumbnailFormat("webp", 100, 75, false, "")
  const BigWebpStill := ThumbnailFormat("webp", 150, 100, false, "Q=90")
  const JpegStill := ThumbnailFormat("jpg", 100, 75, false, "")
  const BigJpegStill := ThumbnailFormat("jpg", 200, 150, false, "")
  const AnyAccept := [Accepted(AnyType, 1000)]

  /** Every configuration below uses image extensions with a known content type. */
  lemma KnownConfigs()
    ensures forall f :: f in [WebpAnim] ==> KnownExtension(f)
    ensures forall f :: f in [WebpStill] ==> KnownExtension(f)
    ensures forall f :: f in [BigWebpStill] ==> KnownExtension(f)
    ensures forall f :: f in [WebpAnim, WebpStill] ==> KnownExtension(f)
    ensures forall f :: f in [WebpStill, JpegStill, BigJpegStill] ==> KnownExtension(f)
    ensures forall f :: f in [WebpAnim, WebpStill, JpegStill] ==> KnownExtension(f)
  {
    assert KnownExtension(WebpAnim) && KnownExtension(WebpStill) && KnownExtension(BigWebpStill);
    assert KnownExtension(JpegStill) && KnownExtension(BigJpegStill);
  }

  /** The animated 128x56 upload of `animated_unequal_img.gif`, three frames long. */
  const AnimatedUnequal := Original(128, 56, 3, true)
  const RenderedAnim := StoredFormat("webp", 100, 75, true, "image/webp", 100, 44, 1000)
  const RenderedStill := StoredFormat("webp", 100, 75, false, "image/webp", 100, 44, 1000)
  const RenderedBigStill := StoredFormat("webp", 150, 100, false, "image/webp", 128, 56, 1000)
  const RenderedJpeg := StoredFormat("jpg", 100, 75, false, "image/jpeg", 100, 44, 1000)
  const RenderedBigJpeg := StoredFormat("jpg", 200, 150, false, "image/jpeg", 128, 56, 1000)

  /** The 128x56 original fits a 100x75 box at 100x44 and is kept at its own size in the larger boxes. */
  lemma AnimatedUnequalRenders()
    ensures RendererFor(AnimatedUnequal)(WebpAnim) == Rendered(100, 44, 1000)
    ensures RendererFor(AnimatedUnequal)(WebpStill) == Rendered(100, 44, 1000)
    ensures RendererFor(AnimatedUnequal)(JpegStill) == Rendered(100, 44, 1000)
    ensures RendererFor(AnimatedUnequal)(BigWebpStill) == Rendered(128, 56, 1000)
    ensures RendererFor(AnimatedUnequal)(BigJpegStill) == Rendered(128, 56, 1000)
  {
    assert FitWithin(128, 56, 100, 75) == (100, 44);
  }

  /** The first call on the animated upload: its one format is missing and renders at 100x44. */
  lemma AnimatedFirstCall()
    ensures SucceedingPrefix(MissingThumbnails([WebpAnim], 3, []), RendererFor(AnimatedUnequal)) == 1
    ensures MetadataAfter([WebpAnim], 3, [], RendererFor(AnimatedUnequal)) == [RenderedAnim]
  {
    assert MissingThumbnails([WebpAnim], 3, []) == [WebpAnim];
    AnimatedUnequalRenders();
    RendersOne(WebpAnim, RendererFor(AnimatedUnequal));
    CompleteCall([WebpAnim], 3, [], RendererFor(AnimatedUnequal), [WebpAnim], [RenderedAnim]);
  }

  /** A second call on the animated upload: nothing is missing, so nothing changes. */
  lemma AnimatedSecondCall()
    ensures MissingThumbnails([WebpAnim], 3, [RenderedAnim]) == []
    ensures MetadataAfter([WebpAnim], 3, [RenderedAnim], RendererFor(AnimatedUnequal)) == [RenderedAnim]
  {
    AnimatedFirstCall();
    NothingMissingAfterEnsure([WebpAnim], 3, [], RendererFor(AnimatedUnequal));
  }

  /** The larger still format is missing beside the animated rendering and renders at the original's size. */
  lemma AnimatedBiggerCall()
    ensures SucceedingPrefix(MissingThumbnails([BigWebpStill], 3, [RenderedAnim]), RendererFor(AnimatedUnequal)) == 1
    ensures MetadataAfter([BigWebpStill], 3, [RenderedAnim], RendererFor(AnimatedUnequal))
         == [RenderedAnim, RenderedBigStill]
  {
    assert !SameFormat(BigWebpStill, [RenderedAnim][0]);
    assert !IsStored(BigWebpStill, [RenderedAnim]);
    assert MissingThumbnails([BigWebpStill], 3, [RenderedAnim]) == [BigWebpStill];
    AnimatedUnequalRenders();
    RendersOne(BigWebpStill, RendererFor(AnimatedUnequal));
    CompleteCall([BigWebpStill], 3, [RenderedAnim], RendererFor(AnimatedUnequal), [BigWebpStill], [RenderedBigStill]);
  }

  /** The names and storage path of the animated rendering. */
  lemma AnimatedNames()
    ensures Str(RenderedAnim) == "100x75-anim.webp"
    ensures Str(RenderedBigStill) == "150x100.webp"
    ensures ThumbnailPath("2/ab/animated_unequal_img.gif", RenderedAnim)
         == "thumbnail/" + "2/ab/animated_unequal_img.gif" + "/" + "100x75-anim.webp"
    ensures SplitThumbnailPath("thumbnail/" + "2/ab/animated_unequal_img.gif" + "/" + "100x75-anim.webp")
         == Some(("2/ab/animated_unequal_img.gif", BaseFormat("webp", 100, 75, true)))
  {
    Numerals();
    assert Str(RenderedAnim) == Spell(Digits(100), Digits(75), true, "webp");
    assert Spell("100", "75", true, "webp") == "100x75-anim.webp";
    assert Str(RenderedBigStill) == Spell(Digits(150), Digits(100), false, "webp");
    assert Spell("150", "100", false, "webp") == "150x100.webp";
    SplitThumbnailPathRoundTrip("2/ab/animated_unequal_img.gif", RenderedAnim);
  }

  /**
    * An animated 128x56 upload with one configured animated format: the
    * worker stores a 100x44 rendering under `100x75-anim.webp`, whose path
    * splits back into the upload's path id; a second call renders nothing;
    * a larger still format is then configured instead and rendered at the
    * original's 128x56, since nothing is scaled up.
    */
  method UploadAnimatedImage() returns (first: nat, again: nat, bigger: nat, generated: Format, biggerThumbnail: Format)
    ensures first == 1 && again == 0 && bigger == 1
    ensures generated == RenderedAnim && Str(generated) == "100x75-anim.webp"
    ensures SplitThumbnailPath(ThumbnailPath("2/ab/animated_unequal_img.gif", generated))
         == Some(("2/ab/animated_unequal_img.gif", generated.Identity()))
    ensures biggerThumbnail == RenderedBigStill && Str(biggerThumbnail) == "150x100.webp"
  {
    KnownConfigs();
    var pathId := "2/ab/animated_unequal_img.gif";
    var image := new ImageAttachment(pathId, 128, 56, 3, []);
    var render := RendererFor(AnimatedUnequal);
    AnimatedFirstCall();
    first := EnsureThumbnails(image, [WebpAnim], render);
    generated := image.thumbnailMetadata[0];
    AnimatedNames();

    AnimatedSecondCall();
    again := EnsureThumbnails(image, [WebpAnim], render);

    AnimatedBiggerCall();
    bigger := EnsureThumbnails(image, [BigWebpStill], render);
    biggerThumbnail := image.thumbnailMetadata[1];
  }

  /**
    * A truncated upload whose one missing rendering fails: the worker reports
    * nothing rendered and deletes the attachment.
    */
  method BadUpload() returns (missingBefore: nat, written: nat, stillSaved: bool)
    ensures missingBefore == 1 && written == 0 && !stillSaved
  {
    KnownConfigs();
    var image := new ImageAttachment("2/cd/truncated.gif", 128, 128, 1, []);
    assert MissingThumbnails([WebpStill], 1, []) == [WebpStill];
    missingBefore := |MissingThumbnails([WebpStill], image.frames, image.thumbnailMetadata)|;
    written := EnsureThumbnails(image, [WebpStill], RendererFor(Original(128, 128, 1, false)));
    stillSaved := image.saved;
  }

  /** The animated upload rendered for an animated and a still webp. */
  lemma BothWebpCall()
    ensures SucceedingPrefix(MissingThumbnails([WebpAnim, WebpStill], 3, []), RendererFor(AnimatedUnequal)) == 2
    ensures MetadataAfter([WebpAnim, WebpStill], 3, [], RendererFor(AnimatedUnequal)) == [RenderedAnim, RenderedStill]
  {
    assert MissingThumbnails([WebpAnim, WebpStill][1..], 3, []) == [WebpStill];
    assert MissingThumbnails([WebpAnim, WebpStill], 3, []) == [WebpAnim, WebpStill];
    AnimatedUnequalRenders();
    RendersTwo(WebpAnim, WebpStill, RendererFor(AnimatedUnequal));
    CompleteCall([WebpAnim, WebpStill], 3, [], RendererFor(AnimatedUnequal), [WebpAnim, WebpStill],
                 [RenderedAnim, RenderedStill]);
  }

  /** After the two webp renderings, the shrunk configuration misses nothing. */
  lemma ShrunkCall()
    ensures MissingThumbnails([WebpStill], 3, [RenderedAnim, RenderedStill]) == []
    ensures MetadataAfter([WebpStill], 3, [RenderedAnim, RenderedStill], RendererFor(AnimatedUnequal))
         == [RenderedAnim, RenderedStill]
  {
    assert IsStored(WebpStill, [RenderedAnim, RenderedStill]) by {
      assert SameFormat(WebpStill, [RenderedAnim, RenderedStill][1]);
    }
  }

  /** The grown configuration misses exactly the two jpg formats. */
  lemma GrownMissing()
    ensures MissingThumbnails([WebpStill, JpegStill, BigJpegStill], 3, [RenderedAnim, RenderedStill])
         == [JpegStill, BigJpegStill]
  {
    var stored := [RenderedAnim, RenderedStill];
    var grown := [WebpStill, JpegStill, BigJpegStill];
    assert IsStored(WebpStill, stored) by {
      assert SameFormat(WebpStill, stored[1]);
    }
    assert !IsStored(JpegStill, stored);
    assert !IsStored(BigJpegStill, stored);
    assert MissingThumbnails(grown[2..], 3, stored) == [BigJpegStill];
    assert MissingThumbnails(grown[1..], 3, stored) == [JpegStill, BigJpegStill];
  }

  /** The grown configuration renders the two jpg formats at 100x44 and 128x56. */
  lemma GrownCall()
    ensures SucceedingPrefix(MissingThumbnails([WebpStill, JpegStill, BigJpegStill], 3, [RenderedAnim, RenderedStill]),
                             RendererFor(AnimatedUnequal)) == 2
    ensures MetadataAfter([WebpStill, JpegStill, BigJpegStill], 3, [RenderedAnim, RenderedStill], RendererFor(AnimatedUnequal))
         == [RenderedAnim, RenderedStill, RenderedJpeg, RenderedBigJpeg]
  {
    GrownMissing();
    AnimatedUnequalRenders();
    RendersTwo(JpegStill, BigJpegStill, RendererFor(AnimatedUnequal));
    CompleteCall([WebpStill, JpegStill, BigJpegStill], 3, [RenderedAnim, RenderedStill], RendererFor(AnimatedUnequal),
                 [JpegStill, BigJpegStill], [RenderedJpeg, RenderedBigJpeg]);
  }

  /** Once the grown configuration is rendered, nothing more is missing, so a call changes nothing. */
  lemma RegrownCall()
    ensures MissingThumbnails([WebpStill, JpegStill, BigJpegStill], 3,
                              [RenderedAnim, RenderedStill, RenderedJpeg, RenderedBigJpeg]) == []
    ensures MetadataAfter([WebpStill, JpegStill, BigJpegStill], 3,
                          [RenderedAnim, RenderedStill, RenderedJpeg, RenderedBigJpeg], RendererFor(AnimatedUnequal))
         == [RenderedAnim, RenderedStill, RenderedJpeg, RenderedBigJpeg]
  {
    GrownMissing();
    GrownCall();
    NothingMissingAfterEnsure([WebpStill, JpegStill, BigJpegStill], 3, [RenderedAnim, RenderedStill],
                              RendererFor(AnimatedUnequal));
  }

  /** The animated webp is served as rendered. */
  lemma ServesRenderedAnim()
    ensures ChooseRendered(WebpAnim, AnyAccept, [RenderedAnim, RenderedStill]) == Some(RenderedAnim)
  {
    assert FirstSame(WebpAnim, [RenderedAnim, RenderedStill]) == 0;
  }

  /**
    * An animated upload rendered for an animated and a still webp. Shrinking
    * the configuration to the still webp renders nothing, and the animated
    * webp is still served as rendered.
    */
  method ShrinkConfiguration() returns (initial: nat, shrunk: nat, servedAnim: Option<Format>, metadata: seq<Format>)
    ensures initial == 2 && shrunk == 0
    ensures servedAnim == Some(RenderedAnim) && SameFormat(servedAnim.value, WebpAnim)
    ensures metadata == [RenderedAnim, RenderedStill]
  {
    KnownConfigs();
    var image := new ImageAttachment("2/ef/animated_unequal_img.gif", 128, 56, 3, []);
    var render := RendererFor(AnimatedUnequal);
    BothWebpCall();
    initial := EnsureThumbnails(image, [WebpAnim, WebpStill], render);
    ShrunkCall();
    shrunk := EnsureThumbnails(image, [WebpStill], render);
    ServesRenderedAnim();
    servedAnim := ChooseRendered(WebpAnim, AnyAccept, image.thumbnailMetadata);
    metadata := image.thumbnailMetadata;
  }

  /** Both jpg formats are served as rendered once the grown configuration is rendered. */
  lemma GrownServes()
    ensures !IsStored(JpegStill, [RenderedAnim, RenderedStill]) && IsStored(JpegStill, [WebpStill, JpegStill, BigJpegStill])
    ensures IsStored(BigJpegStill, [RenderedAnim, RenderedStill, RenderedJpeg, RenderedBigJpeg])
    ensures ChooseRendered(JpegStill, AnyAccept, [RenderedAnim, RenderedStill, RenderedJpeg, RenderedBigJpeg])
         == Some(RenderedJpeg)
    ensures ChooseRendered(BigJpegStill, AnyAccept, [RenderedAnim, RenderedStill, RenderedJpeg, RenderedBigJpeg])
         == Some(RenderedBigJpeg)
  {
    var rendered := [RenderedAnim, RenderedStill, RenderedJpeg, RenderedBigJpeg];
    assert SameFormat(JpegStill, rendered[2]) && SameFormat(BigJpegStill, rendered[3]);
    assert SameFormat(JpegStill, [WebpStill, JpegStill, BigJpegStill][1]);
    assert FirstSame(JpegStill, rendered) == 2;
    assert FirstSame(BigJpegStill, rendered) == 3;
  }

  /**
    * The same upload, its two webp formats rendered, after the configuration
    * grows by two jpg formats: one call renders exactly those two, after which
    * a call renders nothing more.
    */
  method GrowConfiguration() returns (grown: nat, regrown: nat, metadata: seq<Format>)
    ensures grown == 2 && regrown == 0
    ensures metadata == [RenderedAnim, RenderedStill, RenderedJpeg, RenderedBigJpeg]
  {
    KnownConfigs();
    var image := new ImageAttachment("2/ef/animated_unequal_img.gif", 128, 56, 3, [RenderedAnim, RenderedStill]);
    var render := RendererFor(AnimatedUnequal);
    var grownConfig := [WebpStill, JpegStill, BigJpegStill];
    GrownCall();
    grown := EnsureThumbnails(image, grownConfig, render);
    RegrownCall();
    regrown := EnsureThumbnails(image, grownConfig, render);
    metadata := image.thumbnailMetadata;
  }

  /**
    * Once the grown configuration is rendered, the request for the big jpg
    * renders nothing and is served the big jpg.
    */
  method RequestRenderedFormat() returns (regrown: nat, big: Option<Format>, metadata: seq<Format>)
    ensures regrown == 0 && big == Some(RenderedBigJpeg)
    ensures metadata == [RenderedAnim, RenderedStill, RenderedJpeg, RenderedBigJpeg]
  {
    KnownConfigs();
    var image := new ImageAttachment("2/ef/animated_unequal_img.gif", 128, 56, 3,
                                     [RenderedAnim, RenderedStill, RenderedJpeg, RenderedBigJpeg]);
    GrownServes();
    regrown, big := ServeThumbnail(image, [WebpStill, JpegStill, BigJpegStill], BigJpegStill, AnyAccept,
                                   RendererFor(AnimatedUnequal));
    metadata := image.thumbnailMetadata;
  }

  /** The 128x96 still `img.tif`. */
  const StillTif := Original(128, 96, 1, true)
  const TifWebp := StoredFormat("webp", 100, 75, false, "image/webp", 100, 75, 1000)
  const TifJpeg := StoredFormat("jpg", 100, 75, false, "image/jpeg", 100, 75, 1000)

  /** A still original skips the animated format. */
  lemma StillTifMissing()
    ensures MissingThumbnails([WebpAnim, WebpStill, JpegStill], 1, []) == [WebpStill, JpegStill]
  {
    var config := [WebpAnim, WebpStill, JpegStill];
    assert MissingThumbnails(config[2..], 1, []) == [JpegStill];
    assert MissingThumbnails(config[1..], 1, []) == [WebpStill, JpegStill];
  }

  /** The still original renders both still formats at 100x75. */
  lemma StillTifCall()
    ensures SucceedingPrefix(MissingThumbnails([WebpAnim, WebpStill, JpegStill], 1, []), RendererFor(StillTif)) == 2
    ensures MetadataAfter([WebpAnim, WebpStill, JpegStill], 1, [], RendererFor(StillTif)) == [TifWebp, TifJpeg]
  {
    StillTifMissing();
    assert FitWithin(128, 96, 100, 75) == (100, 75);
    assert RendererFor(StillTif)(WebpStill) == Rendered(100, 75, 1000);
    assert RendererFor(StillTif)(JpegStill) == Rendered(100, 75, 1000);
    RendersTwo(WebpStill, JpegStill, RendererFor(StillTif));
    CompleteCall([WebpAnim, WebpStill, JpegStill], 1, [], RendererFor(StillTif), [WebpStill, JpegStill],
                 [TifWebp, TifJpeg]);
  }

  /** A request for the unrendered animated webp is served the still webp rather than the jpg. */
  lemma StillTifServesAnimated()
    ensures ChooseRendered(WebpAnim, AnyAccept, [TifWebp, TifJpeg]) == Some(TifWebp)
  {
    var rendered := [TifWebp, TifJpeg];
    assert !IsStored(WebpAnim, rendered);
    assert QFor("image/webp", AnyAccept) == 1000 && QFor("image/jpeg", AnyAccept) == 1000;
    assert RankOf(WebpAnim, AnyAccept, rendered[0]) == Rank(true, false, 1000, 0, 1000);
    assert RankOf(WebpAnim, AnyAccept, rendered[1]) == Rank(true, true, 1000, 0, 1000);
    StrictBestIsChosen(WebpAnim, AnyAccept, rendered, 0);
  }

  /**
    * A still upload with an animated format configured renders only the two
    * still formats; a request for the animated one is served the still webp.
    */
  method StaticUpload() returns (written: nat, servedAnim: Option<Format>, servedStill: Option<Format>, servedJpeg: Option<Format>)
    ensures written == 2
    ensures servedAnim == Some(TifWebp) && servedAnim == servedStill
    ensures servedJpeg == Some(TifJpeg)
  {
    KnownConfigs();
    var image := new ImageAttachment("2/gh/img.tif", 128, 96, 1, []);
    StillTifCall();
    written := EnsureThumbnails(image, [WebpAnim, WebpStill, JpegStill], RendererFor(StillTif));
    var rendered := image.thumbnailMetadata;
    StillTifServesAnimated();
    servedAnim := ChooseRendered(WebpAnim, AnyAccept, rendered);
    assert FirstSame(WebpStill, rendered) == 0;
    servedStill := ChooseRendered(WebpStill, AnyAccept, rendered);
    assert FirstSame(JpegStill, rendered) == 1;
    servedJpeg := ChooseRendered(JpegStill, AnyAccept, rendered);
  }

  // ----- Closest format -----

  /**
    * Renderings of a square animated original for an animated webp, a still
    * webp, a tiny still webp and a still gif; the still webp encodes smaller
    * than the still gif.
    */
  const ClosestFixture := [
    StoredFormat("webp", 100, 75, true, "image/webp", 75, 75, 3000),
    StoredFormat("webp", 100, 75, false, "image/webp", 75, 75, 1000),
    StoredFormat("webp", 10, 10, false, "image/webp", 10, 10, 200),
    StoredFormat("gif", 100, 75, false, "image/gif", 75, 75, 2000)
  ]

  /** A browser's `image/webp, image/*, */*;q=0.8`. */
  const BrowserAccepts := [Accepted(ExactType("image/webp"), 1000), Accepted(AnySubtype("image"), 1000), Accepted(AnyType, 800)]
  /** `image/webp;q=0.9, image/gif`. */
  const GifOverWebp := [Accepted(ExactType("image/webp"), 900), Accepted(ExactType("image/gif"), 1000)]
  const GifOnly := [Accepted(ExactType("image/gif"), 1000)]
  const GifAndWebp := [Accepted(ExactType("image/gif"), 1000), Accepted(ExactType("image/webp"), 1000)]

  /** The Accept weights of the two rendered content types under each Accept list. */
  lemma BrowserWeights()
    ensures QFor("image/webp", BrowserAccepts) == 1000 && QFor("image/gif", BrowserAccepts) == 1000
  {
    assert Matches(BrowserAccepts[0].range, "image/webp");
    assert Matches(BrowserAccepts[1].range, "image/gif");
  }

  lemma GifOverWebpWeights()
    ensures QFor("image/webp", GifOverWebp) == 900 && QFor("image/gif", GifOverWebp) == 1000
  {
    assert Matches(GifOverWebp[0].range, "image/webp") && !Matches(GifOverWebp[1].range, "image/webp");
    assert Matches(GifOverWebp[1].range, "image/gif");
  }

  lemma GifOnlyWeights()
    ensures QFor("image/webp", GifOnly) == 0 && QFor("image/gif", GifOnly) == 1000
  {
    assert !Matches(GifOnly[0].range, "image/webp");
  }

  lemma GifAndWebpWeights()
    ensures QFor("image/webp", GifAndWebp) == 1000 && QFor("image/gif", GifAndWebp) == 1000
  {
    assert Matches(GifAndWebp[0].range, "image/gif") && Matches(GifAndWebp[1].range, "image/webp");
  }

  /** The string forms of the fixture's entries. */
  lemma FixtureNames()
    ensures Str(ClosestFixture[0]) == "100x75-anim.webp"
    ensures Str(ClosestFixture[1]) == "100x75.webp"
    ensures Str(ClosestFixture[2]) == "10x10.webp"
    ensures Str(ClosestFixture[3]) == "100x75.gif"
  {
    Numerals();
    assert Str(ClosestFixture[0]) == Spell(Digits(100), Digits(75), true, "webp");
    assert Spell("100", "75", true, "webp") == "100x75-anim.webp";
    assert Str(ClosestFixture[1]) == Spell(Digits(100), Digits(75), false, "webp");
    assert Spell("100", "75", false, "webp") == "100x75.webp";
    assert Str(ClosestFixture[2]) == Spell(Digits(10), Digits(10), false, "webp");
    assert Spell("10", "10", false, "webp") == "10x10.webp";
    assert Str(ClosestFixture[3]) == Spell(Digits(100), Digits(75), false, "gif");
    assert Spell("100", "75", false, "gif") == "100x75.gif";
  }

  /** With the fixture's four ranks given, the entry whose rank outranks the other three is chosen. */
  lemma ChosenFromFixture(req: Format, accepts: seq<Accepted>, i: nat, best: Rank, r0: Rank, r1: Rank, r2: Rank, r3: Rank)
    requires RankOf(req, accepts, ClosestFixture[0]) == r0
    requires RankOf(req, accepts, ClosestFixture[1]) == r1
    requires RankOf(req, accepts, ClosestFixture[2]) == r2
    requires RankOf(req, accepts, ClosestFixture[3]) == r3
    requires (i == 0 && best == r0) || (i == 1 && best == r1) || (i == 2 && best == r2) || (i == 3 && best == r3)
    requires (i == 0 || Outranks(best, r0)) && (i == 1 || Outranks(best, r1))
    requires (i == 2 || Outranks(best, r2)) && (i == 3 || Outranks(best, r3))
    ensures ClosestThumbnailFormat(req, accepts, ClosestFixture) == Some(ClosestFixture[i])
  {
    StrictBestIsChosen(req, accepts, ClosestFixture, i);
  }

  /** A matching animated flag beats a matching extension. */
  lemma ClosestPrefersAnimated()
    ensures ClosestThumbnailFormat(BaseFormat("gif", 100, 75, true), BrowserAccepts, ClosestFixture) == Some(ClosestFixture[0])
  {
    BrowserWeights();
    var req := BaseFormat("gif", 100, 75, true);
    ChosenFromFixture(req, BrowserAccepts, 0, Rank(false, true, 1000, 25, 3000),
                      Rank(false, true, 1000, 25, 3000),
                      Rank(true, true, 1000, 25, 1000),
                      Rank(true, true, 1000, 90, 200),
                      Rank(true, false, 1000, 25, 2000));
  }

  /** A matching extension beats an exact size. */
  lemma ClosestPrefersExtension()
    ensures ClosestThumbnailFormat(BaseFormat("gif", 10, 10, false), BrowserAccepts, ClosestFixture) == Some(ClosestFixture[3])
  {
    BrowserWeights();
    var req := BaseFormat("gif", 10, 10, false);
    ChosenFromFixture(req, BrowserAccepts, 3, Rank(false, false, 1000, 65, 2000),
                      Rank(true, true, 1000, 65, 3000),
                      Rank(false, true, 1000, 65, 1000),
                      Rank(false, true, 1000, 0, 200),
                      Rank(false, false, 1000, 65, 2000));
  }

  /** Without an extension match, a browser's equal weights leave the width to decide. */
  lemma ClosestByWidthWithoutExtension()
    ensures ClosestThumbnailFormat(BaseFormat("tif", 10, 10, false), BrowserAccepts, ClosestFixture) == Some(ClosestFixture[2])
  {
    BrowserWeights();
    var req := BaseFormat("tif", 10, 10, false);
    ChosenFromFixture(req, BrowserAccepts, 2, Rank(false, true, 1000, 0, 200),
                      Rank(true, true, 1000, 65, 3000),
                      Rank(false, true, 1000, 65, 1000),
                      Rank(false, true, 1000, 0, 200),
                      Rank(false, true, 1000, 65, 2000));
  }

  /** Without an extension match, the Accept weight decides. */
  lemma ClosestByAcceptWeight()
    ensures ClosestThumbnailFormat(BaseFormat("tif", 10, 10, false), GifOverWebp, ClosestFixture) == Some(ClosestFixture[3])
  {
    GifOverWebpWeights();
    var req := BaseFormat("tif", 10, 10, false);
    ChosenFromFixture(req, GifOverWebp, 3, Rank(false, true, 1000, 65, 2000),
                      Rank(true, true, 900, 65, 3000),
                      Rank(false, true, 900, 65, 1000),
                      Rank(false, true, 900, 0, 200),
                      Rank(false, true, 1000, 65, 2000));
  }

  /** A content type the client does not list at all ranks below one it does. */
  lemma ClosestByOnlyAccepted()
    ensures ClosestThumbnailFormat(BaseFormat("tif", 10, 10, false), GifOnly, ClosestFixture) == Some(ClosestFixture[3])
  {
    GifOnlyWeights();
    var req := BaseFormat("tif", 10, 10, false);
    ChosenFromFixture(req, GifOnly, 3, Rank(false, true, 1000, 65, 2000),
                      Rank(true, true, 0, 65, 3000),
                      Rank(false, true, 0, 65, 1000),
                      Rank(false, true, 0, 0, 200),
                      Rank(false, true, 1000, 65, 2000));
  }

  /** Among formats of the requested extension, the closest width wins. */
  lemma ClosestByWidthNarrow()
    ensures ClosestThumbnailFormat(BaseFormat("webp", 20, 100, false), BrowserAccepts, ClosestFixture) == Some(ClosestFixture[2])
  {
    BrowserWeights();
    var req := BaseFormat("webp", 20, 100, false);
    ChosenFromFixture(req, BrowserAccepts, 2, Rank(false, false, 1000, 10, 200),
                      Rank(true, false, 1000, 55, 3000),
                      Rank(false, false, 1000, 55, 1000),
                      Rank(false, false, 1000, 10, 200),
                      Rank(false, true, 1000, 55, 2000));
  }

  lemma ClosestByWidthWide()
    ensures ClosestThumbnailFormat(BaseFormat("webp", 80, 10, false), BrowserAccepts, ClosestFixture) == Some(ClosestFixture[1])
  {
    BrowserWeights();
    var req := BaseFormat("webp", 80, 10, false);
    ChosenFromFixture(req, BrowserAccepts, 1, Rank(false, false, 1000, 5, 1000),
                      Rank(true, false, 1000, 5, 3000),
                      Rank(false, false, 1000, 5, 1000),
                      Rank(false, false, 1000, 70, 200),
                      Rank(false, true, 1000, 5, 2000));
  }

  /** With equal weights and widths, the smaller file wins. */
  lemma ClosestBySize()
    ensures ClosestThumbnailFormat(BaseFormat("tif", 100, 75, false), GifAndWebp, ClosestFixture) == Some(ClosestFixture[1])
  {
    GifAndWebpWeights();
    var req := BaseFormat("tif", 100, 75, false);
    ChosenFromFixture(req, GifAndWebp, 1, Rank(false, true, 1000, 25, 1000),
                      Rank(true, true, 1000, 25, 3000),
                      Rank(false, true, 1000, 25, 1000),
                      Rank(false, true, 1000, 90, 200),
                      Rank(false, true, 1000, 25, 2000));
  }
}

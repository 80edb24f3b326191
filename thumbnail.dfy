/**
  * Thumbnail formats and the pure helpers around them: the three format
  * classes, their identity equality, the canonical string form
  * `{max_width}x{max_height}[-anim].{extension}` and its soft-failing parser,
  * the `thumbnail/{path_id}/{format}` storage paths, and the computation of
  * which configured formats an image is still missing.
  */
module Thumbnail {
  import opened Wrappers
  import opened Decimal

  /**
    * `BaseThumbnailFormat` and its two subclasses. `ThumbnailFormat` adds the
    * encoder options; `StoredThumbnailFormat` adds what a rendering actually
    * produced. All three share the four identity fields.
    */
  datatype Format =
    | BaseFormat(extension: string, maxWidth: nat, maxHeight: nat, animated: bool)
    | ThumbnailFormat(extension: string, maxWidth: nat, maxHeight: nat, animated: bool, opts: string)
    | StoredFormat(extension: string, maxWidth: nat, maxHeight: nat, animated: bool,
                   contentType: string, width: nat, height: nat, byteSize: nat)
  {
    /** The base format with the same identity fields, as parsing gives it back. */
    function Identity(): Format {
      BaseFormat(extension, maxWidth, maxHeight, animated)
    }
  }

  /** Equality of formats: the four identity fields, whatever the class. */
  predicate SameFormat(a: Format, b: Format)
    ensures SameFormat(a, b) <==> a.Identity() == b.Identity()
  {
    a.extension == b.extension && a.maxWidth == b.maxWidth &&
    a.maxHeight == b.maxHeight && a.animated == b.animated
  }

  /** The operand of `==` in Python, which may be a format or some other value such as a string. */
  datatype Value = FormatValue(format: Format) | TextValue(text: string)

  /** `format == other`: only another format can be equal to a format. */
  predicate Equals(a: Format, other: Value)
    ensures Equals(a, other) ==> other.FormatValue?
    ensures other.FormatValue? ==> (Equals(a, other) <==> SameFormat(other.format, a))
  {
    other.FormatValue? && SameFormat(a, other.format)
  }

  function AnimSuffix(animated: bool): string {
    if animated then "-anim" else ""
  }

  /** The string `{w}x{h}[-anim].{ext}` for the numerals w and h. */
  function Spell(w: string, h: string, animated: bool, ext: string): string {
    w + (['x'] + (h + (AnimSuffix(animated) + (['.'] + ext))))
  }

  /** `str(format)`: the stable name written into message URLs. */
  function Str(f: Format): string {
    Spell(Digits(f.maxWidth), Digits(f.maxHeight), f.animated, f.extension)
  }

  /**
    * The string form ends in `.` and the extension; before that comes `-anim`
    * for an animated format and the last digit of the height for a still one.
    */
  lemma StrEndsWithExtension(f: Format)
    ensures var s := Str(f);
            var n := |f.extension| + 1;
            n + 1 < |s| && s[|s| - n..] == ['.'] + f.extension &&
            (f.animated ==> n + 5 < |s| && s[|s| - n - 5..|s| - n] == "-anim") &&
            (!f.animated ==> IsDigit(s[|s| - n - 1]))
  {
    var h := Digits(f.maxHeight);
    var head := Digits(f.maxWidth) + ['x'] + h;
    var tail := ['.'] + f.extension;
    assert Str(f) == head + AnimSuffix(f.animated) + tail;
    assert head[|head| - 1] == h[|h| - 1];
  }

  /** A character of the regular-expression class `\w`, restricted to ASCII. */
  predicate IsWordChar(c: char) {
    IsDigit(c) || 'a' <= c <= 'z' || 'A' <= c <= 'Z' || c == '_'
  }

  /** An extension the grammar accepts: one or more word characters. */
  predicate ValidExtension(ext: string) {
    |ext| > 0 && forall i :: 0 <= i < |ext| ==> IsWordChar(ext[i])
  }

  /** The number at the front of s (a maximal, non-empty run of digits) and the rest of s. */
  function ReadNumber(s: string): Option<(nat, string)> {
    var k := DigitRun(s);
    if k == 0 then None else Some((ValueOf(s[..k]), s[k..]))
  }

  lemma ReadNumeral(d: string, rest: string)
    requires |d| > 0 && AllDigits(d)
    requires rest != [] ==> !IsDigit(rest[0])
    ensures ReadNumber(d + rest) == Some((ValueOf(d), rest))
  {
    DigitRunOfNumeral(d, rest);
    assert (d + rest)[..|d|] == d;
    assert (d + rest)[|d|..] == rest;
  }

  lemma ReadNumberSound(s: string, n: nat, rest: string)
    requires ReadNumber(s) == Some((n, rest))
    ensures exists d :: |d| > 0 && AllDigits(d) && n == ValueOf(d) && s == d + rest
  {
    var k := DigitRun(s);
    assert s == s[..k] + s[k..];
  }

  /** The `[-anim].EXT` tail: the animated flag and the extension. */
  function ReadTail(u: string): Option<(bool, string)> {
    if |u| >= 6 && u[..6] == "-anim." then Some((true, u[6..]))
    else if |u| >= 1 && u[0] == '.' then Some((false, u[1..]))
    else None
  }

  lemma ReadTailOf(animated: bool, ext: string)
    ensures ReadTail(AnimSuffix(animated) + (['.'] + ext)) == Some((animated, ext))
  {
    var u := AnimSuffix(animated) + (['.'] + ext);
    if animated {
      assert u[..6] == "-anim." && u[6..] == ext;
    } else {
      assert u[0] == '.' && u[1..] == ext;
    }
  }

  lemma ReadTailSound(u: string, animated: bool, ext: string)
    requires ReadTail(u) == Some((animated, ext))
    ensures u == AnimSuffix(animated) + (['.'] + ext)
  {
    if animated {
      assert u == u[..6] + u[6..];
    } else {
      assert u == u[..1] + u[1..];
    }
  }

  /**
    * The structure of `WIDTHxHEIGHT[-anim].EXT` without any check on EXT:
    * the width and height are maximal digit runs, so the split is unique.
    */
  function Decode(s: string): Option<Format> {
    match ReadNumber(s)
    case None => None
    case Some((w, t)) =>
      if t == [] || t[0] != 'x' then None
      else
        match ReadNumber(t[1..])
        case None => None
        case Some((h, u)) =>
          match ReadTail(u)
          case None => None
          case Some((animated, ext)) => Some(BaseFormat(ext, w, h, animated))
  }

  /** `BaseThumbnailFormat.from_string`: a base format, or None for any string off the grammar. */
  function Parse(s: string): (r: Option<Format>)
    ensures r.Some? ==> r.value.BaseFormat? && ValidExtension(r.value.extension)
  {
    match Decode(s)
    case Some(g) => if ValidExtension(g.extension) then Some(g) else None
    case None => None
  }

  /** Every string of the grammar decodes to the fields it spells, leading zeros included. */
  lemma DecodeGrammar(w: string, h: string, animated: bool, ext: string)
    requires |w| > 0 && AllDigits(w) && |h| > 0 && AllDigits(h)
    ensures Decode(Spell(w, h, animated, ext))
         == Some(BaseFormat(ext, ValueOf(w), ValueOf(h), animated))
  {
    var u := AnimSuffix(animated) + (['.'] + ext);
    var t := ['x'] + (h + u);
    ReadNumeral(w, t);
    assert u[0] == '-' || u[0] == '.';
    assert t[1..] == h + u;
    ReadNumeral(h, u);
    ReadTailOf(animated, ext);
  }

  /** Whatever decodes is a string of the grammar spelling the decoded fields. */
  lemma DecodeSound(s: string, g: Format)
    requires Decode(s) == Some(g)
    ensures g.BaseFormat?
    ensures exists w, h :: |w| > 0 && AllDigits(w) && |h| > 0 && AllDigits(h) &&
                           g.maxWidth == ValueOf(w) && g.maxHeight == ValueOf(h) &&
                           s == Spell(w, h, g.animated, g.extension)
  {
    var (wn, t) := ReadNumber(s).value;
    ReadNumberSound(s, wn, t);
    var w :| |w| > 0 && AllDigits(w) && wn == ValueOf(w) && s == w + t;
    var (hn, u) := ReadNumber(t[1..]).value;
    ReadNumberSound(t[1..], hn, u);
    var h :| |h| > 0 && AllDigits(h) && hn == ValueOf(h) && t[1..] == h + u;
    ReadTailSound(u, g.animated, g.extension);
    assert t == "x" + t[1..];
    assert s == Spell(w, h, g.animated, g.extension);
  }

  /** `from_string` accepts exactly the grammar `WIDTHxHEIGHT[-anim].EXT` with a word-character extension. */
  lemma ParseAccepts(w: string, h: string, animated: bool, ext: string)
    requires |w| > 0 && AllDigits(w) && |h| > 0 && AllDigits(h) && ValidExtension(ext)
    ensures Parse(Spell(w, h, animated, ext))
         == Some(BaseFormat(ext, ValueOf(w), ValueOf(h), animated))
  {
    DecodeGrammar(w, h, animated, ext);
  }

  lemma ParseSound(s: string, g: Format)
    requires Parse(s) == Some(g)
    ensures g.BaseFormat? && ValidExtension(g.extension)
    ensures exists w, h :: |w| > 0 && AllDigits(w) && |h| > 0 && AllDigits(h) &&
                           g.maxWidth == ValueOf(w) && g.maxHeight == ValueOf(h) &&
                           s == Spell(w, h, g.animated, g.extension)
  {
    DecodeSound(s, g);
  }

  /** The four identity fields can be read back out of the string form of any format. */
  lemma DecodeStr(f: Format)
    ensures Decode(Str(f)) == Some(f.Identity())
  {
    DecodeGrammar(Digits(f.maxWidth), Digits(f.maxHeight), f.animated, f.extension);
    ValueOfDigits(f.maxWidth);
    ValueOfDigits(f.maxHeight);
  }

  /** Round trip: parsing the string form recovers the four identity fields and drops the rest. */
  lemma ParseStr(f: Format)
    requires ValidExtension(f.extension)
    ensures Parse(Str(f)) == Some(f.Identity())
    ensures SameFormat(Parse(Str(f)).value, f)
  {
    DecodeStr(f);
  }

  /** Equal on identity fields exactly when the string forms are equal. */
  lemma SameFormatIffSameStr(a: Format, b: Format)
    ensures SameFormat(a, b) <==> Str(a) == Str(b)
  {
    if Str(a) == Str(b) {
      DecodeStr(a);
      DecodeStr(b);
    }
  }

  /** A parsed format prints back to a string that parses to the same format. */
  lemma ParseNormalises(s: string, g: Format)
    requires Parse(s) == Some(g)
    ensures Parse(Str(g)) == Some(g)
  {
    ParseSound(s, g);
    ParseStr(g);
  }

  /** A string without leading zeros in its numbers is the string form of what it parses to. */
  lemma ParseCanonical(w: string, h: string, animated: bool, ext: string)
    requires |w| > 0 && AllDigits(w) && (w[0] == '0' ==> |w| == 1)
    requires |h| > 0 && AllDigits(h) && (h[0] == '0' ==> |h| == 1)
    requires ValidExtension(ext)
    ensures var s := Spell(w, h, animated, ext);
            Parse(s).Some? && Str(Parse(s).value) == s
  {
    ParseAccepts(w, h, animated, ext);
    DigitsOfValue(w);
    DigitsOfValue(h);
  }

  // ----- Storage paths -----

  predicate NoSlash(s: string) {
    forall i :: 0 <= i < |s| ==> s[i] != '/'
  }

  /** The index of the last occurrence of c in s, or -1. */
  function LastIndexOf(s: string, c: char): (r: int)
    ensures -1 <= r < |s|
    ensures r >= 0 ==> s[r] == c
    ensures forall j :: r < j < |s| ==> s[j] != c
  {
    if s == [] then -1
    else if s[|s| - 1] == c then |s| - 1
    else LastIndexOf(s[..|s| - 1], c)
  }

  /** `get_image_thumbnail_path`: where the rendering of f for the upload pathId is stored. */
  function ThumbnailPath(pathId: string, f: Format): (r: string)
    ensures |r| == 11 + |pathId| + |Str(f)|
    ensures r[..10] == "thumbnail/" && r[|r| - |Str(f)|..] == Str(f)
  {
    "thumbnail/" + pathId + "/" + Str(f)
  }

  /**
    * `split_thumbnail_path`: the upload's path id and the format named by the
    * last path component. None where the source's assertions would fail: no
    * `thumbnail/` prefix, or a last component that does not parse.
    */
  function SplitThumbnailPath(p: string): Option<(string, Format)> {
    if |p| < 10 || p[..10] != "thumbnail/" then None
    else
      var k := LastIndexOf(p, '/');
      assert p[9] == '/';
      match Parse(p[k + 1..])
      case None => None
      case Some(g) => Some((if k >= 10 then p[10..k] else "", g))
  }

  /** The error paths: a path outside `thumbnail/`, or one whose last component does not parse, gives None. */
  lemma SplitThumbnailPathRefuses(p: string)
    ensures |p| < 10 || p[..10] != "thumbnail/" ==> SplitThumbnailPath(p) == None
    ensures |p| >= 10 && p[..10] == "thumbnail/" && Parse(p[LastIndexOf(p, '/') + 1..]) == None ==>
              SplitThumbnailPath(p) == None
  {
  }

  lemma StrNoSlash(f: Format)
    requires ValidExtension(f.extension)
    ensures NoSlash(Str(f))
  {
    var ext := f.extension;
    var h := Digits(f.maxHeight);
    NoSlashConcat(['.'], ext);
    NoSlashConcat(AnimSuffix(f.animated), ['.'] + ext);
    NoSlashConcat(h, AnimSuffix(f.animated) + (['.'] + ext));
    NoSlashConcat(['x'], h + (AnimSuffix(f.animated) + (['.'] + ext)));
    NoSlashConcat(Digits(f.maxWidth), ['x'] + (h + (AnimSuffix(f.animated) + (['.'] + ext))));
  }

  lemma NoSlashConcat(a: string, b: string)
    requires NoSlash(a) && NoSlash(b)
    ensures NoSlash(a + b)
  {
  }

  /** Path round trip: splitting the path of a format gives back the path id and the format. */
  lemma SplitThumbnailPathRoundTrip(pathId: string, f: Format)
    requires ValidExtension(f.extension)
    ensures SplitThumbnailPath(ThumbnailPath(pathId, f)) == Some((pathId, f.Identity()))
  {
    var p := ThumbnailPath(pathId, f);
    var s := Str(f);
    StrNoSlash(f);
    var k := LastIndexOf(p, '/');
    var m := 10 + |pathId|;
    assert p == ("thumbnail/" + pathId) + ['/'] + s;
    assert p[m] == '/';
    assert k == m;
    assert p[..10] == "thumbnail/";
    assert p[k + 1..] == s;
    assert p[10..k] == pathId;
    ParseStr(f);
  }

  /** What a split accepts: a thumbnail path whose last component parses to the format returned. */
  lemma SplitThumbnailPathSound(p: string, pathId: string, g: Format)
    requires SplitThumbnailPath(p) == Some((pathId, g))
    ensures exists last :: NoSlash(last) && Parse(last) == Some(g) &&
                           (p == "thumbnail/" + pathId + "/" + last ||
                            (pathId == "" && p == "thumbnail/" + last))
  {
    var k := LastIndexOf(p, '/');
    var last := p[k + 1..];
    LastSlashOfThumbnailPath(p);
    assert NoSlash(last) && Parse(last) == Some(g);
    if k >= 10 {
      assert pathId == p[10..k];
      SplitAround(p, 10, k);
      assert p == "thumbnail/" + pathId + "/" + last;
    } else {
      assert pathId == "";
      SplitAround(p, 10, 9);
      assert p == "thumbnail/" + last;
    }
  }

  lemma LastSlashOfThumbnailPath(p: string)
    requires |p| >= 10 && p[..10] == "thumbnail/"
    ensures 9 <= LastIndexOf(p, '/') && p[LastIndexOf(p, '/')] == '/'
  {
    assert p[9] == "thumbnail/"[9];
  }

  /** p cut at two positions i <= k, dropping the character at k. */
  lemma SplitAround(p: string, i: nat, k: nat)
    requires i <= k + 1 && k < |p|
    ensures i <= k ==> p == p[..i] + p[i..k] + [p[k]] + p[k + 1..]
    ensures i == k + 1 ==> p == p[..i] + p[k + 1..]
  {
  }

  // ----- Missing thumbnails -----

  /** Animated renderings are only made of originals with more than one frame. */
  predicate Applies(f: Format, frames: nat) {
    !f.animated || frames > 1
  }

  /** Some entry of stored equals f on identity. */
  predicate IsStored(f: Format, stored: seq<Format>) {
    exists i :: 0 <= i < |stored| && SameFormat(f, stored[i])
  }

  predicate IsSubsequence<T(==)>(a: seq<T>, b: seq<T>)
    decreases |b|
  {
    a == [] || (b != [] && ((a[0] == b[0] && IsSubsequence(a[1..], b[1..])) || IsSubsequence(a, b[1..])))
  }

  /**
    * `missing_thumbnails`: the configured formats, in configured order, that
    * apply to an original with this many frames and that no stored rendering
    * already satisfies.
    */
  function MissingThumbnails(config: seq<Format>, frames: nat, stored: seq<Format>): (r: seq<Format>)
    ensures IsSubsequence(r, config)
    ensures forall f :: f in r <==> f in config && Applies(f, frames) && !IsStored(f, stored)
  {
    if config == [] then []
    else
      var rest := MissingThumbnails(config[1..], frames, stored);
      if Applies(config[0], frames) && !IsStored(config[0], stored) then [config[0]] + rest else rest
  }

  /** Each configured format that is missing appears as often as it is configured; the others not at all. */
  lemma {:induction false} MissingThumbnailsCount(config: seq<Format>, frames: nat, stored: seq<Format>)
    ensures forall f :: multiset(MissingThumbnails(config, frames, stored))[f] ==
                        if Applies(f, frames) && !IsStored(f, stored) then multiset(config)[f] else 0
  {
    if config != [] {
      MissingThumbnailsCount(config[1..], frames, stored);
      assert config == [config[0]] + config[1..];
    }
  }

  lemma IsStoredInAppended(f: Format, stored: seq<Format>, added: seq<Format>)
    ensures IsStored(f, stored + added) <==> IsStored(f, stored) || IsStored(f, added)
  {
    var all := stored + added;
    if IsStored(f, added) {
      var i :| 0 <= i < |added| && SameFormat(f, added[i]);
      assert all[|stored| + i] == added[i];
    }
    if IsStored(f, stored) {
      var i :| 0 <= i < |stored| && SameFormat(f, stored[i]);
      assert all[i] == stored[i];
    }
    if IsStored(f, all) {
      var i :| 0 <= i < |all| && SameFormat(f, all[i]);
      if i < |stored| {
        assert all[i] == stored[i];
      } else {
        assert all[i] == added[i - |stored|];
      }
    }
  }

  /**
    * Idempotence: once renderings equal to every missing format are stored,
    * nothing is missing any more.
    */
  lemma MissingAfterStoring(config: seq<Format>, frames: nat, stored: seq<Format>, added: seq<Format>)
    requires forall f :: f in MissingThumbnails(config, frames, stored) ==> IsStored(f, added)
    ensures MissingThumbnails(config, frames, stored + added) == []
  {
    var r := MissingThumbnails(config, frames, stored + added);
    if r != [] {
      var f := r[0];
      IsStoredInAppended(f, stored, added);
      assert false;
    }
  }

  /**
    * Incremental growth: after storing renderings for exactly what `previous`
    * was missing, a grown (or otherwise changed) configuration is missing
    * exactly the formats it was missing before that are not in `previous`.
    */
  lemma MissingAfterGrowth(previous: seq<Format>, config: seq<Format>, frames: nat,
                           stored: seq<Format>, added: seq<Format>)
    requires forall f :: f in MissingThumbnails(previous, frames, stored) ==> IsStored(f, added)
    requires forall i :: 0 <= i < |added| ==> IsStored(added[i], MissingThumbnails(previous, frames, stored))
    ensures forall f :: f in MissingThumbnails(config, frames, stored + added) <==>
                        f in MissingThumbnails(config, frames, stored) && !IsStored(f, previous)
  {
    var gap := MissingThumbnails(previous, frames, stored);
    forall f | f in config && Applies(f, frames)
      ensures !IsStored(f, stored + added) <==> !IsStored(f, stored) && !IsStored(f, previous)
    {
      IsStoredInAppended(f, stored, added);
      if IsStored(f, previous) && !IsStored(f, stored) {
        var i :| 0 <= i < |previous| && SameFormat(f, previous[i]);
        var g := previous[i];
        assert g in gap;
        var j :| 0 <= j < |added| && SameFormat(g, added[j]);
        assert SameFormat(f, added[j]);
      }
      if IsStored(f, added) {
        var i :| 0 <= i < |added| && SameFormat(f, added[i]);
        var j :| 0 <= j < |gap| && SameFormat(added[i], gap[j]);
        assert gap[j] in previous;
        var k :| 0 <= k < |previous| && previous[k] == gap[j];
        assert SameFormat(f, previous[k]);
      }
    }
  }
}

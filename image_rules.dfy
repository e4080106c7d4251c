/**
 * `checkAndRepairImages`: the alt-text rule applied on every pass, and the `error` handler
 * every pass registers on every image. A handler removes only itself when it fires, so an
 * image scanned k times before it fails has k handlers, and the load failure runs all k.
 */
module ImageRules {
  import opened Wrappers
  import opened JsStrings
  import opened RepairLog
  import opened RepairMarks

  /**
   * An image: alt text, current source, its `data-original-src` attribute, the inline style
   * and title the handler sets, its classes, and how many `error` handlers are registered.
   */
  datatype Image = Image(
    alt: string,
    src: string,
    originalSrc: Option<string>,
    backgroundColor: string,
    border: string,
    title: string,
    classes: set<string>,
    pendingHandlers: nat)

  const ImageKind := "图片修复"
  const DefaultAlt := "图片内容"
  /** Images served from this CDN keep their source and get a fallback style on failure. */
  const CdnHost := "akamaized.net"
  const FallbackBackground := "#f5f5f5"
  const FallbackBorder := "1px dashed #ccc"
  const FailedTitle := "图片加载失败"
  /** Stand-in for the inline SVG data URL the handler substitutes (its markup is not modelled). */
  const Placeholder := "data:image/svg+xml;" + "charset=UTF-8,%3Csvg" + "%20xmlns%3D%22http%3A"
    + "%2F%2Fwww.w3.org%2F" + "2000%2Fsvg%22%3E%3C%2Fsvg%3E"

  /** `!img.alt || img.alt.trim() === ''`. */
  predicate AltMissing(alt: string) {
    alt == "" || Trim(alt) == ""
  }

  /** The image after one pass: the alt rule, then one more `error` handler registered. */
  function ScanImage(img: Image): Image {
    var fixedAlt := if AltMissing(img.alt) then img.(alt := DefaultAlt, classes := img.classes + {FixedClass}) else img;
    fixedAlt.(pendingHandlers := img.pendingHandlers + 1)
  }

  /** The message of the alt rule, naming the last path segment of the source. */
  function AltMessage(src: string): string {
    "添加缺失的alt属性: " + AfterLastSlash(src)
  }

  /** What one pass logs for an image: the file name of a source whose alt text was missing. */
  function ScanImageLog(img: Image): seq<LogEntry> {
    if AltMissing(img.alt) then [LogEntry(ImageKind, AltMessage(img.src))] else []
  }

  /** One registered handler firing: its two branches, then it removes itself. */
  function HandleError(img: Image): Image
    requires img.pendingHandlers > 0
  {
    var patched :=
      if Contains(img.src, CdnHost) then
        img.(backgroundColor := FallbackBackground, border := FallbackBorder, title := FailedTitle,
             classes := img.classes + {ErrorClass})
      else
        img.(originalSrc := Some(img.src), src := Placeholder, classes := img.classes + {ErrorClass});
    patched.(pendingHandlers := img.pendingHandlers - 1)
  }

  /** The message of the CDN branch of the handler. */
  function FallbackMessage(src: string): string {
    "图片加载失败，应用备用样式: " + src
  }

  /** The message of the placeholder branch of the handler, naming the failed source. */
  function PlaceholderMessage(src: string): string {
    "已设置占位图代替失败的图片: " + src
  }

  /** The entry one handler logs. */
  function HandleErrorLog(img: Image): LogEntry {
    if Contains(img.src, CdnHost) then LogEntry(ImageKind, FallbackMessage(img.src))
    else LogEntry(ImageKind, PlaceholderMessage(img.src))
  }

  /** An `error` event: every registered handler runs once, in registration order. */
  function Dispatch(img: Image): Image
    decreases img.pendingHandlers
  {
    if img.pendingHandlers == 0 then img else Dispatch(HandleError(img))
  }

  /** The entries an `error` event logs, one per handler that ran. */
  function DispatchLog(img: Image): seq<LogEntry>
    decreases img.pendingHandlers
  {
    if img.pendingHandlers == 0 then [] else [HandleErrorLog(img)] + DispatchLog(HandleError(img))
  }

  /** One pass over every image. */
  function ScanImages(imgs: seq<Image>): (r: seq<Image>)
    ensures |r| == |imgs|
  {
    if imgs == [] then [] else ScanImages(imgs[..|imgs| - 1]) + [ScanImage(imgs[|imgs| - 1])]
  }

  /** Everything one pass over all images logs, in document order. */
  function ImagesLog(imgs: seq<Image>): seq<LogEntry> {
    if imgs == [] then [] else ImagesLog(imgs[..|imgs| - 1]) + ScanImageLog(imgs[|imgs| - 1])
  }

  // ----- lemmas -----

  lemma DefaultAltPresent()
    ensures !AltMissing(DefaultAlt)
  {
    TrimEmptyIffBlank(DefaultAlt);
    assert !IsJsWhitespace(DefaultAlt[0]);
  }

  /**
   * The alt rule: a missing or blank alt becomes the default text (marked fixed, one entry
   * naming the file); any other alt, and the classes, are left alone and nothing is logged.
   * Either way the image has a non-blank alt afterwards, and one more handler.
   */
  lemma AltDefaulted(img: Image)
    ensures AltMissing(img.alt) ==>
      (ScanImage(img).alt == DefaultAlt && FixedClass in ScanImage(img).classes
       && ScanImageLog(img) == [LogEntry(ImageKind, "添加缺失的alt属性: " + AfterLastSlash(img.src))])
    ensures !AltMissing(img.alt) ==>
      (ScanImage(img).alt == img.alt && ScanImage(img).classes == img.classes && ScanImageLog(img) == [])
    ensures !AltMissing(ScanImage(img).alt)
    ensures ScanImage(img).pendingHandlers == img.pendingHandlers + 1
    ensures ScanImage(img).src == img.src
  {
    DefaultAltPresent();
  }

  /** A second pass leaves the alt text alone and logs nothing for the image. */
  lemma AltStable(img: Image)
    ensures ScanImage(ScanImage(img)).alt == ScanImage(img).alt
    ensures ScanImageLog(ScanImage(img)) == []
  {
    AltDefaulted(img);
  }

  /** A CDN image keeps its source and gets the fallback style, title and error class. */
  lemma CdnHandler(img: Image)
    requires img.pendingHandlers > 0 && Contains(img.src, CdnHost)
    ensures HandleError(img).src == img.src && HandleError(img).originalSrc == img.originalSrc
    ensures HandleError(img).backgroundColor == FallbackBackground && HandleError(img).border == FallbackBorder
    ensures HandleError(img).title == FailedTitle && ErrorClass in HandleError(img).classes
    ensures HandleError(img).pendingHandlers == img.pendingHandlers - 1
  {
  }

  /** Any other image has its source saved in `data-original-src` and replaced by the placeholder. */
  lemma PlaceholderHandler(img: Image)
    requires img.pendingHandlers > 0 && !Contains(img.src, CdnHost)
    ensures HandleError(img).originalSrc == Some(img.src) && HandleError(img).src == Placeholder
    ensures ErrorClass in HandleError(img).classes && HandleError(img).title == img.title
    ensures HandleError(img).pendingHandlers == img.pendingHandlers - 1
  {
  }

  /**
   * An `error` event runs each registered handler exactly once (one entry each) and leaves none
   * registered, so a second `error` event runs nothing and logs nothing.
   */
  lemma {:induction false} DispatchRunsEachOnce(img: Image)
    ensures Dispatch(img).pendingHandlers == 0
    ensures |DispatchLog(img)| == img.pendingHandlers
    ensures Dispatch(Dispatch(img)) == Dispatch(img) && DispatchLog(Dispatch(img)) == []
    decreases img.pendingHandlers
  {
    if img.pendingHandlers > 0 {
      DispatchRunsEachOnce(HandleError(img));
    }
  }

  /** A CDN image keeps its source and `data-original-src` however many handlers run. */
  lemma {:induction false} DispatchCdn(img: Image)
    requires Contains(img.src, CdnHost)
    ensures Dispatch(img).src == img.src && Dispatch(img).originalSrc == img.originalSrc
    ensures img.pendingHandlers > 0 ==>
      Dispatch(img).backgroundColor == FallbackBackground && Dispatch(img).border == FallbackBorder
      && Dispatch(img).title == FailedTitle && ErrorClass in Dispatch(img).classes
    decreases img.pendingHandlers
  {
    if img.pendingHandlers > 0 {
      DispatchCdn(HandleError(img));
    }
  }

  lemma PlaceholderOffCdn()
    ensures !Contains(Placeholder, CdnHost)
  {
    assert CdnHost[6] == 'z';
    var a, b, c, d, e := "data:image/svg+xml;", "charset=UTF-8,%3Csvg", "%20xmlns%3D%22http%3A", "%2F%2Fwww.w3.org%2F", "2000%2Fsvg%22%3E%3C%2Fsvg%3E";
    assert forall i | 0 <= i < |a| :: a[i] != 'z';
    assert forall i | 0 <= i < |b| :: b[i] != 'z';
    assert forall i | 0 <= i < |c| :: c[i] != 'z';
    assert forall i | 0 <= i < |d| :: d[i] != 'z';
    assert forall i | 0 <= i < |e| :: e[i] != 'z';
    MissingCharNotContains(Placeholder, CdnHost, 6);
  }

  /** With one handler registered, a failed non-CDN image's original source is kept. */
  lemma SingleHandlerKeepsOriginal(img: Image)
    requires img.pendingHandlers == 1 && !Contains(img.src, CdnHost)
    ensures Dispatch(img).src == Placeholder && Dispatch(img).originalSrc == Some(img.src)
  {
    assert Dispatch(img) == HandleError(img);
  }

  /** Once the placeholder is in place, every further handler saves the placeholder itself. */
  lemma {:induction false} PlaceholderOverwrites(img: Image)
    requires img.src == Placeholder && img.pendingHandlers > 0
    ensures Dispatch(img).src == Placeholder && Dispatch(img).originalSrc == Some(Placeholder)
    decreases img.pendingHandlers
  {
    PlaceholderOffCdn();
    if img.pendingHandlers > 1 {
      PlaceholderOverwrites(HandleError(img));
    }
  }

  /**
   * With two or more handlers registered (the image was scanned at least twice before it
   * failed), the second handler sees the placeholder as the source and saves it over the
   * original: `data-original-src` ends up holding the placeholder, not the original source.
   */
  lemma ManyHandlersLoseOriginal(img: Image)
    requires img.pendingHandlers >= 2 && !Contains(img.src, CdnHost)
    ensures Dispatch(img).src == Placeholder && Dispatch(img).originalSrc == Some(Placeholder)
  {
    PlaceholderOverwrites(HandleError(img));
  }

  /** The pass treats every image on its own: the `i`-th result is the `i`-th image scanned. */
  lemma {:induction false} ScanImagesPointwise(imgs: seq<Image>)
    ensures forall i | 0 <= i < |imgs| :: ScanImages(imgs)[i] == ScanImage(imgs[i])
  {
    if imgs != [] {
      var init := imgs[..|imgs| - 1];
      ScanImagesPointwise(init);
      forall i | 0 <= i < |imgs| ensures ScanImages(imgs)[i] == ScanImage(imgs[i]) {
        if i < |init| {
          assert init[i] == imgs[i];
        }
      }
    }
  }

  /** Scanning the image at position `i` extends the scanned prefix by one. */
  lemma ScanImagesStep(imgs: seq<Image>, i: nat)
    requires i < |imgs|
    ensures (ScanImages(imgs[..i]) + imgs[i..])[i := ScanImage(imgs[i])] == ScanImages(imgs[..i + 1]) + imgs[i + 1..]
  {
    assert imgs[..i + 1][..i] == imgs[..i];
  }

  /** The entries for the first `i + 1` images are those for the first `i`, then the `i`-th image's. */
  lemma ImagesLogStep(imgs: seq<Image>, i: nat)
    requires i < |imgs|
    ensures ImagesLog(imgs[..i + 1]) == ImagesLog(imgs[..i]) + ScanImageLog(imgs[i])
  {
    assert imgs[..i + 1][..i] == imgs[..i];
  }
}

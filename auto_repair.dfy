/**
 * The `AutoRepairSystem` object: its bounded repair log and panel, the scanners that run over
 * the page, and the full check that runs them in order. The page is a `Document` whose links and
 * images are arrays of element records that the scanners patch in place.
 */
module AutoRepair {
  import opened Wrappers
  import opened JsStrings
  import opened RepairLog
  import opened RepairMarks
  import opened LinkRules
  import opened ImageRules
  import opened CssRules
  import opened PresenceRules
  import opened DownloadWidget

  const SystemKind := "系统信息"
  const StartMessage := "开始全面检查网页内容和结构..."
  const DoneMessage := "全面检查完成！"
  const ErrorKind := "系统错误"

  /** A history extended by two pieces of log is the history extended by both at once. */
  lemma AppendAssoc(a: seq<LogEntry>, b: seq<LogEntry>, c: seq<LogEntry>)
    ensures a + b + c == a + (b + c)
  {
  }

  lemma AppendThree(a: seq<LogEntry>, b: seq<LogEntry>, c: seq<LogEntry>, d: seq<LogEntry>)
    ensures a + b + c + d == a + (b + c + d)
  {
  }

  /** The message the full check's `catch` logs for an exception with this message. */
  function ErrorMessage(message: string): string {
    "检查过程中发生错误: " + message
  }

  function ErrorEntry(message: string): LogEntry {
    LogEntry(ErrorKind, ErrorMessage(message))
  }

  /** The scanners, in the order the full check runs them. */
  datatype Scanner = Structure | Links | Images | Css | Scripts | Widget

  function Rank(s: Scanner): nat {
    match s
    case Structure => 0
    case Links => 1
    case Images => 2
    case Css => 3
    case Scripts => 4
    case Widget => 5
  }

  /**
   * An exception that ends the `try` block of the full check, with its message: it is raised as
   * scanner `at` starts, before that scanner logs or patches anything. A scanner that throws
   * part-way through its own work is not modelled.
   */
  datatype Fault = Fault(at: Scanner, message: string)

  /** How many scanners complete: all six, or those before the one that throws. */
  function Completed(fault: Option<Fault>): nat {
    if fault.None? then 6 else Rank(fault.value.at)
  }

  predicate Throws(fault: Option<Fault>, s: Scanner) {
    fault.Some? && fault.value.at == s
  }

  /** The scanner the full check runs at position `k`; `Rank` is its inverse. */
  function ScannerAt(k: nat): Scanner
    requires k < 6
  {
    if k == 0 then Structure
    else if k == 1 then Links
    else if k == 2 then Images
    else if k == 3 then Css
    else if k == 4 then Scripts
    else Widget
  }

  /** The contents of the page that the scanners read or patch. */
  datatype Page = Page(presentSelectors: set<string>, functions: set<string>, links: seq<Link>,
                       images: seq<Image>, styleSheets: StyleSheets, versionSelect: Option<VersionSelect>,
                       downloadButton: Option<DownloadButton>, hint: Option<string>)

  /** What scanner `s` logs when it runs on page `p`. */
  function ScanLog(p: Page, s: Scanner): seq<LogEntry> {
    match s
    case Structure => StructureLog(p.presentSelectors)
    case Links => LinksLog(p.links)
    case Images => ImagesLog(p.images)
    case Css => CssLog(p.styleSheets)
    case Scripts => ScriptLog(p.functions, p.versionSelect.Some?, p.downloadButton.Some?)
    case Widget => WidgetLog(p.versionSelect, p.downloadButton)
  }

  /** The download-widget pass on page `p`: with both elements present, the repaired pair and hint. */
  function RepairWidget(p: Page): Page {
    if p.versionSelect.Some? && p.downloadButton.Some? then
      p.(versionSelect := Some(RepairSelect(p.versionSelect.value)),
         downloadButton := Some(RepairButton(p.downloadButton.value)),
         hint := Some(HintText))
    else p
  }

  /** The page after scanner `s` has run on `p`. */
  function Scan(p: Page, s: Scanner): Page {
    match s
    case Links => p.(links := RepairLinks(p.links))
    case Images => p.(images := ScanImages(p.images))
    case Widget => RepairWidget(p)
    case _ => p
  }

  /** The page after the first `n` scanners have run on `p`, one after another. */
  function After(p: Page, n: nat): Page
    requires n <= 6
  {
    if n == 0 then p else Scan(After(p, n - 1), ScannerAt(n - 1))
  }

  /** What the first `n` scanners log, each on the page the ones before it left. */
  function RunLog(p: Page, n: nat): seq<LogEntry>
    requires n <= 6
  {
    if n == 0 then [] else RunLog(p, n - 1) + ScanLog(After(p, n - 1), ScannerAt(n - 1))
  }

  /** What the scanners at positions `from` to `until - 1` log, each read off page `p` itself. */
  function LogsBetween(p: Page, from: nat, until: nat): seq<LogEntry>
    requires from <= until <= 6
    decreases until
  {
    if until == from then [] else LogsBetween(p, from, until - 1) + ScanLog(p, ScannerAt(until - 1))
  }

  /** The entries of a run of scanners split at any intermediate position. */
  lemma {:induction false} LogsSplit(p: Page, from: nat, mid: nat, until: nat)
    requires from <= mid <= until <= 6
    ensures LogsBetween(p, from, until) == LogsBetween(p, from, mid) + LogsBetween(p, mid, until)
    decreases until
  {
    if until > mid {
      LogsSplit(p, from, mid, until - 1);
      AppendAssoc(LogsBetween(p, from, mid), LogsBetween(p, mid, until - 1), ScanLog(p, ScannerAt(until - 1)));
    }
  }

  /** Page `p` with the patches of the first `n` scanners applied. */
  function Repaired(p: Page, n: nat): Page {
    var q := p.(links := if n > 1 then RepairLinks(p.links) else p.links,
                images := if n > 2 then ScanImages(p.images) else p.images);
    if n > 5 then RepairWidget(q) else q
  }

  /** Patching the first `k + 1` scanners is running scanner `k` on the page the first `k` patched. */
  lemma RepairedStep(p: Page, k: nat)
    requires k < 6
    ensures Repaired(p, k + 1) == Scan(Repaired(p, k), ScannerAt(k))
  {
    if k == 0 {
    } else if k == 1 {
    } else if k == 2 {
    } else if k == 3 {
    } else if k == 4 {
    } else {
    }
  }

  /**
   * No scanner reads what the ones before it patch: scanner `k` logs the same on the page the
   * first `k` left as on the original page.
   */
  lemma ScanReadsOriginal(p: Page, k: nat)
    requires k < 6
    ensures ScanLog(Repaired(p, k), ScannerAt(k)) == ScanLog(p, ScannerAt(k))
  {
    if k == 0 {
    } else if k == 1 {
    } else if k == 2 {
    } else if k == 3 {
    } else if k == 4 {
    } else {
    }
  }

  /** The patches of the first `n` scanners are the page after running them one after another. */
  lemma {:induction false} RepairedIsAfter(p: Page, n: nat)
    requires n <= 6
    ensures Repaired(p, n) == After(p, n)
  {
    if n > 0 {
      RepairedIsAfter(p, n - 1);
      RepairedStep(p, n - 1);
    }
  }

  /**
   * Reading every scanner's entries off the original page gives what the scanners log when each
   * runs on the page the ones before it left.
   */
  lemma {:induction false} LogsBetweenIsRunLog(p: Page, n: nat)
    requires n <= 6
    ensures LogsBetween(p, 0, n) == RunLog(p, n)
  {
    if n > 0 {
      LogsBetweenIsRunLog(p, n - 1);
      RepairedIsAfter(p, n - 1);
      ScanReadsOriginal(p, n - 1);
    }
  }

  /** The last entry of a full check: the completion notice, or the error entry. */
  function FinalEntry(fault: Option<Fault>): LogEntry {
    if fault.None? then LogEntry(SystemKind, DoneMessage) else ErrorEntry(fault.value.message)
  }

  /** The part of the page the scanners read and patch. */
  class Document {
    /** The selectors of the structure check that match at least one element. */
    var presentSelectors: set<string>
    /** The global names whose `typeof` is `function`. */
    var functions: set<string>
    /** `document.querySelectorAll('a[href]')`. */
    const links: array<Link>
    /** `document.querySelectorAll('img')`. */
    const images: array<Image>
    var styleSheets: StyleSheets
    /** `#product-edition`, if present. */
    var versionSelect: Option<VersionSelect>
    /** The first `.btn-primary` whose href mentions the installer, if any. */
    var downloadButton: Option<DownloadButton>
    /** The text of the first `.hint-text` element, if any. */
    var hint: Option<string>

    constructor (presentSelectors: set<string>, functions: set<string>, links: seq<Link>, images: seq<Image>,
                 styleSheets: StyleSheets, versionSelect: Option<VersionSelect>,
                 downloadButton: Option<DownloadButton>, hint: Option<string>)
      ensures this.presentSelectors == presentSelectors && this.functions == functions
      ensures fresh(this.links) && this.links[..] == links && fresh(this.images) && this.images[..] == images
      ensures this.styleSheets == styleSheets && this.versionSelect == versionSelect
      ensures this.downloadButton == downloadButton && this.hint == hint
    {
      this.presentSelectors := presentSelectors;
      this.functions := functions;
      this.links := new Link[|links|](i requires 0 <= i < |links| => links[i]);
      this.images := new Image[|images|](i requires 0 <= i < |images| => images[i]);
      this.styleSheets := styleSheets;
      this.versionSelect := versionSelect;
      this.downloadButton := downloadButton;
      this.hint := hint;
    }
  }

  class AutoRepairSystem {
    /** The stored log: the most recent entries, at most `Capacity` of them. */
    var repairLog: seq<LogEntry>
    /** The entries the panel displays. */
    var panel: seq<LogEntry>
    /** Every entry ever logged, oldest first. */
    ghost var history: seq<LogEntry>
    const page: Document

    ghost predicate Valid()
      reads this
    {
      |repairLog| <= Capacity
      && repairLog == Last(history, Capacity)
      && panel == Last(history, PanelSize)
    }

    /** The system as `init` leaves it before its first check: an empty log and panel. */
    constructor (page: Document)
      ensures Valid() && this.page == page
      ensures history == [] && repairLog == [] && panel == []
    {
      this.page := page;
      repairLog := [];
      panel := [];
      history := [];
    }

    /** `getRepairLog`: the stored log, the last (at most) 100 entries ever logged. */
    function GetRepairLog(): (r: seq<LogEntry>)
      reads this
      requires Valid()
      ensures |r| <= Capacity && r == Last(history, Capacity)
    {
      repairLog
    }

    /**
     * `logRepair`: push the entry, re-render the panel from the (possibly 101-entry) log, and
     * shift out the oldest entry if the log now exceeds the capacity. `Valid()` then fixes the
     * stored log and the panel as the last 100 and the last 20 entries of the history.
     */
    method LogRepair(kind: string, message: string)
      requires Valid()
      modifies this
      ensures Valid()
      ensures history == old(history) + [LogEntry(kind, message)]
    {
      var e := LogEntry(kind, message);
      PushedWindow(history, e);
      LastOfLast(history + [e], Capacity, PanelSize);
      PanelBeforeShift(repairLog, e);
      repairLog := repairLog + [e];
      history := history + [e];
      panel := Last(repairLog, PanelSize);
      if |repairLog| > Capacity {
        repairLog := repairLog[1..];
      }
    }

    /** The `forEach` of a detection-only check: one entry per name not in `present`, in order. */
    method ReportMissing(names: seq<string>, present: set<string>, kind: string, prefix: string)
      requires Valid()
      modifies this
      ensures Valid()
      ensures history == old(history) + Report(kind, prefix, MissingFrom(names, present))
    {
      for k := 0 to |names|
        invariant Valid()
        invariant history == old(history) + Report(kind, prefix, MissingFrom(names[..k], present))
      {
        var name := names[k];
        assert names[..k + 1] == names[..k] + [name];
        MissingFromSnoc(names[..k], name, present);
        ReportAppend(kind, prefix, MissingFrom(names[..k], present), [name]);
        if name !in present {
          LogRepair(kind, prefix + name);
        }
      }
      assert names[..|names|] == names;
    }

    /** `checkAndRepairHTMLStructure`: one entry per required selector that matches nothing. */
    method CheckAndRepairHtmlStructure()
      requires Valid()
      modifies this
      ensures Valid()
      ensures Snapshot() == old(Snapshot())
      ensures history == old(history) + StructureLog(page.presentSelectors)
    {
      ReportMissing(RequiredSelectors, page.presentSelectors, StructureKind, StructurePrefix);
    }

    /** Rule (a) of `checkAndRepairLinks` on `l`, whose original href is `h`. */
    method FlagEmptyLink(l: Link, h: string) returns (r: Link)
      requires Valid()
      modifies this
      ensures Valid()
      ensures r == FlagEmpty(l, h)
      ensures history == old(history) + FlagEmptyLog(h, l.text)
    {
      r := l;
      if h == "" || h == "#" || Trim(h) == "" {
        r := r.(classes := r.classes + {WarningClass}, title := WarningTitle);
        LogRepair(LinkKind, EmptyLinkMessage(r.text));
      }
    }

    /** Rule (b) of `checkAndRepairLinks` on `l`, whose original href is `h`. */
    method PrefixRelativeLink(l: Link, h: string) returns (r: Link)
      requires Valid()
      modifies this
      ensures Valid()
      ensures r == PrefixRelative(l, h)
      ensures history == old(history) + PrefixRelativeLog(h)
    {
      r := l;
      if h != "" && !StartsWith(h, "http") && !StartsWith(h, "#") {
        if Contains(h, ".") && !Contains(h, "/") {
          r := r.(href := "./" + h, classes := r.classes + {FixedClass});
          LogRepair(LinkKind, RelativeMessage(h));
        }
      }
    }

    /** Rule (c) of `checkAndRepairLinks` on `l`, whose original href is `h`. */
    method UpgradeMicrosoftLink(l: Link, h: string) returns (r: Link)
      requires Valid()
      modifies this
      ensures Valid()
      ensures r == UpgradeMicrosoft(l, h)
      ensures history == old(history) + UpgradeMicrosoftLog(h)
    {
      r := l;
      if h != "" && Contains(h, "microsoft.com") && !StartsWith(h, "https://") {
        LogRepair(LinkKind, InsecureNotice);
        var secureHref := ReplaceFirst(h, "http://", "https://");
        r := r.(href := secureHref, classes := r.classes + {FixedClass});
        LogRepair(LinkKind, SecuredMessage(secureHref));
      }
    }

    /** The body of `checkAndRepairLinks`'s `forEach` for one link: rules (a), (b) and (c) in turn. */
    method RepairOneLink(link: Link) returns (r: Link)
      requires Valid()
      modifies this
      ensures Valid()
      ensures r == RepairLink(link)
      ensures history == old(history) + LinkLog(link)
    {
      var href := link.href;
      r := FlagEmptyLink(link, href);
      r := PrefixRelativeLink(r, href);
      r := UpgradeMicrosoftLink(r, href);
      AppendThree(old(history), FlagEmptyLog(href, link.text), PrefixRelativeLog(href), UpgradeMicrosoftLog(href));
    }

    /** The `forEach` of `checkAndRepairLinks` over `links`: each link repaired in place, in order. */
    method RepairEachLink(links: array<Link>)
      requires Valid()
      modifies this, links
      ensures Valid()
      ensures links[..] == RepairLinks(old(links[..]))
      ensures history == old(history) + LinksLog(old(links[..]))
    {
      ghost var original := links[..];
      for i := 0 to links.Length
        invariant Valid()
        invariant links[..] == RepairLinks(original[..i]) + original[i..]
        invariant history == old(history) + LinksLog(original[..i])
      {
        ghost var current := links[..];
        var link := RepairOneLink(links[i]);
        links[i] := link;
        assert links[..] == current[i := link];
        RepairLinksStep(original, i);
        LinksLogStep(original, i);
        AppendAssoc(old(history), LinksLog(original[..i]), LinkLog(original[i]));
      }
      assert original[..links.Length] == original;
    }

    /** `checkAndRepairLinks`: the three rules on every link, each reading the original href. */
    method CheckAndRepairLinks()
      requires Valid()
      modifies this, page.links
      ensures Valid()
      ensures Snapshot() == old(Snapshot()).(links := RepairLinks(old(page.links[..])))
      ensures history == old(history) + LinksLog(old(page.links[..]))
    {
      RepairEachLink(page.links);
    }

    /** The body of `checkAndRepairImages`'s `forEach` for one image: the alt rule, then the handler. */
    method ScanOneImage(img: Image) returns (r: Image)
      requires Valid()
      modifies this
      ensures Valid()
      ensures r == ScanImage(img)
      ensures history == old(history) + ScanImageLog(img)
    {
      r := img;
      if r.alt == "" || Trim(r.alt) == "" {
        r := r.(alt := DefaultAlt, classes := r.classes + {FixedClass});
        LogRepair(ImageKind, AltMessage(r.src));
      }
      r := r.(pendingHandlers := r.pendingHandlers + 1);
    }

    /** The `forEach` of `checkAndRepairImages` over `images`: each image scanned in place, in order. */
    method ScanEachImage(images: array<Image>)
      requires Valid()
      modifies this, images
      ensures Valid()
      ensures images[..] == ScanImages(old(images[..]))
      ensures history == old(history) + ImagesLog(old(images[..]))
    {
      ghost var original := images[..];
      for i := 0 to images.Length
        invariant Valid()
        invariant images[..] == ScanImages(original[..i]) + original[i..]
        invariant history == old(history) + ImagesLog(original[..i])
      {
        ghost var current := images[..];
        var img := ScanOneImage(images[i]);
        images[i] := img;
        assert images[..] == current[i := img];
        ScanImagesStep(original, i);
        ImagesLogStep(original, i);
        AppendAssoc(old(history), ImagesLog(original[..i]), ScanImageLog(original[i]));
      }
      assert original[..images.Length] == original;
    }

    /**
     * `checkAndRepairImages`: the alt rule on every image, and one more `error` handler
     * registered on each.
     */
    method CheckAndRepairImages()
      requires Valid()
      modifies this, page.images
      ensures Valid()
      ensures Snapshot() == old(Snapshot()).(images := ScanImages(old(page.images[..])))
      ensures history == old(history) + ImagesLog(old(page.images[..]))
    {
      ScanEachImage(page.images);
    }

    /** One registered `error` handler running on `img`, then removing itself. */
    method RunErrorHandler(img: Image) returns (r: Image)
      requires Valid() && img.pendingHandlers > 0
      modifies this
      ensures Valid()
      ensures r == HandleError(img)
      ensures history == old(history) + [HandleErrorLog(img)]
    {
      r := img;
      if Contains(r.src, CdnHost) {
        r := r.(backgroundColor := FallbackBackground, border := FallbackBorder, title := FailedTitle,
                classes := r.classes + {ErrorClass});
        LogRepair(ImageKind, FallbackMessage(r.src));
      } else {
        r := r.(originalSrc := Some(r.src));
        r := r.(src := Placeholder, classes := r.classes + {ErrorClass});
        LogRepair(ImageKind, PlaceholderMessage(r.originalSrc.value));
      }
      r := r.(pendingHandlers := r.pendingHandlers - 1);
    }

    /**
     * The browser firing `error` on image `i`: every registered handler runs once, in
     * registration order, and removes itself.
     */
    method DispatchImageError(i: nat)
      requires Valid() && i < page.images.Length
      modifies this, page.images
      ensures Valid()
      ensures page.images[i] == Dispatch(old(page.images[i]))
      ensures forall k | 0 <= k < page.images.Length && k != i :: page.images[k] == old(page.images[k])
      ensures history == old(history) + DispatchLog(old(page.images[i]))
    {
      var images := page.images;
      var img := images[i];
      while img.pendingHandlers > 0
        invariant Valid()
        invariant Dispatch(img) == Dispatch(old(images[i]))
        invariant history + DispatchLog(img) == old(history) + DispatchLog(old(images[i]))
        invariant images[..] == old(images[..])
        decreases img.pendingHandlers
      {
        ghost var before := img;
        ghost var logged := history;
        img := RunErrorHandler(img);
        AppendAssoc(logged, [HandleErrorLog(before)], DispatchLog(img));
      }
      images[i] := img;
    }

    /** The rule search of `checkAndRepairCSS` for each of `names`: a warning for every one not found. */
    method ReportUndefined(sheets: StyleSheets, names: seq<string>)
      requires Valid()
      modifies this
      ensures Valid()
      ensures history == old(history) + Report(CssKind, CssPrefix, UndefinedClasses(sheets, names))
    {
      for k := 0 to |names|
        invariant Valid()
        invariant history == old(history) + Report(CssKind, CssPrefix, UndefinedClasses(sheets, names[..k]))
      {
        var className := names[k];
        assert names[..k + 1] == names[..k] + [className];
        UndefinedSnoc(sheets, names[..k], className);
        ReportAppend(CssKind, CssPrefix, UndefinedClasses(sheets, names[..k]), [className]);
        var found := FindClassRule(sheets, className);
        if !found {
          LogRepair(CssKind, CssPrefix + className);
        }
      }
      assert names[..|names|] == names;
    }

    /** `checkAndRepairCSS`'s rule search: one warning per critical class no readable rule mentions. */
    method CheckAndRepairCss()
      requires Valid()
      modifies this
      ensures Valid()
      ensures Snapshot() == old(Snapshot())
      ensures history == old(history) + CssLog(page.styleSheets)
    {
      ReportUndefined(page.styleSheets, CriticalClasses);
    }

    /**
     * `checkAndRepairJavaScriptFunctions`: one entry per required global function that is
     * missing, then a notice when the version selector and the download button both exist.
     */
    method CheckAndRepairJavaScriptFunctions()
      requires Valid()
      modifies this
      ensures Valid()
      ensures Snapshot() == old(Snapshot())
      ensures history == old(history) + ScriptLog(page.functions, page.versionSelect.Some?, page.downloadButton.Some?)
    {
      ReportMissing(RequiredFunctions, page.functions, ScriptKind, ScriptPrefix);
      ghost var reported := history;
      if page.versionSelect.Some? {
        if page.downloadButton.Some? {
          LogRepair(ScriptCheckKind, SelectorCheckPassed);
        }
      }
      assert history == reported + (if page.versionSelect.Some? && page.downloadButton.Some?
        then [LogEntry(ScriptCheckKind, SelectorCheckPassed)] else []);
      AppendAssoc(old(history), Report(ScriptKind, ScriptPrefix, MissingFrom(RequiredFunctions, page.functions)),
        if page.versionSelect.Some? && page.downloadButton.Some? then [LogEntry(ScriptCheckKind, SelectorCheckPassed)] else []);
    }

    /** The href check of the download pass: the fallback URL for a missing, empty or `#` href. */
    method RepairDownloadButton(button: DownloadButton) returns (b: DownloadButton)
      requires Valid()
      modifies this
      ensures Valid()
      ensures b == RepairButton(button)
      ensures history == old(history) + ButtonLog(button.href)
    {
      b := button;
      var currentHref := b.href;
      if currentHref.None? || currentHref == Some("") || currentHref == Some("#") {
        LogRepair(FixKind, InvalidHref);
        b := b.(href := Some(FallbackUrl), classes := b.classes + {FixedClass});
        LogRepair(FixKind, FallbackSet);
      }
    }

    /** One `if (!has...)` block of the option check: append edition `e` and mark the selector. */
    method AddEditionIfMissing(s: VersionSelect, e: Edition, present: bool) returns (t: VersionSelect)
      requires Valid()
      modifies this
      ensures Valid()
      ensures t == WithEdition(s, e, present)
      ensures history == old(history) + EditionNote(e, present)
    {
      t := s;
      if !present {
        LogRepair(FixKind, e.missingNote);
        t := t.(options := t.options + [e.option], classes := t.classes + {FixedClass});
      }
    }

    /** The option check of the download pass: each missing edition appended, in the fixed order. */
    method AddMissingEditions(select: VersionSelect) returns (s: VersionSelect)
      requires Valid()
      modifies this
      ensures Valid()
      ensures s == RepairSelect(select)
      ensures history == old(history) + MissingNotes(MissingEditions(select.options))
    {
      var hasMulti, hasHome, hasPro := ScanEditions(select.options);
      s := AddEditionIfMissing(select, Editions[0], hasMulti);
      s := AddEditionIfMissing(s, Editions[1], hasHome);
      s := AddEditionIfMissing(s, Editions[2], hasPro);
      RepairSelectInSteps(select);
      MissingSplit(select.options);
      AppendThree(old(history), EditionNote(Editions[0], hasMulti), EditionNote(Editions[1], hasHome),
        EditionNote(Editions[2], hasPro));
    }

    /**
     * The branch of the download pass where both elements were found: the button's href, the
     * selector's options, the hint text, with their entries between the two notices.
     */
    method RepairFoundWidget(versionSelect: VersionSelect, downloadBtn: DownloadButton)
      requires Valid()
      modifies this, page`versionSelect, page`downloadButton, page`hint
      ensures Valid()
      ensures page.downloadButton == Some(RepairButton(downloadBtn))
      ensures page.versionSelect == Some(RepairSelect(versionSelect))
      ensures page.hint == Some(HintText)
      ensures history == old(history) + RepairLogOf(versionSelect, downloadBtn)
    {
      LogRepair(CheckKind, BothFound);
      var button := RepairDownloadButton(downloadBtn);
      page.downloadButton := Some(button);
      var select := AddMissingEditions(versionSelect);
      page.versionSelect := Some(select);
      // A missing `.hint-text` paragraph is created and inserted after the selector, which is in
      // the document (it was found by id) and so has a parent node; either way its text is set.
      page.hint := Some(HintText);
      LogRepair(CheckKind, VerifyNotice);
      LogRepair(CheckKind, FinishedNotice);
      RepairLogInOrder(old(history), versionSelect, downloadBtn);
    }

    /**
     * `checkAndRepairWindows11DownloadFunctionality`: with both elements present, the button's
     * fallback href, the missing edition options and the hint text; otherwise a warning only.
     */
    method CheckAndRepairDownloadWidget()
      requires Valid()
      modifies this, page`versionSelect, page`downloadButton, page`hint
      ensures Valid()
      ensures Snapshot() == RepairWidget(old(Snapshot()))
      ensures history == old(history) + WidgetLog(old(page.versionSelect), old(page.downloadButton))
    {
      LogRepair(CheckKind, CheckStart);
      var versionSelect := page.versionSelect;
      var downloadBtn := page.downloadButton;
      if versionSelect.Some? && downloadBtn.Some? {
        RepairFoundWidget(versionSelect.value, downloadBtn.value);
        AppendAssoc(old(history), [LogEntry(CheckKind, CheckStart)], RepairLogOf(versionSelect.value, downloadBtn.value));
      } else {
        LogRepair(WarnKind, NotFoundWarning);
      }
    }

    /** The page's current contents. */
    ghost function Snapshot(): Page
      reads page, page.links, page.images
    {
      Page(page.presentSelectors, page.functions, page.links[..], page.images[..], page.styleSheets,
           page.versionSelect, page.downloadButton, page.hint)
    }

    /** The `catch` of the full check: one error entry naming the exception's message. */
    method ReportError(message: string)
      requires Valid()
      modifies this
      ensures Valid()
      ensures history == old(history) + [ErrorEntry(message)]
    {
      LogRepair(ErrorKind, ErrorMessage(message));
    }

    /**
     * The first `k` scanners of a full check that started on page `p` have run, and the history
     * was `start` when the one at position `from` started: the page carries the patches of all
     * `k`, and the history the entries of those from `from` on.
     */
    ghost predicate Reached(p: Page, start: seq<LogEntry>, from: nat, k: nat)
      requires from <= k <= 6
      reads this, page, page.links, page.images
    {
      Snapshot() == Repaired(p, k) && history == start + LogsBetween(p, from, k)
    }

    /**
     * One of the `try` block's first three statements: scanner `s`, at position `k`, moves the
     * page and the history on by one scanner.
     */
    method RunPageScanner(s: Scanner, ghost p: Page, ghost start: seq<LogEntry>, ghost k: nat)
      requires Valid() && k == Rank(s) && k < 3
      requires Reached(p, start, 0, k)
      modifies this, page.links, page.images
      ensures Valid()
      ensures Reached(p, start, 0, k + 1)
    {
      match s
      case Structure =>
        CheckAndRepairHtmlStructure();
        AppendAssoc(start, LogsBetween(p, 0, 0), StructureLog(p.presentSelectors));
      case Links =>
        CheckAndRepairLinks();
        AppendAssoc(start, LogsBetween(p, 0, 1), LinksLog(p.links));
      case Images =>
        CheckAndRepairImages();
        AppendAssoc(start, LogsBetween(p, 0, 2), ImagesLog(p.images));
    }

    /**
     * One of the `try` block's last three statements: scanner `s`, at position `k`, moves the
     * page and the history on by one scanner; the history was `start` when the one at position
     * `from` started.
     */
    method RunCheckScanner(s: Scanner, ghost p: Page, ghost start: seq<LogEntry>, ghost from: nat, ghost k: nat)
      requires Valid() && k == Rank(s) && 3 <= from <= k
      requires Reached(p, start, from, k)
      modifies this, page`versionSelect, page`downloadButton, page`hint
      ensures Valid()
      ensures Reached(p, start, from, k + 1)
    {
      match s
      case Css =>
        CheckAndRepairCss();
        AppendAssoc(start, LogsBetween(p, from, 3), CssLog(p.styleSheets));
      case Scripts =>
        CheckAndRepairJavaScriptFunctions();
        AppendAssoc(start, LogsBetween(p, from, 4), ScriptLog(p.functions, p.versionSelect.Some?, p.downloadButton.Some?));
      case Widget =>
        CheckAndRepairDownloadWidget();
        AppendAssoc(start, LogsBetween(p, from, 5), WidgetLog(p.versionSelect, p.downloadButton));
    }

    /**
     * The first half of the `try` block of `runFullCheck`: structure, links and images, up to
     * the one that throws.
     */
    method RunPageScanners(fault: Option<Fault>, ghost p: Page, ghost start: seq<LogEntry>)
      returns (error: Option<string>)
      requires Valid() && Reached(p, start, 0, 0)
      modifies this, page`versionSelect, page`downloadButton, page`hint, page.links, page.images
      ensures Valid()
      ensures error == if Completed(fault) < 3 then Some(fault.value.message) else None
      ensures Throws(fault, Structure) ==> Reached(p, start, 0, 0)
      ensures Throws(fault, Links) ==> Reached(p, start, 0, 1)
      ensures Throws(fault, Images) ==> Reached(p, start, 0, 2)
      ensures Completed(fault) >= 3 ==> Reached(p, start, 0, 3)
    {
      if Throws(fault, Structure) {
        assert Completed(fault) == 0;
        return Some(fault.value.message);
      }
      RunPageScanner(Structure, p, start, 0);
      error := RunArrayScanners(fault, p, start);
    }

    /** The link and image statements of the `try` block, up to the one that throws. */
    method RunArrayScanners(fault: Option<Fault>, ghost p: Page, ghost start: seq<LogEntry>)
      returns (error: Option<string>)
      requires Valid() && Completed(fault) >= 1 && Reached(p, start, 0, 1)
      modifies this, page`versionSelect, page`downloadButton, page`hint, page.links, page.images
      ensures Valid()
      ensures error == if Completed(fault) < 3 then Some(fault.value.message) else None
      ensures Throws(fault, Links) ==> Reached(p, start, 0, 1)
      ensures Throws(fault, Images) ==> Reached(p, start, 0, 2)
      ensures Completed(fault) >= 3 ==> Reached(p, start, 0, 3)
    {
      if Throws(fault, Links) {
        assert Completed(fault) == 1;
        return Some(fault.value.message);
      }
      RunPageScanner(Links, p, start, 1);
      if Throws(fault, Images) {
        assert Completed(fault) == 2;
        return Some(fault.value.message);
      }
      RunPageScanner(Images, p, start, 2);
      return None;
    }

    /** The stylesheet and script-function statements of the `try` block, up to the one that throws. */
    method RunCheckScanners(fault: Option<Fault>, ghost p: Page, ghost start: seq<LogEntry>)
      returns (error: Option<string>)
      requires Valid() && Completed(fault) >= 3 && Reached(p, start, 3, 3)
      modifies this, page`versionSelect, page`downloadButton, page`hint, page.links, page.images
      ensures Valid()
      ensures error == if Completed(fault) < 5 then Some(fault.value.message) else None
      ensures Throws(fault, Css) ==> Reached(p, start, 3, 3)
      ensures Throws(fault, Scripts) ==> Reached(p, start, 3, 4)
      ensures Completed(fault) >= 5 ==> Reached(p, start, 3, 5)
    {
      if Throws(fault, Css) {
        assert Completed(fault) == 3;
        return Some(fault.value.message);
      }
      RunCheckScanner(Css, p, start, 3, 3);
      if Throws(fault, Scripts) {
        assert Completed(fault) == 4;
        return Some(fault.value.message);
      }
      RunCheckScanner(Scripts, p, start, 3, 4);
      return None;
    }

    /** The download-widget statement of the `try` block, unless it throws. */
    method RunWidgetScanner(fault: Option<Fault>, ghost p: Page, ghost start: seq<LogEntry>)
      returns (error: Option<string>)
      requires Valid() && Completed(fault) >= 5 && Reached(p, start, 5, 5)
      modifies this, page`versionSelect, page`downloadButton, page`hint, page.links, page.images
      ensures Valid()
      ensures error == if fault.Some? then Some(fault.value.message) else None
      ensures Throws(fault, Widget) ==> Reached(p, start, 5, 5)
      ensures fault.None? ==> Reached(p, start, 5, 6)
    {
      if Throws(fault, Widget) {
        return Some(fault.value.message);
      }
      RunCheckScanner(Widget, p, start, 5, 5);
      return None;
    }

    /**
     * The `try` block of `runFullCheck`: the scanners in order, each on the page the ones before
     * it left, up to the one that throws; the result is the message of the exception, if any.
     */
    method RunScanners(fault: Option<Fault>) returns (error: Option<string>)
      requires Valid()
      modifies this, page`versionSelect, page`downloadButton, page`hint, page.links, page.images
      ensures Valid()
      ensures error == if fault.Some? then Some(fault.value.message) else None
      ensures Reached(old(Snapshot()), old(history), 0, Completed(fault))
    {
      ghost var p := Snapshot();
      ghost var start := history;
      assert Reached(p, start, 0, 0);
      error := RunPageScanners(fault, p, start);
      if error.Some? {
        return;
      }
      ghost var mid := history;
      assert Reached(p, mid, 3, 3);
      error := RunCheckScanners(fault, p, mid);
      LogsSplit(p, 0, 3, Completed(fault));
      AppendAssoc(start, LogsBetween(p, 0, 3), LogsBetween(p, 3, Completed(fault)));
      if error.Some? {
        return;
      }
      ghost var last := history;
      assert Reached(p, last, 5, 5);
      error := RunWidgetScanner(fault, p, last);
      LogsSplit(p, 0, 5, Completed(fault));
      AppendAssoc(start, LogsBetween(p, 0, 5), LogsBetween(p, 5, Completed(fault)));
      LogsSplit(p, 0, 3, 5);
      AppendAssoc(start, LogsBetween(p, 0, 3), LogsBetween(p, 3, 5));
    }

    /**
     * `runFullCheck`: the start entry, the scanners, and the completion entry; an exception
     * (`fault`) ends the scan and is logged as one error entry instead.
     */
    method RunFullCheck(fault: Option<Fault>)
      requires Valid()
      modifies this, page`versionSelect, page`downloadButton, page`hint, page.links, page.images
      ensures Valid()
      ensures history == old(history) + [LogEntry(SystemKind, StartMessage)]
        + RunLog(old(Snapshot()), Completed(fault)) + [FinalEntry(fault)]
      ensures Snapshot() == After(old(Snapshot()), Completed(fault))
    {
      LogRepair(SystemKind, StartMessage);
      ghost var p := Snapshot();
      var error := RunScanners(fault);
      LogsBetweenIsRunLog(p, Completed(fault));
      RepairedIsAfter(p, Completed(fault));
      if error.Some? {
        ReportError(error.value);
      } else {
        LogRepair(SystemKind, DoneMessage);
      }
    }
  }
}

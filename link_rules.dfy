/**
 * The three rules `checkAndRepairLinks` applies to every anchor that has an `href` attribute.
 * All three test the href as it was read at the start (the attribute value), so the HTTPS rule
 * writes its result over whatever the relative-path rule wrote.
 */
module LinkRules {
  import opened JsStrings
  import opened RepairLog
  import opened RepairMarks

  /** An anchor selected by `a[href]`: its href attribute (never null here), text, title and classes. */
  datatype Link = Link(href: string, text: string, title: string, classes: set<string>)

  const LinkKind := "链接修复"
  const WarningTitle := "警告: 此链接可能无效"
  const UnknownLinkText := "未知链接"

  /** Rule (a): the href is empty, `#`, or trims to the empty string. */
  predicate IsEmptyHref(h: string) {
    h == "" || h == "#" || Trim(h) == ""
  }

  /** Rule (b): a non-empty href not starting `http` or `#` that has a `.` and no `/`. */
  predicate IsBareFileName(h: string) {
    h != "" && !StartsWith(h, "http") && !StartsWith(h, "#")
    && Contains(h, ".") && !Contains(h, "/")
  }

  /** Rule (c): a non-empty href mentioning `microsoft.com` that does not start `https://`. */
  predicate IsInsecureMicrosoft(h: string) {
    h != "" && Contains(h, "microsoft.com") && !StartsWith(h, "https://")
  }

  /** The href rule (c) writes: the original with its first `http://` replaced. */
  function SecureHref(h: string): string {
    ReplaceFirst(h, "http://", "https://")
  }

  /** `link.textContent || '未知链接'`. */
  function DisplayText(text: string): string {
    if text == "" then UnknownLinkText else text
  }

  /** The message of rule (a), naming the link's text. */
  function EmptyLinkMessage(text: string): string {
    "修复空链接: " + DisplayText(text)
  }

  /** The message of rule (b): the old and the new href. */
  function RelativeMessage(h: string): string {
    "修正相对路径: " + h + " -> ./" + h
  }

  /** The message rule (c) logs before the rewrite. */
  const InsecureNotice := "发现不安全的Microsoft链接，修复为HTTPS..."

  /** The message rule (c) logs after the rewrite, naming the new href. */
  function SecuredMessage(secure: string): string {
    "链接已修复: " + secure
  }

  /** Rule (a) on `l` for the original href `h`: the warning class and title. */
  function FlagEmpty(l: Link, h: string): Link {
    if IsEmptyHref(h) then l.(classes := l.classes + {WarningClass}, title := WarningTitle) else l
  }

  /** Rule (b) on `l` for the original href `h`: `./` before a bare file name. */
  function PrefixRelative(l: Link, h: string): Link {
    if IsBareFileName(h) then l.(href := "./" + h, classes := l.classes + {FixedClass}) else l
  }

  /** Rule (c) on `l` for the original href `h`: the scheme rewrite of the original href. */
  function UpgradeMicrosoft(l: Link, h: string): Link {
    if IsInsecureMicrosoft(h) then l.(href := SecureHref(h), classes := l.classes + {FixedClass}) else l
  }

  function FlagEmptyLog(h: string, text: string): seq<LogEntry> {
    if IsEmptyHref(h) then [LogEntry(LinkKind, EmptyLinkMessage(text))] else []
  }

  function PrefixRelativeLog(h: string): seq<LogEntry> {
    if IsBareFileName(h) then [LogEntry(LinkKind, RelativeMessage(h))] else []
  }

  function UpgradeMicrosoftLog(h: string): seq<LogEntry> {
    if IsInsecureMicrosoft(h) then [LogEntry(LinkKind, InsecureNotice), LogEntry(LinkKind, SecuredMessage(SecureHref(h)))]
    else []
  }

  /** The link after one pass of the three rules, each reading the original href. */
  function RepairLink(l: Link): Link {
    UpgradeMicrosoft(PrefixRelative(FlagEmpty(l, l.href), l.href), l.href)
  }

  /** The entries one pass over `l` logs, in order. */
  function LinkLog(l: Link): seq<LogEntry> {
    FlagEmptyLog(l.href, l.text) + PrefixRelativeLog(l.href) + UpgradeMicrosoftLog(l.href)
  }

  /** One pass over every link, element by element. */
  function RepairLinks(ls: seq<Link>): (r: seq<Link>)
    ensures |r| == |ls|
  {
    if ls == [] then [] else RepairLinks(ls[..|ls| - 1]) + [RepairLink(ls[|ls| - 1])]
  }

  /** The entries one pass over all links logs: each link's entries, in document order. */
  function LinksLog(ls: seq<Link>): seq<LogEntry> {
    if ls == [] then [] else LinksLog(ls[..|ls| - 1]) + LinkLog(ls[|ls| - 1])
  }

  // ----- lemmas -----

  /** A string starting with a non-whitespace character does not trim to the empty string. */
  lemma NonBlankHead(s: string)
    requires s != [] && !IsJsWhitespace(s[0])
    ensures Trim(s) != []
  {
    TrimEmptyIffBlank(s);
  }

  /** An empty href (rule (a)) is never also a bare file name or an insecure Microsoft link. */
  lemma EmptyHrefExclusive(h: string)
    requires IsEmptyHref(h)
    ensures !IsBareFileName(h) && !IsInsecureMicrosoft(h)
  {
    if h != "" && h != "#" {
      TrimEmptyIffBlank(h);
      assert !IsJsWhitespace('.') && !IsJsWhitespace('m');
      MissingCharNotContains(h, ".", 0);
      MissingCharNotContains(h, "microsoft.com", 0);
    } else if h == "#" {
      assert !Contains("#"[1..], "microsoft.com");
    }
  }

  /**
   * Rule (a): an empty, `#` or blank href gains the warning class and title, its href is not
   * changed, and exactly one entry naming the link's text is logged. Any other href keeps the
   * link's title.
   */
  lemma EmptyHrefFlagged(l: Link)
    ensures IsEmptyHref(l.href) ==>
      RepairLink(l) == l.(classes := l.classes + {WarningClass}, title := WarningTitle)
      && LinkLog(l) == [LogEntry(LinkKind, EmptyLinkMessage(l.text))]
    ensures !IsEmptyHref(l.href) ==> RepairLink(l).title == l.title && RepairLink(l).text == l.text
  {
    if IsEmptyHref(l.href) {
      EmptyHrefExclusive(l.href);
    }
  }

  /**
   * Rule (b): a bare file name becomes `./` + href, unless rule (c) also fires, in which case
   * rule (c) writes the original string back and the href is unchanged.
   */
  lemma BareFileNameRewritten(l: Link)
    requires IsBareFileName(l.href)
    ensures !IsInsecureMicrosoft(l.href) ==> RepairLink(l).href == "./" + l.href
    ensures IsInsecureMicrosoft(l.href) ==> RepairLink(l).href == l.href
    ensures FixedClass in RepairLink(l).classes
  {
    NoSlashNoHttp(l.href);
    ReplaceAbsent(l.href, "http://", "https://");
  }

  /** A link no rule applies to is left as it is and nothing is logged for it. */
  lemma NoRuleApplies(l: Link)
    requires !IsEmptyHref(l.href) && !IsBareFileName(l.href) && !IsInsecureMicrosoft(l.href)
    ensures RepairLink(l) == l && LinkLog(l) == []
  {
  }

  /** A bare file name with `./` in front matches none of the three rules. */
  lemma PrefixedNoRule(h: string)
    requires IsBareFileName(h) && !IsInsecureMicrosoft(h)
    ensures !IsEmptyHref("./" + h) && !IsBareFileName("./" + h) && !IsInsecureMicrosoft("./" + h)
  {
    var h' := "./" + h;
    NonBlankHead(h');
    ContainsAt(h', "/", 1);
    assert h' == ['.'] + (['/'] + h);
    ContainsSkipHead('.', ['/'] + h, "microsoft.com");
    ContainsSkipHead('/', h, "microsoft.com");
    StartsWithPrefix(h, "http", "https://");
    assert !Contains(h, "microsoft.com");
  }

  /** After a `./` rewrite a second pass changes nothing and logs nothing. */
  lemma RelativeRewriteStable(l: Link)
    requires IsBareFileName(l.href) && !IsInsecureMicrosoft(l.href)
    ensures RepairLink(RepairLink(l)) == RepairLink(l)
    ensures LinkLog(RepairLink(l)) == []
  {
    BareFileNameRewritten(l);
    PrefixedNoRule(l.href);
    NoRuleApplies(RepairLink(l));
  }

  /** `http://` + rest has its scheme upgraded by the first-occurrence replacement. */
  lemma SecureHttp(h: string)
    requires StartsWith(h, "http://")
    ensures SecureHref(h) == "https://" + h[7..]
  {
  }

  /**
   * Rule (c): an `http://` Microsoft link becomes the same link on `https://`, and a second pass
   * changes nothing and logs nothing.
   */
  lemma HttpMicrosoftUpgraded(l: Link)
    requires StartsWith(l.href, "http://") && Contains(l.href, "microsoft.com")
    ensures RepairLink(l).href == "https://" + l.href[7..]
    ensures RepairLink(RepairLink(l)) == RepairLink(l)
    ensures LinkLog(RepairLink(l)) == []
  {
    var h := l.href;
    SecureHttp(h);
    assert StartsWith(h, "http");
    assert !IsBareFileName(h);
    assert !StartsWith(h, "https://") by { assert h[4] == ':'; }
    assert IsInsecureMicrosoft(h);
    var h' := "https://" + h[7..];
    assert RepairLink(l).href == h';
    NonBlankHead(h');
    assert StartsWith(h', "http");
    NoRuleApplies(RepairLink(l));
  }

  /** A link already on `https://` is left exactly as it is and nothing is logged for it. */
  lemma HttpsLinkUntouched(l: Link)
    requires StartsWith(l.href, "https://")
    ensures RepairLink(l) == l
    ensures LinkLog(l) == []
  {
    NonBlankHead(l.href);
    assert StartsWith(l.href, "http");
    NoRuleApplies(l);
  }

  /** Facts about the upper-case sample href used below. */
  lemma UpperCaseSample(h: string)
    requires h == "HTTP://www.microsoft.com"
    ensures IsInsecureMicrosoft(h) && !IsEmptyHref(h) && !IsBareFileName(h) && SecureHref(h) == h
  {
    UpperCaseSampleContains(h);
    UpperCaseSampleNoHttp(h);
    NonBlankHead(h);
  }

  lemma UpperCaseSampleContains(h: string)
    requires h == "HTTP://www.microsoft.com"
    ensures Contains(h, "microsoft.com") && Contains(h, "/") && !StartsWith(h, "https://")
  {
    assert OccursAt(h, "microsoft.com", 11);
    ContainsAt(h, "microsoft.com", 11);
    assert OccursAt(h, "/", 5);
    ContainsAt(h, "/", 5);
    assert h[..8][0] != "https://"[0];
  }

  lemma UpperCaseSampleNoHttp(h: string)
    requires h == "HTTP://www.microsoft.com"
    ensures SecureHref(h) == h
  {
    assert forall i | 0 <= i < |h| :: h[i] != 'h';
    MissingCharNotContains(h, "http://", 0);
    ReplaceAbsent(h, "http://", "https://");
  }

  /**
   * An instance of `InsecureMicrosoftRefires` where the href never changes: `HTTP://` is not the
   * pattern rule (c) replaces, yet the rule fires, with its two entries, on every pass.
   */
  lemma UpperCaseSchemeRefires(l: Link)
    requires l.href == "HTTP://www.microsoft.com"
    ensures RepairLink(l).href == l.href && |LinkLog(l)| == 2
    ensures RepairLink(RepairLink(l)).href == l.href && |LinkLog(RepairLink(l))| == 2
  {
    UpperCaseSample(l.href);
  }

  /**
   * The rewrite of rule (c) leaves a Microsoft href that does not start with `http://` still
   * insecure: a later `http://` gains an `s` but the string does not come to start `https://`,
   * and the `microsoft.com` occurrence, which cannot overlap an `http://`, survives.
   */
  lemma SecureHrefStaysInsecure(h: string)
    requires IsInsecureMicrosoft(h) && !StartsWith(h, "http://")
    ensures IsInsecureMicrosoft(SecureHref(h))
  {
    var k := IndexOf(h, "http://");
    if k != -1 {
      OccursAtFront(h, "http://");
      var m := IndexOf(h, "microsoft.com");
      var h' := h[..k] + "https://" + h[k + 7..];
      assert SecureHref(h) == h';
      InsertedSNotHttps(h, k);
      InsertedSKeepsOccurrence(h, k, m);
    }
  }

  /** Writing `https://` over an `http://` that is not at the front does not make the string start `https://`. */
  lemma InsertedSNotHttps(h: string, k: nat)
    requires 0 < k && OccursAt(h, "http://", k) && !StartsWith(h, "https://")
    ensures !StartsWith(h[..k] + "https://" + h[k + 7..], "https://")
  {
    var h' := h[..k] + "https://" + h[k + 7..];
    if k >= 8 {
      assert h'[..8] == h[..8];
    } else {
      assert h'[k] == 'h';
      assert h'[..8][k] != "https://"[k];
    }
  }

  /**
   * `microsoft.com` and `http://` cannot overlap (`microsoft.com` has no `h`, `http://` no `m`),
   * so writing `https://` over the `http://` keeps the `microsoft.com`, shifted by one when it
   * came after.
   */
  lemma InsertedSKeepsOccurrence(h: string, k: nat, m: nat)
    requires OccursAt(h, "http://", k) && OccursAt(h, "microsoft.com", m)
    ensures Contains(h[..k] + "https://" + h[k + 7..], "microsoft.com")
  {
    var h' := h[..k] + "https://" + h[k + 7..];
    assert h[k..k + 7] == "http://" && h[k] == h[k..k + 7][0];
    assert h[m..m + 13] == "microsoft.com" && h[m] == h[m..m + 13][0];
    assert forall j | m <= j < m + 13 :: h[j] == h[m..m + 13][j - m] != 'h';
    assert forall j | k <= j < k + 7 :: h[j] == h[k..k + 7][j - k] != 'm';
    if m + 13 <= k {
      assert forall j | m <= j < m + 13 :: h'[j] == h[j];
      assert OccursAt(h', "microsoft.com", m);
      ContainsAt(h', "microsoft.com", m);
    } else {
      assert forall j | m + 1 <= j < m + 14 :: h'[j] == h[j - 1];
      assert OccursAt(h', "microsoft.com", m + 1);
      ContainsAt(h', "microsoft.com", m + 1);
    }
  }

  /**
   * Rule (c) does not converge on a Microsoft link whose href does not start with the lower-case
   * `http://` (another scheme's case, a protocol-relative `//` link, an `http://` further in):
   * after a pass the link still matches rule (c), so every further pass logs its two entries
   * again.
   */
  lemma InsecureMicrosoftRefires(l: Link)
    requires IsInsecureMicrosoft(l.href) && !StartsWith(l.href, "http://")
    ensures IsInsecureMicrosoft(RepairLink(l).href)
    ensures |LinkLog(RepairLink(l))| >= 2
  {
    SecureHrefStaysInsecure(l.href);
  }

  /** The pass repairs every link on its own: the `i`-th result is the `i`-th link repaired. */
  lemma {:induction false} RepairLinksPointwise(ls: seq<Link>)
    ensures forall i | 0 <= i < |ls| :: RepairLinks(ls)[i] == RepairLink(ls[i])
  {
    if ls != [] {
      var init := ls[..|ls| - 1];
      RepairLinksPointwise(init);
      forall i | 0 <= i < |ls| ensures RepairLinks(ls)[i] == RepairLink(ls[i]) {
        if i < |init| {
          assert init[i] == ls[i];
        }
      }
    }
  }

  /** Repairing the link at position `i` extends the repaired prefix by one. */
  lemma RepairLinksStep(ls: seq<Link>, i: nat)
    requires i < |ls|
    ensures (RepairLinks(ls[..i]) + ls[i..])[i := RepairLink(ls[i])] == RepairLinks(ls[..i + 1]) + ls[i + 1..]
  {
    assert ls[..i + 1][..i] == ls[..i];
  }

  /** The entries for the first `i + 1` links are those for the first `i`, then the `i`-th link's. */
  lemma LinksLogStep(ls: seq<Link>, i: nat)
    requires i < |ls|
    ensures LinksLog(ls[..i + 1]) == LinksLog(ls[..i]) + LinkLog(ls[i])
  {
    assert ls[..i + 1][..i] == ls[..i];
  }
}

/**
 * The page-specific pass `checkAndRepairWindows11DownloadFunctionality`: the version selector
 * (`#product-edition`), the download button (`.btn-primary` whose href mentions the installer
 * file), their fallback href, the three edition options and the hint paragraph.
 */
module DownloadWidget {
  import opened Wrappers
  import opened JsStrings
  import opened RepairLog
  import opened RepairMarks

  /**
   * An option of the selector. `value` is the option's `value` property, which the flag loop
   * reads; that property is the text when the `value` attribute is absent, so it is not the
   * attribute itself.
   */
  datatype SelectOption = SelectOption(value: string, text: string)

  /** The version selector: its options in order and its classes. */
  datatype VersionSelect = VersionSelect(options: seq<SelectOption>, classes: set<string>)

  /** The download button: its href attribute (`None` when absent) and its classes. */
  datatype DownloadButton = DownloadButton(href: Option<string>, classes: set<string>)

  /** An edition the selector must offer, and the entry logged when it is missing. */
  datatype Edition = Edition(option: SelectOption, missingNote: string)

  const Editions: seq<Edition> := [
    Edition(SelectOption("3262", "Windows 11 多版本ISO"), "缺少多版本ISO选项，添加..."),
    Edition(SelectOption("3263", "Windows 11 家庭版（仅限中国）"), "缺少家庭版选项，添加..."),
    Edition(SelectOption("3264", "Windows 11 专业中文版本"), "缺少专业版选项，添加...")
  ]

  /** The installer file name the button selector looks for in the href. */
  const IsoName := "Win11_25H2_Chinese_Simplified_x64.iso"
  const FallbackUrl := "https://software.download.prss.microsoft.com/dbazure/" + IsoName
  const HintText := "请先从下拉菜单中选择您需要的Windows 11版本，然后再点击下载按钮。"

  const CheckKind := "功能检查"
  const FixKind := "功能修复"
  const WarnKind := "功能警告"

  predicate HasValue(options: seq<SelectOption>, v: string) {
    exists i | 0 <= i < |options| :: options[i].value == v
  }

  /** The flag loop over `versionSelect.options`. */
  method ScanEditions(options: seq<SelectOption>) returns (hasMulti: bool, hasHome: bool, hasPro: bool)
    ensures hasMulti <==> HasValue(options, "3262")
    ensures hasHome <==> HasValue(options, "3263")
    ensures hasPro <==> HasValue(options, "3264")
  {
    hasMulti, hasHome, hasPro := false, false, false;
    for i := 0 to |options|
      invariant hasMulti <==> HasValue(options[..i], "3262")
      invariant hasHome <==> HasValue(options[..i], "3263")
      invariant hasPro <==> HasValue(options[..i], "3264")
    {
      assert options[..i + 1] == options[..i] + [options[i]];
      assert HasValue([options[i]], options[i].value);
      HasValueAppend(options[..i], [options[i]], "3262");
      HasValueAppend(options[..i], [options[i]], "3263");
      HasValueAppend(options[..i], [options[i]], "3264");
      if options[i].value == "3262" { hasMulti := true; }
      if options[i].value == "3263" { hasHome := true; }
      if options[i].value == "3264" { hasPro := true; }
    }
    assert options[..|options|] == options;
  }

  /** The editions whose value no option has, in the fixed order 3262, 3263, 3264. */
  function MissingEditions(options: seq<SelectOption>): seq<Edition> {
    (if HasValue(options, "3262") then [] else [Editions[0]])
    + (if HasValue(options, "3263") then [] else [Editions[1]])
    + (if HasValue(options, "3264") then [] else [Editions[2]])
  }

  function OptionsOf(editions: seq<Edition>): (r: seq<SelectOption>)
    ensures |r| == |editions| && forall i | 0 <= i < |editions| :: r[i] == editions[i].option
  {
    if editions == [] then [] else [editions[0].option] + OptionsOf(editions[1..])
  }

  /** The option list after the pass: the missing editions appended. */
  function CompletedOptions(options: seq<SelectOption>): seq<SelectOption> {
    options + OptionsOf(MissingEditions(options))
  }

  /** `!currentHref || currentHref === '#'`. */
  predicate NeedsFallback(href: Option<string>) {
    href.None? || href == Some("") || href == Some("#")
  }

  function RepairButton(b: DownloadButton): DownloadButton {
    if NeedsFallback(b.href) then b.(href := Some(FallbackUrl), classes := b.classes + {FixedClass}) else b
  }

  /** One step of the option check: edition `e` appended unless some option already has its value. */
  function WithEdition(s: VersionSelect, e: Edition, present: bool): VersionSelect {
    if present then s else s.(options := s.options + [e.option], classes := s.classes + {FixedClass})
  }

  /** What one step of the option check logs. */
  function EditionNote(e: Edition, present: bool): seq<LogEntry> {
    if present then [] else [LogEntry(FixKind, e.missingNote)]
  }

  /** The selector after the pass: options completed, marked fixed when any was added. */
  function RepairSelect(s: VersionSelect): VersionSelect {
    var missing := MissingEditions(s.options);
    s.(options := CompletedOptions(s.options), classes := if missing == [] then s.classes else s.classes + {FixedClass})
  }

  function MissingNotes(editions: seq<Edition>): (r: seq<LogEntry>)
    ensures |r| == |editions| && forall i | 0 <= i < |editions| :: r[i] == LogEntry(FixKind, editions[i].missingNote)
  {
    if editions == [] then [] else [LogEntry(FixKind, editions[0].missingNote)] + MissingNotes(editions[1..])
  }

  const CheckStart := "检查Windows 11 ISO下载功能..."
  const BothFound := "已找到版本选择器和下载按钮，开始检查功能..."
  const InvalidHref := "下载按钮链接无效，设置默认链接..."
  const FallbackSet := "已设置默认下载链接"
  const VerifyNotice := "验证版本切换逻辑..."
  const FinishedNotice := "Windows 11 ISO下载功能检查和修复完成！"
  const NotFoundWarning := "未找到版本选择器或下载按钮元素，无法自动修复Windows 11 ISO下载功能"

  /** What the href check logs: two entries when the fallback is written, none otherwise. */
  function ButtonLog(href: Option<string>): seq<LogEntry> {
    if NeedsFallback(href) then [LogEntry(FixKind, InvalidHref), LogEntry(FixKind, FallbackSet)] else []
  }

  /** What the pass logs once both elements are found, after the opening entry. */
  function RepairLogOf(select: VersionSelect, button: DownloadButton): seq<LogEntry> {
    [LogEntry(CheckKind, BothFound)]
    + ButtonLog(button.href)
    + MissingNotes(MissingEditions(select.options))
    + [LogEntry(CheckKind, VerifyNotice), LogEntry(CheckKind, FinishedNotice)]
  }

  /** Everything the pass logs. */
  function WidgetLog(select: Option<VersionSelect>, button: Option<DownloadButton>): seq<LogEntry> {
    [LogEntry(CheckKind, CheckStart)]
    + if select.Some? && button.Some? then RepairLogOf(select.value, button.value)
      else [LogEntry(WarnKind, NotFoundWarning)]
  }

  // ----- lemmas -----

  lemma {:induction false} HasValueAppend(options: seq<SelectOption>, more: seq<SelectOption>, v: string)
    ensures HasValue(options + more, v) <==> HasValue(options, v) || HasValue(more, v)
  {
    var all := options + more;
    if HasValue(all, v) {
      var k :| 0 <= k < |all| && all[k].value == v;
      if k >= |options| {
        assert more[k - |options|] == all[k];
      }
    }
    if HasValue(more, v) {
      var k :| 0 <= k < |more| && more[k].value == v;
      assert all[k + |options|] == more[k];
    }
    if HasValue(options, v) {
      var k :| 0 <= k < |options| && options[k].value == v;
      assert all[k] == options[k];
    }
  }

  /**
   * After the pass all three edition values are offered; the options that were there keep their
   * place and content, and what is appended is exactly the missing editions, in order, with
   * their fixed labels.
   */
  lemma CompletedHasAll(options: seq<SelectOption>)
    ensures HasValue(CompletedOptions(options), "3262")
    ensures HasValue(CompletedOptions(options), "3263")
    ensures HasValue(CompletedOptions(options), "3264")
    ensures CompletedOptions(options)[..|options|] == options
    ensures |CompletedOptions(options)| - |options| <= 3
    ensures forall e :: e in MissingEditions(options) <==> e in Editions && !HasValue(options, e.option.value)
  {
    var added := OptionsOf(MissingEditions(options));
    HasValueAppend(options, added, "3262");
    HasValueAppend(options, added, "3263");
    HasValueAppend(options, added, "3264");
    var m := MissingEditions(options);
    if !HasValue(options, "3262") {
      assert added[0] == Editions[0].option;
    }
    if !HasValue(options, "3263") {
      var k := if HasValue(options, "3262") then 0 else 1;
      assert m[k] == Editions[1];
      assert added[k].value == "3263";
    }
    if !HasValue(options, "3264") {
      var k := |m| - 1;
      assert m[k] == Editions[2];
      assert added[k].value == "3264";
    }
  }

  /** The missing editions, one optional part per value, in the order the pass tests them. */
  lemma MissingSplit(options: seq<SelectOption>)
    ensures OptionsOf(MissingEditions(options)) ==
      (if HasValue(options, "3262") then [] else [Editions[0].option])
      + (if HasValue(options, "3263") then [] else [Editions[1].option])
      + (if HasValue(options, "3264") then [] else [Editions[2].option])
    ensures MissingNotes(MissingEditions(options)) ==
      (if HasValue(options, "3262") then [] else [LogEntry(FixKind, Editions[0].missingNote)])
      + (if HasValue(options, "3263") then [] else [LogEntry(FixKind, Editions[1].missingNote)])
      + (if HasValue(options, "3264") then [] else [LogEntry(FixKind, Editions[2].missingNote)])
  {
  }

  /** The three steps of the option check, each testing the original options, give the completed selector. */
  lemma RepairSelectInSteps(s: VersionSelect)
    ensures RepairSelect(s) ==
      WithEdition(WithEdition(WithEdition(s, Editions[0], HasValue(s.options, "3262")),
        Editions[1], HasValue(s.options, "3263")), Editions[2], HasValue(s.options, "3264"))
  {
    var t := WithEdition(WithEdition(WithEdition(s, Editions[0], HasValue(s.options, "3262")),
      Editions[1], HasValue(s.options, "3263")), Editions[2], HasValue(s.options, "3264"));
    StepsAppendMissing(s);
    StepsMarkFixed(s);
    assert t == RepairSelect(s).(options := t.options, classes := t.classes);
  }

  lemma StepsAppendMissing(s: VersionSelect)
    ensures WithEdition(WithEdition(WithEdition(s, Editions[0], HasValue(s.options, "3262")),
      Editions[1], HasValue(s.options, "3263")), Editions[2], HasValue(s.options, "3264")).options
      == CompletedOptions(s.options)
  {
    MissingSplit(s.options);
    StepsAppend(s, HasValue(s.options, "3262"), HasValue(s.options, "3263"), HasValue(s.options, "3264"));
  }

  lemma StepsAppend(s: VersionSelect, h0: bool, h1: bool, h2: bool)
    ensures WithEdition(WithEdition(WithEdition(s, Editions[0], h0), Editions[1], h1), Editions[2], h2).options
      == s.options + ((if h0 then [] else [Editions[0].option]) + (if h1 then [] else [Editions[1].option])
                      + (if h2 then [] else [Editions[2].option]))
  {
  }

  lemma StepsMarkFixed(s: VersionSelect)
    ensures WithEdition(WithEdition(WithEdition(s, Editions[0], HasValue(s.options, "3262")),
      Editions[1], HasValue(s.options, "3263")), Editions[2], HasValue(s.options, "3264")).classes
      == RepairSelect(s).classes
  {
    MissingSplit(s.options);
    assert s.classes + {FixedClass} + {FixedClass} == s.classes + {FixedClass};
    assert s.classes + {FixedClass} + {FixedClass} + {FixedClass} == s.classes + {FixedClass};
  }

  /** The entries of a repairing pass, in the order the pass logs them. */
  lemma RepairLogInOrder(h: seq<LogEntry>, s: VersionSelect, b: DownloadButton)
    ensures h + [LogEntry(CheckKind, BothFound)] + ButtonLog(b.href) + MissingNotes(MissingEditions(s.options))
      + [LogEntry(CheckKind, VerifyNotice)] + [LogEntry(CheckKind, FinishedNotice)]
      == h + RepairLogOf(s, b)
  {
    var x, y, z := [LogEntry(CheckKind, BothFound)], ButtonLog(b.href), MissingNotes(MissingEditions(s.options));
    var v, f := [LogEntry(CheckKind, VerifyNotice)], [LogEntry(CheckKind, FinishedNotice)];
    assert v + f == [LogEntry(CheckKind, VerifyNotice), LogEntry(CheckKind, FinishedNotice)];
    assert h + x + y + z + v + f == h + (x + y + z + (v + f));
  }

  /** A second pass appends nothing and leaves the selector's options as they are. */
  lemma CompletionIdempotent(options: seq<SelectOption>)
    ensures MissingEditions(CompletedOptions(options)) == []
    ensures CompletedOptions(CompletedOptions(options)) == CompletedOptions(options)
  {
    CompletedHasAll(options);
    assert OptionsOf([]) == [];
  }

  /** A missing, empty or `#` href becomes the fallback URL; any other href is kept. */
  lemma ButtonFallback(b: DownloadButton)
    ensures NeedsFallback(b.href) ==> RepairButton(b).href == Some(FallbackUrl) && FixedClass in RepairButton(b).classes
    ensures !NeedsFallback(b.href) ==> RepairButton(b) == b
    ensures !NeedsFallback(RepairButton(b).href)
    ensures RepairButton(RepairButton(b)) == RepairButton(b)
  {
    assert |FallbackUrl| > 1;
  }

  /**
   * A button the selector `.btn-primary[href*=...]` can match has an href containing the
   * installer name, so the fallback branch never fires on it; and the fallback URL itself
   * contains that name, so the repaired button is still found by the next pass.
   */
  lemma MatchedButtonKeepsHref(h: string)
    requires Contains(h, IsoName)
    ensures !NeedsFallback(Some(h))
    ensures Contains(FallbackUrl, IsoName)
  {
    ContainsLength(h, IsoName);
    var prefix := "https://software.download.prss.microsoft.com/dbazure/";
    assert FallbackUrl[|prefix|..|prefix| + |IsoName|] == IsoName;
    ContainsAt(FallbackUrl, IsoName, |prefix|);
  }

  /** Without the selector or the button the pass logs its start and exactly one warning. */
  lemma MissingElementsWarnOnce(select: Option<VersionSelect>, button: Option<DownloadButton>)
    requires select.None? || button.None?
    ensures |WidgetLog(select, button)| == 2 && WidgetLog(select, button)[1].kind == WarnKind
  {
  }

  /** With both present, a second pass logs no repair (only the fixed notices of a clean pass). */
  lemma SecondPassLogsNoRepair(s: VersionSelect, b: DownloadButton)
    ensures WidgetLog(Some(RepairSelect(s)), Some(RepairButton(b))) ==
      [LogEntry(CheckKind, CheckStart), LogEntry(CheckKind, BothFound),
       LogEntry(CheckKind, VerifyNotice), LogEntry(CheckKind, FinishedNotice)]
  {
    CompletionIdempotent(s.options);
    ButtonFallback(b);
    assert MissingNotes([]) == [];
  }
}

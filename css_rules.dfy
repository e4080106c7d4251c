/**
 * The rule search of `checkAndRepairCSS`: a critical class counts as defined when some
 * readable stylesheet has a rule whose `selectorText` contains `.name` or `#name` (as a
 * substring). A stylesheet whose rules cannot be read (cross-origin) throws inside the `try`
 * and is skipped; a rule without `selectorText` (an at-rule) matches nothing.
 */
module CssRules {
  import opened Wrappers
  import opened JsStrings
  import opened RepairLog
  import opened PresenceRules

  /** `document.styleSheets`: `None` for a sheet whose rules throw on access; each rule's `selectorText`. */
  type StyleSheets = seq<Option<seq<Option<string>>>>

  const CriticalClasses: seq<string> := ["container", "btn-primary", "footer", "btn-download", "download-option"]
  const CssKind := "CSS修复"
  const CssPrefix := "未找到关键CSS类: "

  predicate SelectorMentions(selector: string, name: string) {
    Contains(selector, "." + name) || Contains(selector, "#" + name)
  }

  predicate RuleMatches(rule: Option<string>, name: string) {
    rule.Some? && SelectorMentions(rule.value, name)
  }

  predicate SheetDefines(rules: seq<Option<string>>, name: string) {
    exists j | 0 <= j < |rules| :: RuleMatches(rules[j], name)
  }

  predicate ClassDefined(sheets: StyleSheets, name: string) {
    exists i | 0 <= i < |sheets| :: sheets[i].Some? && SheetDefines(sheets[i].value, name)
  }

  /** The search loop for one class name: every sheet in turn, stopping a sheet's rules at the first match. */
  method FindClassRule(sheets: StyleSheets, name: string) returns (found: bool)
    ensures found <==> ClassDefined(sheets, name)
  {
    found := false;
    for i := 0 to |sheets|
      invariant found <==> exists k | 0 <= k < i :: sheets[k].Some? && SheetDefines(sheets[k].value, name)
    {
      if sheets[i].Some? {
        var rules := sheets[i].value;
        ghost var before := found;
        var j := 0;
        while j < |rules|
          invariant 0 <= j <= |rules|
          invariant !found ==> !before && forall m | 0 <= m < j :: !RuleMatches(rules[m], name)
          invariant found ==> before || SheetDefines(rules, name)
        {
          if rules[j].Some? && SelectorMentions(rules[j].value, name) {
            found := true;
            break;
          }
          j := j + 1;
        }
      }
    }
  }

  /** The critical classes no readable rule mentions, in order. */
  function UndefinedClasses(sheets: StyleSheets, names: seq<string>): (r: seq<string>)
    ensures |r| <= |names|
  {
    if names == [] then []
    else
      var rest := UndefinedClasses(sheets, names[..|names| - 1]);
      var n := names[|names| - 1];
      if ClassDefined(sheets, n) then rest else rest + [n]
  }

  /** Everything the rule search logs: one warning per undefined critical class. */
  function CssLog(sheets: StyleSheets): seq<LogEntry> {
    Report(CssKind, CssPrefix, UndefinedClasses(sheets, CriticalClasses))
  }

  // ----- lemmas -----

  /** A class is reported exactly when it is on the list and no readable rule mentions it. */
  lemma {:induction false} UndefinedMembers(sheets: StyleSheets, names: seq<string>)
    ensures forall n :: n in UndefinedClasses(sheets, names) <==> n in names && !ClassDefined(sheets, n)
  {
    if names != [] {
      var init := names[..|names| - 1];
      UndefinedMembers(sheets, init);
      assert forall m :: m in names <==> m in init || m == names[|names| - 1];
    }
  }

  lemma {:induction false} UndefinedSnoc(sheets: StyleSheets, names: seq<string>, n: string)
    ensures UndefinedClasses(sheets, names + [n])
      == UndefinedClasses(sheets, names) + (if ClassDefined(sheets, n) then [] else [n])
  {
    assert (names + [n])[..|names|] == names;
  }

  /** A stylesheet whose rules cannot be read contributes nothing, wherever it stands. */
  lemma InaccessibleSheetIgnored(before: StyleSheets, after: StyleSheets, name: string)
    ensures ClassDefined(before + [None] + after, name) <==> ClassDefined(before + after, name)
  {
    var all, rest := before + [None] + after, before + after;
    if ClassDefined(all, name) {
      var i :| 0 <= i < |all| && all[i].Some? && SheetDefines(all[i].value, name);
      if i < |before| {
        assert rest[i] == all[i];
      } else {
        assert rest[i - 1] == all[i];
      }
    }
    if ClassDefined(rest, name) {
      var i :| 0 <= i < |rest| && rest[i].Some? && SheetDefines(rest[i].value, name);
      if i < |before| {
        assert all[i] == rest[i];
      } else {
        assert all[i + 1] == rest[i];
      }
    }
  }

  /** The match is on substrings: a rule for `.btn-primary-outline` counts as defining `btn-primary`. */
  lemma SubstringSelectorCounts()
    ensures ClassDefined([Some([Some(".btn-primary-outline")])], "btn-primary")
  {
    var sel := ".btn-primary-outline";
    assert sel[0..12] == "." + "btn-primary";
    ContainsAt(sel, "." + "btn-primary", 0);
    var rules: seq<Option<string>> := [Some(sel)];
    assert RuleMatches(rules[0], "btn-primary");
    assert SheetDefines(rules, "btn-primary");
    var sheets: StyleSheets := [Some(rules)];
    assert sheets[0].Some? && SheetDefines(sheets[0].value, "btn-primary");
  }

  /** The search logs exactly one warning per critical class that is not defined, naming it. */
  lemma CssLogExact(sheets: StyleSheets)
    ensures |CssLog(sheets)| <= |CriticalClasses|
    ensures forall e :: e in CssLog(sheets) <==>
      exists n :: n in CriticalClasses && !ClassDefined(sheets, n) && e == LogEntry(CssKind, CssPrefix + n)
  {
    var missing := UndefinedClasses(sheets, CriticalClasses);
    var log := CssLog(sheets);
    UndefinedMembers(sheets, CriticalClasses);
    ReportPointwise(CssKind, CssPrefix, missing);
    forall e ensures e in log <==>
      exists n :: n in CriticalClasses && !ClassDefined(sheets, n) && e == LogEntry(CssKind, CssPrefix + n)
    {
      if e in log {
        var i :| 0 <= i < |log| && log[i] == e;
        assert missing[i] in missing;
      }
      if exists n :: n in CriticalClasses && !ClassDefined(sheets, n) && e == LogEntry(CssKind, CssPrefix + n) {
        var n :| n in CriticalClasses && !ClassDefined(sheets, n) && e == LogEntry(CssKind, CssPrefix + n);
        var i :| 0 <= i < |missing| && missing[i] == n;
        assert log[i] == e;
      }
    }
  }
}

/**
 * The detection-only checks: the structural selectors `checkAndRepairHTMLStructure` requires and
 * the global functions `checkAndRepairJavaScriptFunctions` requires. Each missing name is
 * reported by one log entry, in the order of the list; nothing is repaired.
 */
module PresenceRules {
  import opened RepairLog

  const RequiredSelectors: seq<string> := [".navbar", ".container", "footer", "header", "main"]
  const RequiredFunctions: seq<string> := ["adjustForScreenSize"]

  const StructureKind := "HTML结构修复"
  const StructurePrefix := "找不到必需元素: "
  const ScriptKind := "JavaScript修复"
  const ScriptPrefix := "未找到必需的函数: "
  const ScriptCheckKind := "JavaScript检查"
  const SelectorCheckPassed := "版本选择器功能检查通过"

  /** The names of `names` not in `present`, in their original order. */
  function MissingFrom(names: seq<string>, present: set<string>): (r: seq<string>)
    ensures |r| <= |names|
  {
    if names == [] then []
    else
      var rest := MissingFrom(names[..|names| - 1], present);
      var n := names[|names| - 1];
      if n in present then rest else rest + [n]
  }

  /** One entry `(kind, prefix + name)` per name, in order. */
  function Report(kind: string, prefix: string, names: seq<string>): (r: seq<LogEntry>)
    ensures |r| == |names|
  {
    if names == [] then [] else Report(kind, prefix, names[..|names| - 1]) + [LogEntry(kind, prefix + names[|names| - 1])]
  }

  /** Everything the structure check logs, given the selectors that match at least one element. */
  function StructureLog(present: set<string>): seq<LogEntry> {
    Report(StructureKind, StructurePrefix, MissingFrom(RequiredSelectors, present))
  }

  /**
   * Everything the script check logs: one entry per required function that is not a function
   * on `window`, then the pass notice when both the version selector and the button exist.
   */
  function ScriptLog(functions: set<string>, selectorFound: bool, buttonFound: bool): seq<LogEntry> {
    Report(ScriptKind, ScriptPrefix, MissingFrom(RequiredFunctions, functions))
    + (if selectorFound && buttonFound then [LogEntry(ScriptCheckKind, SelectorCheckPassed)] else [])
  }

  // ----- lemmas -----

  /** A name is missing exactly when it is on the list and not present. */
  lemma {:induction false} MissingFromMembers(names: seq<string>, present: set<string>)
    ensures forall n :: n in MissingFrom(names, present) <==> n in names && n !in present
  {
    if names != [] {
      var init := names[..|names| - 1];
      MissingFromMembers(init, present);
      assert forall m :: m in names <==> m in init || m == names[|names| - 1];
    }
  }

  /** The `i`-th entry of a report names the `i`-th name. */
  lemma {:induction false} ReportPointwise(kind: string, prefix: string, names: seq<string>)
    ensures forall i | 0 <= i < |names| :: Report(kind, prefix, names)[i] == LogEntry(kind, prefix + names[i])
  {
    if names != [] {
      var init := names[..|names| - 1];
      ReportPointwise(kind, prefix, init);
      forall i | 0 <= i < |names| ensures Report(kind, prefix, names)[i] == LogEntry(kind, prefix + names[i]) {
        if i < |init| {
          assert init[i] == names[i];
        }
      }
    }
  }

  /** Extending the list by one name extends the missing names by that name exactly when it is absent. */
  lemma {:induction false} MissingFromSnoc(names: seq<string>, n: string, present: set<string>)
    ensures MissingFrom(names + [n], present) == MissingFrom(names, present) + (if n in present then [] else [n])
  {
    assert (names + [n])[..|names|] == names;
  }

  lemma {:induction false} ReportAppend(kind: string, prefix: string, names: seq<string>, more: seq<string>)
    ensures Report(kind, prefix, names + more) == Report(kind, prefix, names) + Report(kind, prefix, more)
  {
    var l, r := Report(kind, prefix, names + more), Report(kind, prefix, names) + Report(kind, prefix, more);
    ReportPointwise(kind, prefix, names + more);
    ReportPointwise(kind, prefix, names);
    ReportPointwise(kind, prefix, more);
    assert |l| == |r|;
    forall i | 0 <= i < |l| ensures l[i] == r[i] {
      if i < |names| {
        assert (names + more)[i] == names[i];
      } else {
        assert (names + more)[i] == more[i - |names|];
      }
    }
  }

  /**
   * The structure check logs one entry per required selector with no match, naming it, in the
   * order of the list, and nothing when every selector matches.
   */
  lemma StructureLogExact(present: set<string>)
    ensures |StructureLog(present)| <= |RequiredSelectors|
    ensures forall e :: e in StructureLog(present) <==>
      exists s :: s in RequiredSelectors && s !in present && e == LogEntry(StructureKind, StructurePrefix + s)
    ensures (forall s | s in RequiredSelectors :: s in present) ==> StructureLog(present) == []
  {
    var missing := MissingFrom(RequiredSelectors, present);
    var log := StructureLog(present);
    MissingFromMembers(RequiredSelectors, present);
    ReportPointwise(StructureKind, StructurePrefix, missing);
    forall e ensures e in log <==>
      exists s :: s in RequiredSelectors && s !in present && e == LogEntry(StructureKind, StructurePrefix + s)
    {
      if e in log {
        var i :| 0 <= i < |log| && log[i] == e;
        assert missing[i] in missing;
      }
      if exists s :: s in RequiredSelectors && s !in present && e == LogEntry(StructureKind, StructurePrefix + s) {
        var s :| s in RequiredSelectors && s !in present && e == LogEntry(StructureKind, StructurePrefix + s);
        var i :| 0 <= i < |missing| && missing[i] == s;
        assert log[i] == e;
      }
    }
    assert missing != [] ==> missing[0] in missing;
  }
}

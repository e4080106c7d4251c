/**
 * The JavaScript string operations the repair rules use, on `string` (a sequence of characters):
 * `startsWith`, `includes`, `indexOf`, `lastIndexOf`, `replace` with a string pattern, and `trim`.
 */
module JsStrings {

  /** `s.startsWith(p)`. */
  predicate StartsWith(s: string, p: string) {
    |p| <= |s| && s[..|p|] == p
  }

  /** `s.includes(p)`: `p` occurs somewhere in `s` (the empty string occurs everywhere). */
  predicate Contains(s: string, p: string)
    decreases |s|
  {
    StartsWith(s, p) || (s != [] && Contains(s[1..], p))
  }

  /** `p` occurs in `s` starting at position `k`. */
  predicate OccursAt(s: string, p: string, k: nat) {
    k + |p| <= |s| && forall i | 0 <= i < |p| :: s[k + i] == p[i]
  }

  /** An occurrence at the front is a prefix. */
  lemma OccursAtFront(s: string, p: string)
    ensures OccursAt(s, p, 0) <==> StartsWith(s, p)
  {
    if OccursAt(s, p, 0) {
      assert s[..|p|] == p;
    }
  }

  /** Occurrences in `s[1..]` are the occurrences in `s` one position later. */
  lemma OccursAtTail(s: string, p: string, k: nat)
    requires s != []
    ensures OccursAt(s[1..], p, k) <==> OccursAt(s, p, k + 1)
  {
    if OccursAt(s, p, k + 1) {
      assert forall j | k <= j < k + |p| :: s[1..][j] == s[j + 1];
    }
  }

  /** `s.indexOf(p)`: the first position at which `p` occurs in `s`, or -1. */
  function IndexOf(s: string, p: string): (k: int)
    ensures k == -1 || (0 <= k <= |s| - |p| && OccursAt(s, p, k))
    ensures k == -1 <==> !Contains(s, p)
    ensures forall j: nat | j < k :: !OccursAt(s, p, j)
    decreases |s|
  {
    OccursAtFront(s, p);
    if StartsWith(s, p) then 0
    else if s == [] then -1
    else
      var k := IndexOf(s[1..], p);
      if k == -1 then -1
      else
        assert forall j: nat | j < k + 1 :: !OccursAt(s, p, j) by {
          forall j: nat | j < k + 1 ensures !OccursAt(s, p, j) {
            if j > 0 {
              OccursAtTail(s, p, j - 1);
            }
          }
        }
        OccursAtTail(s, p, k);
        k + 1
  }

  /**
   * `s.replace(p, r)` with a string pattern: the first occurrence of `p` is replaced by `r`,
   * and `s` is returned unchanged when `p` does not occur (`r` has no `$` patterns here).
   */
  function ReplaceFirst(s: string, p: string, r: string): string {
    var k := IndexOf(s, p);
    if k == -1 then s else s[..k] + r + s[k + |p|..]
  }

  /**
   * The characters `String.prototype.trim` removes: ECMAScript WhiteSpace (tab, vertical tab,
   * form feed, space, no-break space, byte order mark and the Unicode space separators) and
   * LineTerminator (line feed, carriage return, line and paragraph separators).
   */
  predicate IsJsWhitespace(c: char) {
    c == '\t' || c == '\n' || c == '\U{000B}' || c == '\U{000C}' || c == '\r' || c == ' '
    || c == '\U{00A0}' || c == '\U{1680}' || ('\U{2000}' <= c <= '\U{200A}')
    || c == '\U{2028}' || c == '\U{2029}' || c == '\U{202F}' || c == '\U{205F}' || c == '\U{3000}'
    || c == '\U{FEFF}'
  }

  /** Every character of `s` is whitespace (so the empty string is blank). */
  predicate IsBlank(s: string) {
    forall i | 0 <= i < |s| :: IsJsWhitespace(s[i])
  }

  function TrimStart(s: string): string
    decreases |s|
  {
    if s != [] && IsJsWhitespace(s[0]) then TrimStart(s[1..]) else s
  }

  function TrimEnd(s: string): string
    decreases |s|
  {
    if s != [] && IsJsWhitespace(s[|s| - 1]) then TrimEnd(s[..|s| - 1]) else s
  }

  /** `s.trim()`. */
  function Trim(s: string): string {
    TrimEnd(TrimStart(s))
  }

  /** `s.substring(s.lastIndexOf('/') + 1)`: what follows the last `/`, or all of `s` if it has none. */
  function AfterLastSlash(s: string): (r: string)
    ensures |r| <= |s| && forall i | 0 <= i < |r| :: r[i] == s[|s| - |r| + i]
    ensures forall i | 0 <= i < |r| :: r[i] != '/'
    ensures |r| < |s| ==> s[|s| - |r| - 1] == '/'
    decreases |s|
  {
    if s == [] then []
    else if s[|s| - 1] == '/' then []
    else AfterLastSlash(s[..|s| - 1]) + [s[|s| - 1]]
  }

  // ----- lemmas -----

  lemma {:induction false} TrimStartBlank(s: string)
    ensures TrimStart(s) == [] <==> IsBlank(s)
    ensures TrimStart(s) != [] ==> !IsJsWhitespace(TrimStart(s)[0])
    decreases |s|
  {
    if s != [] && IsJsWhitespace(s[0]) {
      TrimStartBlank(s[1..]);
      assert forall i | 1 <= i < |s| :: s[i] == s[1..][i - 1];
    }
  }

  lemma {:induction false} TrimEndEmpty(s: string)
    requires s == [] || !IsJsWhitespace(s[0])
    ensures TrimEnd(s) == [] <==> s == []
    decreases |s|
  {
    if s != [] && IsJsWhitespace(s[|s| - 1]) {
      TrimEndEmpty(s[..|s| - 1]);
    }
  }

  /** A string starting with `q` starts with every prefix `p` of `q`. */
  lemma StartsWithPrefix(s: string, p: string, q: string)
    requires StartsWith(q, p)
    ensures StartsWith(s, q) ==> StartsWith(s, p)
  {
    if StartsWith(s, q) {
      assert s[..|p|] == s[..|q|][..|p|];
    }
  }

  /** `s.trim() === ''` holds exactly when every character of `s` is whitespace. */
  lemma TrimEmptyIffBlank(s: string)
    ensures Trim(s) == [] <==> IsBlank(s)
  {
    TrimStartBlank(s);
    TrimEndEmpty(TrimStart(s));
  }

  /** An occurrence at a known position is an occurrence. */
  lemma {:induction false} ContainsAt(s: string, p: string, k: nat)
    requires OccursAt(s, p, k)
    ensures Contains(s, p)
    decreases k
  {
    if k > 0 {
      OccursAtTail(s, p, k - 1);
      ContainsAt(s[1..], p, k - 1);
    } else {
      OccursAtFront(s, p);
    }
  }

  /** A pattern that occurs is no longer than the string. */
  lemma {:induction false} ContainsLength(s: string, p: string)
    requires Contains(s, p)
    ensures |p| <= |s|
    decreases |s|
  {
    if !StartsWith(s, p) {
      ContainsLength(s[1..], p);
    }
  }

  /** A string none of whose characters is `p[k]` does not contain `p`. */
  lemma {:induction false} MissingCharNotContains(s: string, p: string, k: nat)
    requires k < |p|
    requires forall i | 0 <= i < |s| :: s[i] != p[k]
    ensures !Contains(s, p)
    decreases |s|
  {
    if |p| <= |s| {
      assert s[..|p|][k] == s[k];
    }
    if s != [] {
      MissingCharNotContains(s[1..], p, k);
    }
  }

  /** A leading character that cannot start `p` is irrelevant to whether `p` occurs. */
  lemma ContainsSkipHead(c: char, s: string, p: string)
    requires p != [] && c != p[0]
    ensures Contains([c] + s, p) <==> Contains(s, p)
  {
    assert ([c] + s)[1..] == s;
  }

  /** Every `http://` contains a `/`, so a string without `/` does not contain `http://`. */
  lemma NoSlashNoHttp(s: string)
    requires !Contains(s, "/")
    ensures !Contains(s, "http://")
  {
    forall i | 0 <= i < |s| ensures s[i] != '/' {
      if s[i] == '/' {
        ContainsAt(s, "/", i);
      }
    }
    assert "http://"[5] == '/';
    MissingCharNotContains(s, "http://", 5);
  }

  /** Replacing an absent pattern changes nothing. */
  lemma ReplaceAbsent(s: string, p: string, r: string)
    requires !Contains(s, p)
    ensures ReplaceFirst(s, p, r) == s
  {
  }
}

/**
 * The repair log's entries and the bounded-window arithmetic on them: `logRepair` pushes an
 * entry, re-renders the last 20 entries into the panel and then shifts the oldest entry out
 * once the log holds more than 100.
 */
module RepairLog {

  /** One log entry: its category label (`type`) and its message. The timestamp is not modelled. */
  datatype LogEntry = LogEntry(kind: string, message: string)

  /** The log keeps at most this many entries. */
  const Capacity: nat := 100

  /** The panel shows at most this many of the most recent entries. */
  const PanelSize: nat := 20

  /**
   * `s.slice(-n)` for `n > 0`: the last `min(n, |s|)` elements of `s`, in order, written as
   * dropping the oldest element while more than `n` remain. `LastClosed` gives the slice form.
   */
  function Last<T>(s: seq<T>, n: nat): (r: seq<T>)
    ensures |r| == if |s| <= n then |s| else n
    decreases |s|
  {
    if |s| <= n then s else Last(s[1..], n)
  }

  /** `Last` is the suffix of `s` that starts `n` elements before its end. */
  lemma {:induction false} LastClosed<T>(s: seq<T>, n: nat)
    ensures |s| <= n ==> Last(s, n) == s
    ensures |s| > n ==> Last(s, n) == s[|s| - n..]
    decreases |s|
  {
    if |s| > n {
      var t := s[1..];
      assert Last(s, n) == Last(t, n);
      LastClosed(t, n);
      if |t| > n {
        assert t[|t| - n..] == s[|s| - n..];
      } else {
        assert t == s[|s| - n..];
      }
    }
  }

  /** The stored log after `push(e)` and, when it then exceeds the capacity, one `shift()`. */
  function Pushed(log: seq<LogEntry>, e: LogEntry): seq<LogEntry> {
    var grown := log + [e];
    if |grown| > Capacity then grown[1..] else grown
  }

  /**
   * Pushing keeps the log within its capacity, puts the new entry last, and drops exactly the
   * oldest entry when the log was full; the surviving entries keep their order.
   */
  lemma PushedShape(log: seq<LogEntry>, e: LogEntry)
    requires |log| <= Capacity
    ensures |Pushed(log, e)| <= Capacity
    ensures Pushed(log, e)[|Pushed(log, e)| - 1] == e
    ensures |log| < Capacity ==> Pushed(log, e) == log + [e]
    ensures |log| == Capacity ==> Pushed(log, e) == log[1..] + [e]
  {
  }

  /** Pushing onto the window of the last 100 entries gives the window of the longer history. */
  lemma PushedWindow(history: seq<LogEntry>, e: LogEntry)
    ensures Pushed(Last(history, Capacity), e) == Last(history + [e], Capacity)
  {
    var h := history + [e];
    LastClosed(history, Capacity);
    LastClosed(h, Capacity);
    if |history| < Capacity {
      assert Pushed(history, e) == h;
    } else {
      var w := Last(history, Capacity);
      var kept := history[|history| - Capacity + 1..];
      assert w == history[|history| - Capacity..];
      assert (w + [e])[1..] == kept + [e];
      assert Pushed(w, e) == kept + [e];
      assert h[|h| - Capacity..] == kept + [e];
    }
  }

  /** Taking the last `n` of the last `m` elements (with `n <= m`) is taking the last `n`. */
  lemma LastOfLast<T>(s: seq<T>, m: nat, n: nat)
    requires n <= m
    ensures Last(Last(s, m), n) == Last(s, n)
  {
    LastClosed(s, m);
    LastClosed(s, n);
    LastClosed(Last(s, m), n);
    if |s| > m && m > n {
      assert s[|s| - m..][m - n..] == s[|s| - n..];
    }
  }

  /**
   * The panel is rendered from the log after the push and before the shift, so it may read a
   * 101-entry log; it still shows exactly the last 20 entries of what is stored afterwards, so
   * the entry the shift evicts (position 0) is never on it.
   */
  lemma PanelBeforeShift(log: seq<LogEntry>, e: LogEntry)
    requires |log| <= Capacity
    ensures Last(log + [e], PanelSize) == Last(Pushed(log, e), PanelSize)
    ensures |log| == Capacity ==> Last(log + [e], PanelSize) == (log + [e])[Capacity + 1 - PanelSize..]
  {
    LastClosed(log + [e], PanelSize);
    LastClosed(Pushed(log, e), PanelSize);
    if |log| == Capacity {
      assert (log + [e])[1..][Capacity - PanelSize..] == (log + [e])[Capacity + 1 - PanelSize..];
    }
  }
}

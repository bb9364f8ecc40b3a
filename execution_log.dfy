/**
 * The execution log panel's contents: a list of entries that only ever grows
 * at the end and keeps its last 120 entries.
 */
module ExecutionLog {
  /** The `type` of a log entry: "stdout", "stderr" or "notification". */
  datatype LogKind = Stdout | Stderr | Notice

  /** A log line. The entry's timestamp is not part of this model. */
  datatype LogEntry = LogEntry(text: string, kind: LogKind)

  /** How many entries the log keeps. */
  const Cap: nat := 120

  /** The last `k` elements of `s`, or all of `s` when it is shorter. */
  function LastOf<T>(s: seq<T>, k: nat): (r: seq<T>)
    ensures |r| == if |s| < k then |s| else k
    ensures r == s[|s| - |r|..]
  {
    if |s| <= k then s else s[|s| - k..]
  }

  /**
   * `appendLog`: the previous entries, then the new one, cut to the last
   * `Cap` entries.
   */
  function AppendLog(prev: seq<LogEntry>, e: LogEntry): (r: seq<LogEntry>)
    ensures |r| == if |prev| < Cap then |prev| + 1 else Cap
    ensures r[|r| - 1] == e
    ensures |prev| < Cap ==> r == prev + [e]
    ensures |prev| >= Cap ==> r == prev[|prev| - (Cap - 1)..] + [e]
  {
    var logs := prev + [e];
    if |logs| > Cap then
      assert logs[|logs| - Cap..] == prev[|prev| - (Cap - 1)..] + [e];
      logs[|logs| - Cap..]
    else logs
  }

  /** A run of `appendLog` calls, one per entry of `es`, in order. */
  function AppendAll(prev: seq<LogEntry>, es: seq<LogEntry>): (r: seq<LogEntry>)
    ensures es != [] ==> 0 < |r| <= Cap && r[|r| - 1] == es[|es| - 1]
  {
    if es == [] then prev
    else AppendLog(AppendAll(prev, es[..|es| - 1]), es[|es| - 1])
  }

  /** Appending one more entry extends a run of appends. */
  lemma AppendAllSnoc(prev: seq<LogEntry>, es: seq<LogEntry>, e: LogEntry)
    ensures AppendAll(prev, es + [e]) == AppendLog(AppendAll(prev, es), e)
  {
    assert (es + [e])[..|es|] == es;
  }

  lemma AppendOne(prev: seq<LogEntry>, a: LogEntry)
    ensures AppendAll(prev, [a]) == AppendLog(prev, a)
  {
    assert [a][..0] == [];
  }

  lemma AppendTwo(prev: seq<LogEntry>, es: seq<LogEntry>, a: LogEntry, b: LogEntry)
    ensures AppendAll(prev, es + [a, b]) == AppendLog(AppendLog(AppendAll(prev, es), a), b)
  {
    AppendAllSnoc(prev, es, a);
    AppendAllSnoc(prev, es + [a], b);
    assert es + [a, b] == (es + [a]) + [b];
  }

  /** Two runs of appends in a row are one run of appends. */
  lemma {:induction false} AppendAllConcat(prev: seq<LogEntry>, a: seq<LogEntry>, b: seq<LogEntry>)
    ensures AppendAll(AppendAll(prev, a), b) == AppendAll(prev, a + b)
  {
    if b == [] {
      assert a + b == a;
    } else {
      var init := b[..|b| - 1];
      var e := b[|b| - 1];
      assert b == init + [e];
      assert a + b == (a + init) + [e];
      AppendAllConcat(prev, a, init);
      AppendAllSnoc(AppendAll(prev, a), init, e);
      AppendAllSnoc(prev, a + init, e);
    }
  }

  /** Keeping the last `Cap` entries, then appending, is keeping the last `Cap` of the longer list. */
  lemma LastOfSnoc(s: seq<LogEntry>, e: LogEntry)
    ensures AppendLog(LastOf(s, Cap), e) == LastOf(s + [e], Cap)
  {
    var mid := LastOf(s, Cap);
    if |s| >= Cap {
      assert mid == s[|s| - Cap..];
      assert mid[|mid| - (Cap - 1)..] == s[|s| - (Cap - 1)..];
      assert (s + [e])[|s| + 1 - Cap..] == s[|s| - (Cap - 1)..] + [e];
    }
  }

  /**
   * However many entries are appended, the log holds the last `Cap` entries of
   * the old log followed by the new ones: nothing is reordered or lost other
   * than from the front.
   */
  lemma {:induction false} AppendAllKeepsLast(prev: seq<LogEntry>, es: seq<LogEntry>)
    requires |prev| <= Cap
    ensures AppendAll(prev, es) == LastOf(prev + es, Cap)
  {
    if es == [] {
      assert prev + es == prev;
    } else {
      var init, e := es[..|es| - 1], es[|es| - 1];
      var s := prev + init;
      calc {
        AppendAll(prev, es);
        { assert es == init + [e]; AppendAllSnoc(prev, init, e); }
        AppendLog(AppendAll(prev, init), e);
        { AppendAllKeepsLast(prev, init); }
        AppendLog(LastOf(s, Cap), e);
        { LastOfSnoc(s, e); }
        LastOf(s + [e], Cap);
        { assert s + [e] == prev + es; }
        LastOf(prev + es, Cap);
      }
    }
  }
}

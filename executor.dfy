/**
 * Running a flow: schedule the diagram, walk the order threading a context
 * through the script nodes, and write what happens to the execution log.
 *
 * `RunFrom` and `Run` say what a run produces; `Execute` is the loop that
 * produces it, one log append at a time.
 */
module Executor {
  import opened Wrappers
  import opened Graph
  import opened Scheduler
  import opened ExecutionLog
  import SchedulerProofs

  /** What a script threw: an error with a `message`, a value without one, or `null`/`undefined`. */
  datatype Thrown = WithMessage(message: string) | NoMessage | Nullish(isNull: bool)

  /**
   * What running a node's code on the context gives: either a return, with the
   * value returned (`None` standing for a falsy one) and the context as the
   * script left it (the script gets the context itself and may write to it),
   * or a throw.
   */
  datatype ScriptOutcome<C> = Returned(value: Option<C>, written: C) | Threw(thrown: Thrown)

  /** The script runner: the node's code and the current context in, an outcome out. */
  type Runner<!C> = (string, C) -> ScriptOutcome<C>

  // ---------------------------------------------------------------------------
  // Messages

  const NoNodesText := "No nodes to execute. Add nodes to the diagram before running."
  const StartText := "================== Flow execution started =================="
  const DoneText := "\U{2705} Flow execution complete."
  const EndText := "============================================================"

  const StartEntry := LogEntry(StartText, Notice)
  const DoneEntry := LogEntry(DoneText, Notice)
  const EndEntry := LogEntry(EndText, Notice)

  predicate IsDigit(c: char)
  {
    '0' <= c <= '9'
  }

  function DigitChar(d: nat): (c: char)
    requires d < 10
    ensures IsDigit(c) && c as int - '0' as int == d
  {
    ('0' as int + d) as char
  }

  /** Decimal notation of a step number, as template literals print it: no leading zero. */
  function NatToString(n: nat): (r: string)
    ensures |r| > 0
    ensures forall k :: 0 <= k < |r| ==> IsDigit(r[k])
    ensures r[0] == '0' <==> n == 0
  {
    if n < 10 then [DigitChar(n)] else NatToString(n / 10) + [DigitChar(n % 10)]
  }

  /** The number a string of decimal digits denotes. */
  function DecimalValue(s: string): int
  {
    if s == [] then 0 else 10 * DecimalValue(s[..|s| - 1]) + (s[|s| - 1] as int - '0' as int)
  }

  /** Reading back the decimal notation of `n` gives `n`. */
  lemma {:induction false} NatToStringValue(n: nat)
    ensures DecimalValue(NatToString(n)) == n
  {
    if n < 10 {
      assert [DigitChar(n)][..0] == [];
    } else {
      NatToStringValue(n / 10);
      var s := NatToString(n / 10);
      assert (s + [DigitChar(n % 10)])[..|s|] == s;
    }
  }

  /** The run of digits a string starts with. */
  function LeadingDigits(s: string): (r: string)
    ensures |r| <= |s| && r == s[..|r|]
    ensures forall k :: 0 <= k < |r| ==> IsDigit(r[k])
  {
    if s == [] || !IsDigit(s[0]) then [] else [s[0]] + LeadingDigits(s[1..])
  }

  /** Digits followed by a non-digit: the leading run of digits is exactly those digits. */
  lemma {:induction false} LeadingDigitsOf(d: string, rest: string)
    requires forall k :: 0 <= k < |d| ==> IsDigit(d[k])
    requires rest == [] || !IsDigit(rest[0])
    ensures LeadingDigits(d + rest) == d
  {
    if d == [] {
      assert d + rest == rest;
    } else {
      assert (d + rest)[0] == d[0];
      assert (d + rest)[1..] == d[1..] + rest;
      LeadingDigitsOf(d[1..], rest);
      assert d == [d[0]] + d[1..];
    }
  }

  /** The label, or the id when the label is empty (`node.label || node.id`). */
  function Name(n: Node): (r: string)
    ensures n.labelText != "" ==> r == n.labelText
    ensures n.labelText == "" ==> r == n.id
    ensures r == n.labelText || r == n.id
    ensures r == "" <==> n.labelText == "" && n.id == ""
  {
    if n.labelText != "" then n.labelText else n.id
  }

  /** A `js` node with code: the only kind of node that runs a script. */
  predicate RunsScript(n: Node)
  {
    n.kind == "js" && n.code != ""
  }

  /** Nodes that get a numbered step entry when reached. */
  predicate Loggable(n: Node)
  {
    RunsScript(n) || n.kind == "input" || n.kind == "output"
  }

  /** The `stdout` line of step number `step`, naming node `n`. */
  function StepEntry(step: nat, n: Node): (r: LogEntry)
    ensures r.kind == Stdout
  {
    LogEntry("Step " + (NatToString(step) + StepTail(n)), Stdout)
  }

  function StepTail(n: Node): string
  {
    var what := if RunsScript(n) then "Ran JS node" else if n.kind == "input" then "Input node" else "Output node";
    ": " + what + " \"" + Name(n) + "\""
  }

  /** A step line starts with "Step ", and the number that follows reads back as the step number. */
  lemma StepEntryNumber(step: nat, n: Node)
    ensures var text := StepEntry(step, n).text;
            |text| > 5 && text[..5] == "Step " && DecimalValue(LeadingDigits(text[5..])) == step
  {
    var tail := StepTail(n);
    assert tail[0] == ':';
    LeadingDigitsOf(NatToString(step), tail);
    NatToStringValue(step);
    assert ("Step " + (NatToString(step) + tail))[5..] == NatToString(step) + tail;
  }

  /** Lines of different steps differ. */
  lemma StepEntriesDiffer(a: nat, b: nat, n: Node, m: Node)
    requires a != b
    ensures StepEntry(a, n) != StepEntry(b, m)
  {
    StepEntryNumber(a, n);
    StepEntryNumber(b, m);
  }

  /** The text of a thrown value's `message`; a value without one reads as "undefined". */
  function MessageOf(x: Thrown): string
    requires !x.Nullish?
  {
    if x.WithMessage? then x.message else "undefined"
  }

  const ErrorMark := "\U{274C} Error in node \""

  /** The `stderr` line for a failing script. */
  function ErrorEntry(n: Node, message: string): (r: LogEntry)
    ensures r.kind == Stderr
  {
    LogEntry(ErrorMark + Name(n) + ("\": " + message), Stderr)
  }

  /**
   * After its number, a step line says what kind of step it was and names
   * the node in quotes.
   */
  lemma StepEntryText(step: nat, n: Node)
    ensures var text := StepEntry(step, n).text;
            var what := if RunsScript(n) then "Ran JS node"
                        else if n.kind == "input" then "Input node"
                        else "Output node";
            var digits := NatToString(step);
            |text| == 5 + |digits| + 2 + |what| + 2 + |Name(n)| + 1 &&
            text[..5 + |digits|] == "Step " + digits &&
            text[5 + |digits|..] == ": " + what + " \"" + Name(n) + "\""
  {
    var digits := NatToString(step);
    var tail := StepTail(n);
    var text := "Step " + (digits + tail);
    assert text == ("Step " + digits) + tail;
    assert text[..5 + |digits|] == "Step " + digits;
    assert text[5 + |digits|..] == tail;
  }

  /** An error line starts with the mark and the node's name, and ends with the thrown message. */
  lemma ErrorEntryText(n: Node, message: string)
    ensures var text := ErrorEntry(n, message).text;
            |text| >= |ErrorMark + Name(n)| + |message| &&
            text[..|ErrorMark + Name(n)|] == ErrorMark + Name(n) &&
            text[|text| - |message|..] == message
  {
    var head := ErrorMark + Name(n);
    var text := head + ("\": " + message);
    assert text[..|head|] == head;
    assert text[|text| - |message|..] == message;
  }

  /** Reading `message` of a thrown `null` or `undefined` throws again, out of the per-node handler. */
  function NullishFault(isNull: bool): string
  {
    "Cannot read properties of " + (if isNull then "null" else "undefined") + " (reading 'message')"
  }

  function FatalText(message: string): string
  {
    "Flow execution failed: " + message
  }

  function FatalEntry(message: string): LogEntry
  {
    LogEntry(FatalText(message), Stderr)
  }

  function Texts(ls: seq<LogEntry>): (r: seq<string>)
    ensures |r| == |ls|
  {
    if ls == [] then [] else Texts(ls[..|ls| - 1]) + [ls[|ls| - 1].text]
  }

  // ---------------------------------------------------------------------------
  // The run loop

  /** How the loop over the order ended: at its end, at a `break`, or by throwing out of it. */
  datatype Ended = Finished | Broke | Fatal(message: string)

  /** The loop's log lines, how it ended, and its context and step counter at the end. */
  datatype Trace<C> = Trace(lines: seq<LogEntry>, ended: Ended, ctx: C, step: nat)

  function Prepend<C>(ls: seq<LogEntry>, t: Trace<C>): Trace<C>
  {
    t.(lines := ls + t.lines)
  }

  /**
   * The loop over `order` from a given context and step number. Every line
   * is a numbered step except, after a `break`, the last, which names the
   * failing node; the step counter advances once per step line.
   */
  function RunFrom<C>(order: seq<Node>, runner: Runner<C>, ctx: C, step: nat): (t: Trace<C>)
    ensures t.ended.Broke? ==> |t.lines| > 0 && t.lines[|t.lines| - 1].kind == Stderr
    ensures t.step + (if t.ended.Broke? then 1 else 0) == step + |t.lines|
    ensures t.step <= step + |order|
    ensures t.ended.Fatal? ==> t.ended.message in {NullishFault(true), NullishFault(false)}
    decreases |order|
  {
    if order == [] then Trace([], Finished, ctx, step)
    else
      var n := order[0];
      if RunsScript(n) then
        match runner(n.code, ctx)
        case Returned(v, w) =>
          var next := if v.Some? then v.value else w;
          Prepend([StepEntry(step, n)], RunFrom(order[1..], runner, next, step + 1))
        case Threw(x) =>
          if x.Nullish? then Trace([], Fatal(NullishFault(x.isNull)), ctx, step)
          else Trace([ErrorEntry(n, MessageOf(x))], Broke, ctx, step)
      else if n.kind == "input" || n.kind == "output" then
        Prepend([StepEntry(step, n)], RunFrom(order[1..], runner, ctx, step + 1))
      else
        RunFrom(order[1..], runner, ctx, step)
  }

  /** The nodes of `order` that get a step entry, in order. */
  function Logged(order: seq<Node>): (r: seq<Node>)
    ensures forall n :: n in r <==> n in order && Loggable(n)
  {
    Filter(order, Loggable)
  }

  /** Step entries numbered consecutively from `step`, one per node of `ns`. */
  function Steps(ns: seq<Node>, step: nat): (r: seq<LogEntry>)
    ensures |r| == |ns|
  {
    if ns == [] then [] else [StepEntry(step, ns[0])] + Steps(ns[1..], step + 1)
  }

  /** The `k`-th step entry carries step number `step + k` and names the `k`-th node. */
  lemma StepsNumbered(ns: seq<Node>, step: nat, k: nat)
    requires k < |ns|
    ensures Steps(ns, step)[k] == StepEntry(step + k, ns[k])
  {
    StepsNumberedAt(ns, step, k, step + k);
  }

  /** `StepsNumbered` with the step number named, so that no sum appears inside a step entry. */
  lemma {:induction false} StepsNumberedAt(ns: seq<Node>, step: nat, k: nat, j: nat)
    requires k < |ns| && j == step + k
    ensures Steps(ns, step)[k] == StepEntry(j, ns[k])
  {
    if k > 0 {
      StepsNumberedAt(ns[1..], step + 1, k - 1, j);
      assert Steps(ns, step)[k] == Steps(ns[1..], step + 1)[k - 1];
      assert ns[1..][k - 1] == ns[k];
    }
  }

  lemma LoggedCons(n: Node, rest: seq<Node>)
    ensures Logged([n] + rest) == if Loggable(n) then [n] + Logged(rest) else Logged(rest)
  {
    assert ([n] + rest)[1..] == rest;
  }

  lemma StepsCons(n: Node, ns: seq<Node>, step: nat)
    ensures Steps([n] + ns, step) == [StepEntry(step, n)] + Steps(ns, step + 1)
  {
    assert ([n] + ns)[1..] == ns;
  }

  /** The context after node `n` when its script, if any, returns: a truthy
      return value replaces it, otherwise it is as the script left it. */
  function After<C>(n: Node, runner: Runner<C>, ctx: C): C
  {
    if RunsScript(n) && runner(n.code, ctx).Returned? then
      var out := runner(n.code, ctx);
      if out.value.Some? then out.value.value else out.written
    else ctx
  }

  /** One turn of the loop over a node whose script, if any, does not throw. */
  lemma RunFromStep<C>(order: seq<Node>, runner: Runner<C>, ctx: C, step: nat)
    requires order != [] && !(RunsScript(order[0]) && runner(order[0].code, ctx).Threw?)
    ensures var n := order[0];
            RunFrom(order, runner, ctx, step) ==
              if Loggable(n) then Prepend([StepEntry(step, n)], RunFrom(order[1..], runner, After(n, runner, ctx), step + 1))
              else RunFrom(order[1..], runner, ctx, step)
  {
  }

  /** A loop that finishes logs one step per loggable node, numbered without gaps from `step`. */
  lemma {:induction false} RunFromFinished<C>(order: seq<Node>, runner: Runner<C>, ctx: C, step: nat)
    requires RunFrom(order, runner, ctx, step).ended.Finished?
    ensures RunFrom(order, runner, ctx, step).lines == Steps(Logged(order), step)
    decreases |order|
  {
    if order != [] {
      var n := order[0];
      LoggedCons(n, order[1..]);
      assert order == [n] + order[1..];
      RunFromStep(order, runner, ctx, step);
      if Loggable(n) {
        RunFromFinished(order[1..], runner, After(n, runner, ctx), step + 1);
        StepsCons(n, Logged(order[1..]), step);
      } else {
        RunFromFinished(order[1..], runner, ctx, step);
      }
    }
  }

  /** Every line the loop makes is a numbered step, except the error line that ends a `break`. */
  lemma {:induction false} RunFromKinds<C>(order: seq<Node>, runner: Runner<C>, ctx: C, step: nat)
    ensures var t := RunFrom(order, runner, ctx, step);
            forall k :: 0 <= k < |t.lines| && !(t.ended.Broke? && k == |t.lines| - 1) ==> t.lines[k].kind == Stdout
    ensures forall k :: 0 <= k < |RunFrom(order, runner, ctx, step).lines| ==>
              RunFrom(order, runner, ctx, step).lines[k].kind != Notice
    decreases |order|
  {
    if order != [] {
      var n := order[0];
      if !(RunsScript(n) && runner(n.code, ctx).Threw?) {
        RunFromStep(order, runner, ctx, step);
        RunFromKinds(order[1..], runner, if Loggable(n) then After(n, runner, ctx) else ctx,
                     if Loggable(n) then step + 1 else step);
      }
    }
  }

  /** The step lines of a prefix one node longer than a prefix of the tail. */
  lemma StepsOfLongerPrefix(order: seq<Node>, i: nat, step: nat)
    requires i < |order|
    ensures Steps(Logged(order[..i + 1]), step) ==
            if Loggable(order[0]) then [StepEntry(step, order[0])] + Steps(Logged(order[1..][..i]), step + 1)
            else Steps(Logged(order[1..][..i]), step)
  {
    assert order[..i + 1] == [order[0]] + order[1..][..i];
    LoggedCons(order[0], order[1..][..i]);
    if Loggable(order[0]) {
      StepsCons(order[0], Logged(order[1..][..i]), step);
    }
  }

  lemma ConcatAssoc<T>(a: seq<T>, b: seq<T>, c: seq<T>)
    ensures a + (b + c) == (a + b) + c
  {
  }

  /** The lines of one loop turn over a node that does not throw, then the rest. */
  lemma RunFromStepLines<C>(order: seq<Node>, runner: Runner<C>, ctx: C, step: nat)
    requires order != [] && !(RunsScript(order[0]) && runner(order[0].code, ctx).Threw?)
    ensures var n := order[0];
            var t := RunFrom(order, runner, ctx, step);
            var t' := RunFrom(order[1..], runner, After(n, runner, ctx), if Loggable(n) then step + 1 else step);
            t.lines == (if Loggable(n) then [StepEntry(step, n)] else []) + t'.lines &&
            t.ended == t'.ended && t.ctx == t'.ctx
  {
    RunFromStep(order, runner, ctx, step);
    var n := order[0];
    if !Loggable(n) {
      assert After(n, runner, ctx) == ctx;
      assert [] + RunFrom(order[1..], runner, ctx, step).lines == RunFrom(order[1..], runner, ctx, step).lines;
    }
  }

  // ---------------------------------------------------------------------------
  // Where the loop stops

  /**
   * The context the loop holds when it reaches position `i` of the order:
   * each node before it replaced the context with what its script returned,
   * or, when that was falsy, kept the context its script had written to
   * (`ctx = fn(ctx) || ctx`).
   */
  function CtxAt<C>(order: seq<Node>, runner: Runner<C>, ctx: C, i: nat): C
    requires i <= |order|
    decreases i
  {
    if i == 0 then ctx else CtxAt(order[1..], runner, After(order[0], runner, ctx), i - 1)
  }

  /**
   * One more turn of the loop: a truthy return replaces the context, a falsy
   * one keeps the context as the script wrote it, and any other node leaves it alone.
   */
  lemma {:induction false} CtxAtNext<C>(order: seq<Node>, runner: Runner<C>, ctx: C, i: nat)
    requires i < |order|
    ensures var c := CtxAt(order, runner, ctx, i);
            var out := runner(order[i].code, c);
            CtxAt(order, runner, ctx, i + 1) ==
              if RunsScript(order[i]) && out.Returned? then
                (if out.value.Some? then out.value.value else out.written)
              else c
    decreases i
  {
    if i > 0 {
      CtxAtNext(order[1..], runner, After(order[0], runner, ctx), i - 1);
      assert order[1..][i - 1] == order[i];
    }
  }

  /** The node at position `i` runs a script, and that script throws on the context it is given. */
  predicate ThrowsAt<C>(order: seq<Node>, runner: Runner<C>, ctx: C, i: nat)
    requires i < |order|
  {
    RunsScript(order[i]) && runner(order[i].code, CtxAt(order, runner, ctx, i)).Threw?
  }

  /** What the script at position `i` throws. */
  function ThrownAt<C>(order: seq<Node>, runner: Runner<C>, ctx: C, i: nat): Thrown
    requires i < |order| && ThrowsAt(order, runner, ctx, i)
  {
    runner(order[i].code, CtxAt(order, runner, ctx, i)).thrown
  }

  /** Positions shift by one when the loop moves past a node that does not throw. */
  lemma ThrowsAtShift<C>(order: seq<Node>, runner: Runner<C>, ctx: C, k: nat)
    requires k + 1 < |order|
    ensures CtxAt(order, runner, ctx, k + 1) == CtxAt(order[1..], runner, After(order[0], runner, ctx), k)
    ensures ThrowsAt(order, runner, ctx, k + 1) == ThrowsAt(order[1..], runner, After(order[0], runner, ctx), k)
    ensures ThrowsAt(order, runner, ctx, k + 1) ==>
              ThrownAt(order, runner, ctx, k + 1) == ThrownAt(order[1..], runner, After(order[0], runner, ctx), k)
  {
    assert order[1..][k] == order[k + 1];
  }

  /** The position of the first script that throws, if any. */
  function FirstThrow<C>(order: seq<Node>, runner: Runner<C>, ctx: C): (r: Option<nat>)
    ensures r.Some? ==> r.value < |order| && ThrowsAt(order, runner, ctx, r.value)
    decreases |order|
  {
    if order == [] then None
    else if RunsScript(order[0]) && runner(order[0].code, ctx).Threw? then Some(0)
    else
      match FirstThrow(order[1..], runner, After(order[0], runner, ctx))
      case None => None
      case Some(k) =>
        ThrowsAtShift(order, runner, ctx, k);
        Some(k + 1)
  }

  /** `FirstThrow` finds the least throwing position, and finds none exactly when no script throws. */
  lemma {:induction false} FirstThrowIsFirst<C>(order: seq<Node>, runner: Runner<C>, ctx: C)
    ensures FirstThrow(order, runner, ctx).None? <==> forall j :: 0 <= j < |order| ==> !ThrowsAt(order, runner, ctx, j)
    ensures FirstThrow(order, runner, ctx).Some? ==>
              forall j :: 0 <= j < FirstThrow(order, runner, ctx).value ==> !ThrowsAt(order, runner, ctx, j)
    decreases |order|
  {
    if order != [] && !(RunsScript(order[0]) && runner(order[0].code, ctx).Threw?) {
      var next := After(order[0], runner, ctx);
      FirstThrowIsFirst(order[1..], runner, next);
      var r := FirstThrow(order[1..], runner, next);
      forall j | 1 <= j < |order| && (r.None? || j < r.value + 1)
        ensures !ThrowsAt(order, runner, ctx, j)
      {
        ThrowsAtShift(order, runner, ctx, j - 1);
      }
      if r.Some? {
        ThrowsAtShift(order, runner, ctx, r.value);
      } else {
        forall j | 0 <= j < |order| - 1 ensures !ThrowsAt(order[1..], runner, next, j) {
          ThrowsAtShift(order, runner, ctx, j);
        }
      }
    }
  }

  /**
   * The loop stops at the first script that throws, with the context it held
   * there. An error with or without a message breaks out of the loop after
   * the steps before that script and the line naming it with the message; a
   * `null` or `undefined` throws out of the loop after those steps. Without
   * a throwing script the loop runs to the end with the final context.
   */
  lemma {:induction false} RunFromStops<C>(order: seq<Node>, runner: Runner<C>, ctx: C, step: nat)
    ensures var t := RunFrom(order, runner, ctx, step);
            match FirstThrow(order, runner, ctx)
            case None => t.ended == Finished && t.ctx == CtxAt(order, runner, ctx, |order|)
            case Some(i) => StoppedAt(t, order, runner, ctx, step, i)
    decreases |order|
  {
    if order == [] {
    } else if RunsScript(order[0]) && runner(order[0].code, ctx).Threw? {
      assert Steps(Logged(order[..0]), step) == [] by {
        assert order[..0] == [];
      }
    } else {
      var n := order[0];
      var next := After(n, runner, ctx);
      var step' := if Loggable(n) then step + 1 else step;
      RunFromStops(order[1..], runner, next, step');
      match FirstThrow(order[1..], runner, next)
      case None => FinishesAfterTurn(order, runner, ctx, step);
      case Some(k) => StopsAfterTurn(order, runner, ctx, step, k);
    }
  }

  /** The inductive step of `RunFromStops` when no later script throws. */
  lemma FinishesAfterTurn<C>(order: seq<Node>, runner: Runner<C>, ctx: C, step: nat)
    requires order != [] && !(RunsScript(order[0]) && runner(order[0].code, ctx).Threw?)
    requires FirstThrow(order[1..], runner, After(order[0], runner, ctx)).None?
    requires var t := RunFrom(order[1..], runner, After(order[0], runner, ctx), if Loggable(order[0]) then step + 1 else step);
             t.ended == Finished && t.ctx == CtxAt(order[1..], runner, After(order[0], runner, ctx), |order| - 1)
    ensures FirstThrow(order, runner, ctx).None?
    ensures RunFrom(order, runner, ctx, step).ended == Finished
    ensures RunFrom(order, runner, ctx, step).ctx == CtxAt(order, runner, ctx, |order|)
  {
    RunFromStepLines(order, runner, ctx, step);
  }

  /** The loop's trace `t` is what stopping at the throwing script at position `i` leaves. */
  ghost predicate StoppedAt<C>(t: Trace<C>, order: seq<Node>, runner: Runner<C>, ctx: C, step: nat, i: nat)
    requires i < |order| && ThrowsAt(order, runner, ctx, i)
  {
    var x := ThrownAt(order, runner, ctx, i);
    var before := Steps(Logged(order[..i]), step);
    t.ctx == CtxAt(order, runner, ctx, i) &&
    if x.Nullish? then t.ended == Fatal(NullishFault(x.isNull)) && t.lines == before
    else t.ended == Broke && t.lines == before + [ErrorEntry(order[i], MessageOf(x))]
  }

  /** The inductive step of `RunFromStops` when a later script throws. */
  lemma StopsAfterTurn<C>(order: seq<Node>, runner: Runner<C>, ctx: C, step: nat, k: nat)
    requires k + 1 < |order| && !(RunsScript(order[0]) && runner(order[0].code, ctx).Threw?)
    requires ThrowsAt(order[1..], runner, After(order[0], runner, ctx), k)
    requires StoppedAt(RunFrom(order[1..], runner, After(order[0], runner, ctx), if Loggable(order[0]) then step + 1 else step),
                       order[1..], runner, After(order[0], runner, ctx), if Loggable(order[0]) then step + 1 else step, k)
    ensures ThrowsAt(order, runner, ctx, k + 1)
    ensures StoppedAt(RunFrom(order, runner, ctx, step), order, runner, ctx, step, k + 1)
  {
    var n := order[0];
    var next := After(n, runner, ctx);
    var step' := if Loggable(n) then step + 1 else step;
    var pre := if Loggable(n) then [StepEntry(step, n)] else [];
    RunFromStepLines(order, runner, ctx, step);
    ThrowsAtShift(order, runner, ctx, k);
    StepsOfLongerPrefix(order, k, step);
    var steps := Steps(Logged(order[1..][..k]), step');
    assert order[1..][k] == order[k + 1];
    if !ThrownAt(order, runner, ctx, k + 1).Nullish? {
      var e := ErrorEntry(order[k + 1], MessageOf(ThrownAt(order, runner, ctx, k + 1)));
      ConcatAssoc(pre, steps, [e]);
    }
  }

  /** The loop runs to the end exactly when no script on its way throws. */
  lemma RunFromFinishes<C>(order: seq<Node>, runner: Runner<C>, ctx: C, step: nat)
    ensures RunFrom(order, runner, ctx, step).ended.Finished? <==>
            forall i :: 0 <= i < |order| ==> !ThrowsAt(order, runner, ctx, i)
  {
    RunFromStops(order, runner, ctx, step);
    FirstThrowIsFirst(order, runner, ctx);
  }

  /**
   * A loop that breaks stopped at the first script that throws, which threw
   * a value that is not `null` or `undefined`: it logs the steps before that
   * script, then the error naming it with the thrown message, and nothing for
   * the nodes after it.
   */
  lemma RunFromBroke<C>(order: seq<Node>, runner: Runner<C>, ctx: C, step: nat)
    requires RunFrom(order, runner, ctx, step).ended.Broke?
    ensures FirstThrow(order, runner, ctx).Some?
    ensures var i := FirstThrow(order, runner, ctx).value;
            (forall j :: 0 <= j < i ==> !ThrowsAt(order, runner, ctx, j)) &&
            ThrowsAt(order, runner, ctx, i) && !ThrownAt(order, runner, ctx, i).Nullish? &&
            RunFrom(order, runner, ctx, step).lines ==
              Steps(Logged(order[..i]), step) + [ErrorEntry(order[i], MessageOf(ThrownAt(order, runner, ctx, i)))]
  {
    RunFromStops(order, runner, ctx, step);
    FirstThrowIsFirst(order, runner, ctx);
  }

  /**
   * A loop ended by a throw stopped at the first script that throws, which
   * threw `null` or `undefined`: it logs the steps before that script and
   * nothing for it, and carries the message of reading `message` of that value.
   */
  lemma RunFromFatal<C>(order: seq<Node>, runner: Runner<C>, ctx: C, step: nat)
    requires RunFrom(order, runner, ctx, step).ended.Fatal?
    ensures FirstThrow(order, runner, ctx).Some?
    ensures var i := FirstThrow(order, runner, ctx).value;
            (forall j :: 0 <= j < i ==> !ThrowsAt(order, runner, ctx, j)) &&
            ThrowsAt(order, runner, ctx, i) && ThrownAt(order, runner, ctx, i).Nullish? &&
            RunFrom(order, runner, ctx, step).ended.message == NullishFault(ThrownAt(order, runner, ctx, i).isNull) &&
            RunFrom(order, runner, ctx, step).lines == Steps(Logged(order[..i]), step)
  {
    RunFromStops(order, runner, ctx, step);
    FirstThrowIsFirst(order, runner, ctx);
  }

  // ---------------------------------------------------------------------------
  // A whole run

  /** What the run reports besides the log: whether it ran, and whether it failed. */
  datatype Status = NothingToRun | Completed | ScriptFailed | Crashed(message: string)

  /**
   * The outcome of a run: its status, the entries it appends to the log in
   * order, and the summary lines of the output panel (shown joined by newlines).
   */
  datatype RunResult = RunResult(status: Status, entries: seq<LogEntry>, output: seq<string>)

  /**
   * `handleExecute`, given what scheduling gives. An empty diagram logs one
   * error and stops. Otherwise the start banner comes first; a scheduling
   * fault ends the run with the failure line; a loop that finishes adds the
   * completion message; the closing banner follows unless the run crashed.
   */
  function RunWith<C>(nodes: seq<Node>, scheduled: Result<seq<Node>, Fault>, runner: Runner<C>, initial: C): (r: RunResult)
    ensures r.status == NothingToRun <==> nodes == []
    ensures nodes == [] ==> r.entries == [LogEntry(NoNodesText, Stderr)] && r.output == []
    ensures nodes != [] ==> |r.entries| >= 2 && r.entries[0] == StartEntry
    ensures r.status == Completed ==> r.entries[|r.entries| - 2..] == [DoneEntry, EndEntry]
    ensures r.status == ScriptFailed ==>
              r.entries[|r.entries| - 1] == EndEntry && r.entries[|r.entries| - 2].kind == Stderr
    ensures r.status.Crashed? ==>
              r.entries[|r.entries| - 1] == FatalEntry(r.status.message) && r.output == [FatalText(r.status.message)]
  {
    if nodes == [] then RunResult(NothingToRun, [LogEntry(NoNodesText, Stderr)], [])
    else
      match scheduled
      case Err(f) =>
        var m := FaultMessage(f);
        RunResult(Crashed(m), [StartEntry, FatalEntry(m)], [FatalText(m)])
      case Ok(o) =>
        var t := RunFrom(o, runner, initial, 1);
        match t.ended
        case Finished =>
          RunResult(Completed, [StartEntry] + t.lines + [DoneEntry, EndEntry], Texts(t.lines) + [DoneText])
        case Broke =>
          RunResult(ScriptFailed, [StartEntry] + t.lines + [EndEntry], Texts(t.lines))
        case Fatal(m) =>
          RunResult(Crashed(m), [StartEntry] + t.lines + [FatalEntry(m)], [FatalText(m)])
  }

  /** `handleExecute` on a diagram: the run over the order the scheduler computes. */
  function Run<C>(nodes: seq<Node>, edges: seq<Edge>, runner: Runner<C>, initial: C): (r: RunResult)
    ensures nodes != [] && Order(nodes, edges).Err? ==>
              var m := FaultMessage(Order(nodes, edges).error);
              r.status == Crashed(m) && r.entries == [StartEntry, FatalEntry(m)]
    ensures r.status == Completed || r.status == ScriptFailed ==> Order(nodes, edges).Ok?
  {
    RunWith(nodes, Order(nodes, edges), runner, initial)
  }

  /** The entries of notification type, in order. */
  function Notices(es: seq<LogEntry>): seq<LogEntry>
  {
    if es == [] then [] else (if es[0].kind == Notice then [es[0]] else []) + Notices(es[1..])
  }

  lemma {:induction false} NoticesAppend(a: seq<LogEntry>, b: seq<LogEntry>)
    ensures Notices(a + b) == Notices(a) + Notices(b)
  {
    if a == [] {
      assert a + b == b;
    } else {
      var h := if a[0].kind == Notice then [a[0]] else [];
      assert (a + b)[0] == a[0] && (a + b)[1..] == a[1..] + b;
      calc {
        Notices(a + b);
        h + Notices(a[1..] + b);
        { NoticesAppend(a[1..], b); }
        h + (Notices(a[1..]) + Notices(b));
        { ConcatAssoc(h, Notices(a[1..]), Notices(b)); }
        Notices(a) + Notices(b);
      }
    }
  }

  lemma {:induction false} NoNotices(es: seq<LogEntry>)
    requires forall k :: 0 <= k < |es| ==> es[k].kind != Notice
    ensures Notices(es) == []
  {
    if es != [] {
      NoNotices(es[1..]);
    }
  }

  /** The notices of a run that reached its loop: the start banner, what the loop logs, and the tail. */
  lemma LoopNotices<C>(order: seq<Node>, runner: Runner<C>, initial: C, tail: seq<LogEntry>)
    ensures Notices([StartEntry] + RunFrom(order, runner, initial, 1).lines + tail) == [StartEntry] + Notices(tail)
  {
    var lines := RunFrom(order, runner, initial, 1).lines;
    RunFromKinds(order, runner, initial, 1);
    NoNotices(lines);
    NoticesAppend([StartEntry], lines);
    NoticesAppend([StartEntry] + lines, tail);
    BannerNotices();
  }

  /**
   * The banners and the completion message are the run's only entries of
   * notification type: the start banner opens every run that has nodes, the
   * completion message is there exactly when the run completed, and the
   * closing banner exactly when it did not crash.
   */
  lemma RunBanners<C>(nodes: seq<Node>, scheduled: Result<seq<Node>, Fault>, runner: Runner<C>, initial: C)
    ensures Notices(RunWith(nodes, scheduled, runner, initial).entries) ==
            match RunWith(nodes, scheduled, runner, initial).status
            case NothingToRun => []
            case Completed => [StartEntry, DoneEntry, EndEntry]
            case ScriptFailed => [StartEntry, EndEntry]
            case Crashed(_) => [StartEntry]
  {
    if nodes != [] {
      match scheduled
      case Ok(o) => LoopRunBanners(nodes, o, runner, initial);
      case Err(f) =>
        var m := FaultMessage(f);
        assert RunWith(nodes, scheduled, runner, initial) == RunResult(Crashed(m), [StartEntry, FatalEntry(m)], [FatalText(m)]);
        assert [StartEntry, FatalEntry(m)] == [StartEntry] + [FatalEntry(m)];
        NoticesAppend([StartEntry], [FatalEntry(m)]);
        BannerNotices();
        FatalNotices(m);
    }
  }

  /** `RunBanners` for a diagram that was scheduled, one ending of the loop at a time. */
  lemma LoopRunBanners<C>(nodes: seq<Node>, o: seq<Node>, runner: Runner<C>, initial: C)
    requires nodes != []
    ensures var r := RunWith(nodes, Ok(o), runner, initial);
            Notices(r.entries) ==
              match r.status
              case NothingToRun => []
              case Completed => [StartEntry, DoneEntry, EndEntry]
              case ScriptFailed => [StartEntry, EndEntry]
              case Crashed(_) => [StartEntry]
  {
    var t := RunFrom(o, runner, initial, 1);
    var r := RunWith(nodes, Ok(o), runner, initial);
    var tail := match t.ended
                case Finished => [DoneEntry, EndEntry]
                case Broke => [EndEntry]
                case Fatal(m) => [FatalEntry(m)];
    assert r.entries == [StartEntry] + t.lines + tail;
    LoopNotices(o, runner, initial, tail);
    BannerNotices();
    match t.ended
    case Finished =>
      assert [StartEntry] + [DoneEntry, EndEntry] == [StartEntry, DoneEntry, EndEntry];
    case Broke =>
    case Fatal(m) =>
      FatalNotices(m);
  }

  lemma BannerNotices()
    ensures Notices([StartEntry]) == [StartEntry]
    ensures Notices([EndEntry]) == [EndEntry]
    ensures Notices([DoneEntry, EndEntry]) == [DoneEntry, EndEntry]
  {
    assert [DoneEntry, EndEntry][1..] == [EndEntry];
  }

  lemma FatalNotices(m: string)
    ensures Notices([FatalEntry(m)]) == []
  {
  }

  /**
   * A completed run logs the start banner, one consecutively numbered step
   * per loggable scheduled node, the completion message and the closing banner.
   */
  lemma CompletedRunLog<C>(nodes: seq<Node>, scheduled: Result<seq<Node>, Fault>, runner: Runner<C>, initial: C)
    requires RunWith(nodes, scheduled, runner, initial).status == Completed
    ensures scheduled.Ok?
    ensures RunWith(nodes, scheduled, runner, initial).entries ==
            [StartEntry] + Steps(Logged(scheduled.value), 1) + [DoneEntry, EndEntry]
  {
    RunFromFinished(scheduled.value, runner, initial, 1);
  }

  /** A diagram with nodes completes exactly when it schedules and no script on the order throws. */
  lemma CompletesWithoutThrow<C>(nodes: seq<Node>, scheduled: Result<seq<Node>, Fault>, runner: Runner<C>, initial: C)
    requires nodes != []
    ensures RunWith(nodes, scheduled, runner, initial).status == Completed <==>
            scheduled.Ok? && forall i :: 0 <= i < |scheduled.value| ==> !ThrowsAt(scheduled.value, runner, initial, i)
  {
    if scheduled.Ok? {
      RunFromFinishes(scheduled.value, runner, initial, 1);
    }
  }

  /**
   * A run whose script fails stopped at the first scheduled script that
   * throws something other than `null` or `undefined`. It logs the steps
   * before that script, the error naming it with the thrown message, then the
   * closing banner, with no completion message.
   */
  lemma FailedRunLog<C>(nodes: seq<Node>, scheduled: Result<seq<Node>, Fault>, runner: Runner<C>, initial: C)
    requires RunWith(nodes, scheduled, runner, initial).status == ScriptFailed
    ensures scheduled.Ok? && FirstThrow(scheduled.value, runner, initial).Some?
    ensures var o := scheduled.value;
            var i := FirstThrow(o, runner, initial).value;
            (forall j :: 0 <= j < i ==> !ThrowsAt(o, runner, initial, j)) &&
            ThrowsAt(o, runner, initial, i) && !ThrownAt(o, runner, initial, i).Nullish? &&
            RunWith(nodes, scheduled, runner, initial).entries ==
              [StartEntry] + Steps(Logged(o[..i]), 1) + [ErrorEntry(o[i], MessageOf(ThrownAt(o, runner, initial, i))), EndEntry]
  {
    var o := scheduled.value;
    var t := RunFrom(o, runner, initial, 1);
    assert RunWith(nodes, scheduled, runner, initial).entries == [StartEntry] + t.lines + [EndEntry];
    RunFromBroke(o, runner, initial, 1);
    var i := FirstThrow(o, runner, initial).value;
    var e := ErrorEntry(o[i], MessageOf(ThrownAt(o, runner, initial, i)));
    Regroup([StartEntry], Steps(Logged(o[..i]), 1), e, EndEntry);
  }

  lemma Regroup<T>(a: seq<T>, s: seq<T>, e: T, b: T)
    ensures a + (s + [e]) + [b] == a + s + [e, b]
  {
  }

  /**
   * A run only crashes on an edge from a missing node, on an edge into a
   * missing node that the traversal reaches, or on a script that throws
   * `null` or `undefined`.
   */
  lemma CrashCauses<C>(nodes: seq<Node>, edges: seq<Edge>, runner: Runner<C>, initial: C)
    requires Run(nodes, edges, runner, initial).status.Crashed?
    ensures var m := Run(nodes, edges, runner, initial).status.message;
            || (m == FaultMessage(UnknownSource) && !SourcesExist(nodes, edges))
            || (m == FaultMessage(DanglingTarget) && !EdgesValid(nodes, edges))
            || m in {NullishFault(true), NullishFault(false)}
  {
    SchedulerProofs.OrderFailsOnlyOnMissingNodes(nodes, edges);
  }

  /**
   * A non-empty diagram in which every node has an incoming edge (a pure
   * cycle, say) schedules nothing: the log gets the start banner, the
   * completion message and the closing banner, and no step.
   */
  lemma NoRootsRun<C>(nodes: seq<Node>, edges: seq<Edge>, runner: Runner<C>, initial: C)
    requires nodes != [] && SourcesExist(nodes, edges)
    requires forall n :: n in nodes ==> exists e :: e in edges && e.to == n.id
    ensures Run(nodes, edges, runner, initial).status == Completed
    ensures Run(nodes, edges, runner, initial).entries == [StartEntry, DoneEntry, EndEntry]
  {
    SchedulerProofs.NoRootsEmptyOrder(nodes, edges);
    EmptyOrderRun(nodes, Order(nodes, edges), runner, initial);
  }

  lemma EmptyOrderRun<C>(nodes: seq<Node>, scheduled: Result<seq<Node>, Fault>, runner: Runner<C>, initial: C)
    requires nodes != [] && scheduled == Ok([])
    ensures RunWith(nodes, scheduled, runner, initial).status == Completed
    ensures RunWith(nodes, scheduled, runner, initial).entries == [StartEntry, DoneEntry, EndEntry]
  {
    assert RunFrom([], runner, initial, 1) == Trace([], Finished, initial, 1);
  }

  /**
   * In an acyclic diagram with distinct ids whose edges name existing nodes,
   * a run whose scripts all return completes, and the nodes that get a step
   * are exactly the loggable nodes of the diagram.
   */
  lemma WellFormedRunCompletes<C>(nodes: seq<Node>, edges: seq<Edge>, runner: Runner<C>, initial: C, rank: Id -> nat)
    requires nodes != [] && SchedulerProofs.Distinct(nodes)
    requires EdgesValid(nodes, edges) && Ranked(edges, rank)
    requires forall code, c :: runner(code, c).Returned?
    ensures Run(nodes, edges, runner, initial).status == Completed
    ensures Order(nodes, edges).Ok?
    ensures forall n :: n in Logged(Order(nodes, edges).value) <==> n in Logged(nodes)
  {
    SchedulerProofs.AcyclicOrderRespectsEdges(nodes, edges, rank);
    SchedulerProofs.OrderIsReachableSet(nodes, edges);
    var o := Order(nodes, edges).value;
    NeverThrowsFinishes(o, runner, initial, 1);
    forall n | n in nodes ensures n in o {
      assert n.id in Ids(o);
      var m :| m in o && m.id == n.id;
      var j :| 0 <= j < |nodes| && nodes[j] == m;
      var k :| 0 <= k < |nodes| && nodes[k] == n;
      assert j == k;
    }
  }

  /** A loop whose scripts never throw runs to the end. */
  lemma {:induction false} NeverThrowsFinishes<C>(order: seq<Node>, runner: Runner<C>, ctx: C, step: nat)
    requires forall code, c :: runner(code, c).Returned?
    ensures RunFrom(order, runner, ctx, step).ended == Finished
    decreases |order|
  {
    if order != [] {
      var n := order[0];
      NeverThrowsFinishes(order[1..], runner, After(n, runner, ctx), if Loggable(n) then step + 1 else step);
    }
  }

  // ---------------------------------------------------------------------------
  // The imperative run

  /**
   * The `for...of` loop of `handleExecute`: runs the scheduled nodes in order,
   * appending each line to the log as it is made and to the output summary,
   * and stops at the first script that throws.
   */
  method RunLoop<C>(order: seq<Node>, runner: Runner<C>, initial: C, log0: seq<LogEntry>)
    returns (log: seq<LogEntry>, logs: seq<string>, ended: Ended)
    ensures log == AppendAll(log0, RunFrom(order, runner, initial, 1).lines)
    ensures logs == Texts(RunFrom(order, runner, initial, 1).lines)
    ensures ended == RunFrom(order, runner, initial, 1).ended
  {
    log := log0;
    logs := [];
    var ctx := initial;
    var step: nat := 1;
    ghost var lines: seq<LogEntry> := [];
    var i := 0;
    while i < |order|
      invariant 0 <= i <= |order|
      invariant RunFrom(order, runner, initial, 1) == Prepend(lines, RunFrom(order[i..], runner, ctx, step))
      invariant log == AppendAll(log0, lines)
      invariant logs == Texts(lines)
    {
      var node := order[i];
      ghost var rest := order[i..];
      assert rest[0] == node;
      ghost var ctx0, step0 := ctx, step;
      var entry: Option<LogEntry> := None;
      if node.kind == "js" && node.code != "" {
        var outcome := runner(node.code, ctx);
        if outcome.Threw? {
          if outcome.thrown.Nullish? {
            assert RunFrom(rest, runner, ctx, step).lines == [];
            assert lines + [] == lines;
            return log, logs, Fatal(NullishFault(outcome.thrown.isNull));
          }
          var e := ErrorEntry(node, MessageOf(outcome.thrown));
          assert RunFrom(rest, runner, ctx, step).lines == [e];
          AppendAllSnoc(log0, lines, e);
          TextsSnoc(lines, e);
          return AppendLog(log, e), logs + [e.text], Broke;
        }
        ctx := if outcome.value.Some? then outcome.value.value else outcome.written;
        entry := Some(StepEntry(step, node));
        step := step + 1;
      } else if node.kind == "input" || node.kind == "output" {
        entry := Some(StepEntry(step, node));
        step := step + 1;
      }
      TurnKeeps(order, i, runner, initial, lines, ctx0, step0);
      if entry.Some? {
        var e := entry.value;
        AppendAllSnoc(log0, lines, e);
        TextsSnoc(lines, e);
        logs := logs + [e.text];
        log := AppendLog(log, e);
        lines := lines + [e];
      }
      i := i + 1;
    }
    assert order[i..] == [];
    assert lines + [] == lines;
    ended := Finished;
  }

  /** One turn of the loop over a node that does not throw keeps the loop's invariant. */
  lemma TurnKeeps<C>(order: seq<Node>, i: nat, runner: Runner<C>, initial: C, lines: seq<LogEntry>, ctx: C, step: nat)
    requires i < |order| && !(RunsScript(order[i]) && runner(order[i].code, ctx).Threw?)
    requires RunFrom(order, runner, initial, 1) == Prepend(lines, RunFrom(order[i..], runner, ctx, step))
    ensures var n := order[i];
            RunFrom(order, runner, initial, 1) ==
              Prepend(if Loggable(n) then lines + [StepEntry(step, n)] else lines,
                      RunFrom(order[i + 1..], runner, After(n, runner, ctx), if Loggable(n) then step + 1 else step))
  {
    var n, rest := order[i], order[i..];
    assert rest[0] == n && rest[1..] == order[i + 1..];
    RunFromStep(rest, runner, ctx, step);
    if Loggable(n) {
      PrependTwice(lines, [StepEntry(step, n)], RunFrom(order[i + 1..], runner, After(n, runner, ctx), step + 1));
    } else {
      assert After(n, runner, ctx) == ctx;
    }
  }

  lemma PrependTwice<C>(a: seq<LogEntry>, b: seq<LogEntry>, t: Trace<C>)
    ensures Prepend(a, Prepend(b, t)) == Prepend(a + b, t)
  {
    assert a + (b + t.lines) == (a + b) + t.lines;
  }

  lemma TextsSnoc(ls: seq<LogEntry>, e: LogEntry)
    ensures Texts(ls + [e]) == Texts(ls) + [e.text]
  {
    assert (ls + [e])[..|ls|] == ls;
  }

  /**
   * `handleExecute`: the empty check, the start banner, scheduling, the loop,
   * and the lines that close the run, appended to the log one at a time. It
   * leaves the log, the status and the output summary that `Run` describes.
   */
  method Execute<C>(nodes: seq<Node>, edges: seq<Edge>, runner: Runner<C>, initial: C, prevLog: seq<LogEntry>)
    returns (log: seq<LogEntry>, status: Status, output: seq<string>)
    ensures log == AppendAll(prevLog, Run(nodes, edges, runner, initial).entries)
    ensures status == Run(nodes, edges, runner, initial).status
    ensures output == Run(nodes, edges, runner, initial).output
  {
    if |nodes| == 0 {
      log := AppendLog(prevLog, LogEntry(NoNodesText, Stderr));
      AppendAllSnoc(prevLog, [], LogEntry(NoNodesText, Stderr));
      return log, NothingToRun, [];
    }
    var scheduled := ComputeOrder(nodes, edges);
    log, status, output := Finish(nodes, scheduled, runner, initial, prevLog);
  }

  /** Everything after scheduling, for a diagram with nodes. */
  method Finish<C>(nodes: seq<Node>, scheduled: Result<seq<Node>, Fault>, runner: Runner<C>, initial: C,
                   prevLog: seq<LogEntry>)
    returns (log: seq<LogEntry>, status: Status, output: seq<string>)
    requires nodes != []
    ensures log == AppendAll(prevLog, RunWith(nodes, scheduled, runner, initial).entries)
    ensures status == RunWith(nodes, scheduled, runner, initial).status
    ensures output == RunWith(nodes, scheduled, runner, initial).output
  {
    log := AppendLog(prevLog, StartEntry);
    AppendOne(prevLog, StartEntry);
    if scheduled.Err? {
      var message := FaultMessage(scheduled.error);
      assert RunWith(nodes, scheduled, runner, initial) ==
             RunResult(Crashed(message), [StartEntry, FatalEntry(message)], [FatalText(message)]);
      AppendTwo(prevLog, [], StartEntry, FatalEntry(message));
      assert [] + [StartEntry, FatalEntry(message)] == [StartEntry, FatalEntry(message)];
      log := AppendLog(log, FatalEntry(message));
      return log, Crashed(message), [FatalText(message)];
    }
    log, status, output := FinishOrder(nodes, scheduled.value, runner, initial, prevLog, log);
  }

  /** The loop over a computed order and the lines that close the run. */
  method FinishOrder<C>(nodes: seq<Node>, order: seq<Node>, runner: Runner<C>, initial: C,
                        prevLog: seq<LogEntry>, started: seq<LogEntry>)
    returns (log: seq<LogEntry>, status: Status, output: seq<string>)
    requires nodes != [] && started == AppendAll(prevLog, [StartEntry])
    ensures log == AppendAll(prevLog, RunWith(nodes, Ok(order), runner, initial).entries)
    ensures status == RunWith(nodes, Ok(order), runner, initial).status
    ensures output == RunWith(nodes, Ok(order), runner, initial).output
  {
    ghost var t := RunFrom(order, runner, initial, 1);
    var logs, ended;
    log, logs, ended := RunLoop(order, runner, initial, started);
    AppendAllConcat(prevLog, [StartEntry], t.lines);
    ghost var written := [StartEntry] + t.lines;
    if ended.Fatal? {
      AppendAllSnoc(prevLog, written, FatalEntry(ended.message));
      log := AppendLog(log, FatalEntry(ended.message));
      return log, Crashed(ended.message), [FatalText(ended.message)];
    }
    if ended == Finished {
      log := AppendLog(log, DoneEntry);
      log := AppendLog(log, EndEntry);
      AppendTwo(prevLog, written, DoneEntry, EndEntry);
      return log, Completed, logs + [DoneText];
    }
    AppendAllSnoc(prevLog, written, EndEntry);
    log := AppendLog(log, EndEntry);
    return log, ScriptFailed, logs;
  }
}

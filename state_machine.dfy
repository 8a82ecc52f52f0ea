/**
  The line classifier (`delta`): a seven-state machine over the ANSI-stripped
  copy of each input line, deciding per line whether to flush the pending
  removed/added buffers, extend one of them, paint the line alone, or write the
  raw line through.

  The loop itself is the method `Delta`, which drives a `Painter`. The function
  `Step` states what one iteration asks of the painter, as a list of actions;
  `Rendered` says what those actions write; `Run` folds `Step` over a prefix of
  the input. The lemmas state the batching rules and the buffer invariant.
 */
module StateMachine {
  import opened Wrappers
  import opened Syntect
  import opened Strings
  import opened Paint

  datatype State = Commit | DiffMeta | HunkMeta | HunkZero | HunkMinus | HunkPlus | Unknown

  predicate IsHunkState(state: State)
  {
    state.HunkMeta? || state.HunkZero? || state.HunkMinus? || state.HunkPlus?
  }

  /**
    The calls into code outside the core: `strip_ansi_codes`, the file
    extension parser for a "diff --" line, the syntax-set lookup by extension,
    and the highlighter.
   */
  datatype Env = Env(
    stripAnsiCodes: string -> string,
    fileExtension: string -> Option<string>,
    findSyntaxByExtension: string -> Option<SyntaxRef>,
    highlight: Highlighter)

  /** The classifier's state together with the painter's buffers and syntax. */
  datatype Machine = Machine(state: State, minusLines: seq<string>, plusLines: seq<string>, syntax: Option<SyntaxRef>)

  /**
    What the loop asks the painter to do: write a raw line straight to the
    writer, flush non-empty buffers under a syntax, or paint one line alone,
    with no background and with highlighting.
   */
  datatype Action =
    | WriteRaw(line: string)
    | EmitBuffered(minusLines: seq<string>, plusLines: seq<string>, syntax: SyntaxRef)
    | EmitText(line: string, syntax: SyntaxRef)

  /** What a step (or a run of steps) leaves behind and what it asks for. */
  datatype Outcome = Outcome(machine: Machine, actions: seq<Action>)

  const Initial := Machine(Unknown, [], [], None)

  predicate StartsWith(s: string, prefix: string)
  {
    |prefix| <= |s| && s[..|prefix|] == prefix
  }

  predicate FirstCharIs(s: string, c: char)
  {
    s != [] && s[0] == c
  }

  /** `line` starts with none of the three markers the loop tests first. */
  predicate IsContent(line: string)
  {
    !StartsWith(line, "diff --") && !StartsWith(line, "commit") && !StartsWith(line, "@@")
  }

  /**
    Pending lines exist only inside a hunk (so a syntax was present when they
    were pushed, and the painter's `syntax.unwrap()` cannot fail); every pending
    removed line starts with '-' and every pending added line with '+'; the
    states entered by a push have a non-empty buffer.
   */
  ghost predicate Inv(m: Machine)
  {
    && ((m.minusLines != [] || m.plusLines != []) ==>
          m.syntax.Some? && (m.state.HunkMeta? || m.state.HunkMinus? || m.state.HunkPlus?))
    && (m.state.HunkMinus? ==> m.minusLines != [])
    && (m.state.HunkPlus? ==> m.plusLines != [])
    && (forall i :: 0 <= i < |m.minusLines| ==> FirstCharIs(m.minusLines[i], '-'))
    && (forall i :: 0 <= i < |m.plusLines| ==> FirstCharIs(m.plusLines[i], '+'))
  }

  /** Flushing the buffers of `m`: nothing when both are empty. */
  function Flush(m: Machine): (actions: seq<Action>)
    requires Inv(m)
    ensures actions == [] <==> m.minusLines == [] && m.plusLines == []
  {
    if m.minusLines == [] && m.plusLines == [] then []
    else [EmitBuffered(m.minusLines, m.plusLines, m.syntax.value)]
  }

  /** The syntax a "diff --" line selects: none when it has no extension or the extension is unknown. */
  function SyntaxFor(line: string, env: Env): Option<SyntaxRef>
  {
    match env.fileExtension(line)
    case Some(extension) => env.findSyntaxByExtension(extension)
    case None => None
  }

  /** One iteration of the loop in `delta`. */
  function Step(m: Machine, rawLine: string, env: Env): (o: Outcome)
    requires Inv(m)
    ensures Inv(o.machine)
  {
    var line := env.stripAnsiCodes(rawLine);
    if StartsWith(line, "diff --") then
      Outcome(Machine(DiffMeta, [], [], SyntaxFor(line, env)), Flush(m) + [WriteRaw(rawLine)])
    else if StartsWith(line, "commit") then
      Outcome(Machine(Commit, [], [], m.syntax), Flush(m) + [WriteRaw(rawLine)])
    else if StartsWith(line, "@@") then
      Outcome(m.(state := HunkMeta), [WriteRaw(rawLine)])
    else if IsHunkState(m.state) && m.syntax.Some? then
      if FirstCharIs(line, '-') then
        if m.state == HunkPlus then
          Outcome(Machine(HunkMinus, [line], [], m.syntax), Flush(m))
        else
          Outcome(m.(state := HunkMinus, minusLines := m.minusLines + [line]), [])
      else if FirstCharIs(line, '+') then
        Outcome(m.(state := HunkPlus, plusLines := m.plusLines + [line]), [])
      else
        Outcome(Machine(HunkZero, [], [], m.syntax), Flush(m) + [EmitText(line, m.syntax.value)])
    else
      Outcome(m, [WriteRaw(rawLine)])
  }

  // ---------------------------------------------------------------------------
  // What the actions write

  /** The lines one action appends to the writer. */
  function Written(action: Action, config: Config, highlight: Highlighter): seq<string>
  {
    match action
    case WriteRaw(line) => [line]
    case EmitBuffered(minusLines, plusLines, syntax) => FlushedLines(minusLines, plusLines, Some(syntax), config, highlight)
    case EmitText(line, syntax) => [PaintedText(line, syntax, None, config, true, highlight)]
  }

  function Rendered(actions: seq<Action>, config: Config, highlight: Highlighter): seq<string>
  {
    if actions == [] then []
    else Rendered(actions[..|actions| - 1], config, highlight) + Written(actions[|actions| - 1], config, highlight)
  }

  lemma {:induction false} RenderedAppend(a: seq<Action>, b: seq<Action>, config: Config, highlight: Highlighter)
    ensures Rendered(a + b, config, highlight) == Rendered(a, config, highlight) + Rendered(b, config, highlight)
    decreases |b|
  {
    if b == [] {
      assert a + b == a;
      assert Rendered(a, config, highlight) + [] == Rendered(a, config, highlight);
    } else {
      var init, last := b[..|b| - 1], b[|b| - 1];
      assert (a + b)[..|a + b| - 1] == a + init;
      assert (a + b)[|a + b| - 1] == last;
      RenderedAppend(a, init, config, highlight);
      AppendAssoc(Rendered(a, config, highlight), Rendered(init, config, highlight), Written(last, config, highlight));
    }
  }

  lemma RenderedSingle(action: Action, config: Config, highlight: Highlighter)
    ensures Rendered([action], config, highlight) == Written(action, config, highlight)
  {
    assert [action][..0] == [];
    assert [] + Written(action, config, highlight) == Written(action, config, highlight);
  }

  /** Flushing writes what the painter's flush writes: nothing for empty buffers, else the two blocks. */
  lemma RenderedFlush(m: Machine, config: Config, highlight: Highlighter)
    requires Inv(m)
    ensures Rendered(Flush(m), config, highlight) == FlushedLines(m.minusLines, m.plusLines, m.syntax, config, highlight)
  {
    if m.minusLines != [] || m.plusLines != [] {
      RenderedSingle(Flush(m)[0], config, highlight);
    }
  }

  // ---------------------------------------------------------------------------
  // One line at a time

  /** A "diff --" line flushes, enters `DiffMeta`, re-resolves the syntax, and is written raw. */
  lemma DiffLineFlushes(m: Machine, rawLine: string, env: Env)
    requires Inv(m) && StartsWith(env.stripAnsiCodes(rawLine), "diff --")
    ensures var o := Step(m, rawLine, env);
            && o.actions == Flush(m) + [WriteRaw(rawLine)]
            && o.machine == Machine(DiffMeta, [], [], SyntaxFor(env.stripAnsiCodes(rawLine), env))
  {
  }

  /** A "commit" line flushes, enters `Commit`, keeps the syntax, and is written raw. */
  lemma CommitLineFlushes(m: Machine, rawLine: string, env: Env)
    requires Inv(m) && StartsWith(env.stripAnsiCodes(rawLine), "commit")
    ensures var o := Step(m, rawLine, env);
            && o.actions == Flush(m) + [WriteRaw(rawLine)]
            && o.machine == Machine(Commit, [], [], m.syntax)
  {
    var line := env.stripAnsiCodes(rawLine);
    assert line[0] == 'c';
    assert !StartsWith(line, "diff --");
  }

  /** An "@@" line enters `HunkMeta` and is written raw; it never flushes, so pending lines survive it. */
  lemma HunkHeaderNeverFlushes(m: Machine, rawLine: string, env: Env)
    requires Inv(m) && StartsWith(env.stripAnsiCodes(rawLine), "@@")
    ensures var o := Step(m, rawLine, env);
            && o.actions == [WriteRaw(rawLine)]
            && o.machine == m.(state := HunkMeta)
  {
    var line := env.stripAnsiCodes(rawLine);
    assert line[0] == '@';
    assert !StartsWith(line, "diff --") && !StartsWith(line, "commit");
  }

  /** A line whose first character is none of 'd', 'c' and '@' starts with none of the three markers. */
  lemma NoMarker(line: string, c: char)
    requires FirstCharIs(line, c) && c != 'd' && c != 'c' && c != '@'
    ensures IsContent(line)
  {
  }

  /**
    In a hunk with a syntax, a '-' line asks for something exactly when the
    state was `HunkPlus`, and then it is a flush of what was pending; the
    stripped line becomes the last pending removed line, after the earlier ones
    unless they were just flushed.
   */
  lemma MinusFlushesOnlyAfterPlus(m: Machine, rawLine: string, env: Env)
    requires Inv(m) && IsHunkState(m.state) && m.syntax.Some? && FirstCharIs(env.stripAnsiCodes(rawLine), '-')
    ensures var o := Step(m, rawLine, env);
            && (o.actions != [] <==> m.state == HunkPlus)
            && o.actions == (if m.state == HunkPlus then Flush(m) else [])
            && o.machine.minusLines == (if m.state == HunkPlus then [] else m.minusLines) + [env.stripAnsiCodes(rawLine)]
            && o.machine.plusLines == (if m.state == HunkPlus then [] else m.plusLines)
            && o.machine.state == HunkMinus && o.machine.syntax == m.syntax
  {
    NoMarker(env.stripAnsiCodes(rawLine), '-');
  }

  /**
    In a hunk with a syntax, a '+' line never flushes and asks for nothing,
    whatever the state; it becomes the last pending added line.
   */
  lemma PlusNeverFlushes(m: Machine, rawLine: string, env: Env)
    requires Inv(m) && IsHunkState(m.state) && m.syntax.Some? && FirstCharIs(env.stripAnsiCodes(rawLine), '+')
    ensures var o := Step(m, rawLine, env);
            && o.actions == []
            && o.machine == m.(state := HunkPlus, plusLines := m.plusLines + [env.stripAnsiCodes(rawLine)])
  {
    NoMarker(env.stripAnsiCodes(rawLine), '+');
  }

  /**
    In a hunk with a syntax, any other line (an empty one included) flushes,
    enters `HunkZero`, and is painted on its own; it is never buffered.
   */
  lemma ContextLinePaintedAlone(m: Machine, rawLine: string, env: Env)
    requires Inv(m) && IsHunkState(m.state) && m.syntax.Some?
    requires var line := env.stripAnsiCodes(rawLine);
             IsContent(line) && !FirstCharIs(line, '-') && !FirstCharIs(line, '+')
    ensures var o := Step(m, rawLine, env);
            && o.actions == Flush(m) + [EmitText(env.stripAnsiCodes(rawLine), m.syntax.value)]
            && o.machine == Machine(HunkZero, [], [], m.syntax)
  {
  }

  /**
    Outside a hunk, or with no syntax, a line that starts with no marker is
    written raw (before stripping) and changes nothing; nothing is pending then.
   */
  lemma OtherLinePassesThrough(m: Machine, rawLine: string, env: Env)
    requires Inv(m) && !(IsHunkState(m.state) && m.syntax.Some?) && IsContent(env.stripAnsiCodes(rawLine))
    ensures Step(m, rawLine, env) == Outcome(m, [WriteRaw(rawLine)])
    ensures m.minusLines == [] && m.plusLines == []
  {
  }

  // ---------------------------------------------------------------------------
  // The loop

  /** The loop of `delta` run from `m` over `lines`. */
  function Feed(m: Machine, lines: seq<string>, env: Env): (o: Outcome)
    requires Inv(m)
    ensures Inv(o.machine)
    decreases |lines|
  {
    if lines == [] then Outcome(m, [])
    else
      var before := Feed(m, lines[..|lines| - 1], env);
      var after := Step(before.machine, lines[|lines| - 1], env);
      Outcome(after.machine, before.actions + after.actions)
  }

  /** The loop of `delta` over `lines`, from the initial state. */
  function Run(lines: seq<string>, env: Env): (o: Outcome)
    ensures Inv(o.machine)
  {
    Feed(Initial, lines, env)
  }

  /** Everything `delta` writes: what the loop asks for, then the final flush. */
  function DeltaOutput(lines: seq<string>, config: Config, env: Env): seq<string>
  {
    var o := Run(lines, env);
    Rendered(o.actions + Flush(o.machine), config, env.highlight)
  }

  /** Nothing to read: `delta` writes nothing, and the machine is in its initial state. */
  lemma EmptyInputWritesNothing(config: Config, env: Env)
    ensures Run([], env) == Outcome(Machine(Unknown, [], [], None), [])
    ensures DeltaOutput([], config, env) == []
  {
    assert [] + Flush(Initial) == [];
  }

  /** Running over one more line is one more step. */
  lemma FeedSnoc(m: Machine, lines: seq<string>, rawLine: string, env: Env)
    requires Inv(m)
    ensures var before := Feed(m, lines, env);
            var step := Step(before.machine, rawLine, env);
            Feed(m, lines + [rawLine], env) == Outcome(step.machine, before.actions + step.actions)
  {
    assert (lines + [rawLine])[..|lines|] == lines;
  }

  /** Running over `a + b` is running over `a`, then over `b` from where that left off. */
  lemma {:induction false} FeedAppend(m: Machine, a: seq<string>, b: seq<string>, env: Env)
    requires Inv(m)
    ensures var first := Feed(m, a, env);
            var second := Feed(first.machine, b, env);
            Feed(m, a + b, env) == Outcome(second.machine, first.actions + second.actions)
    decreases |b|
  {
    var first := Feed(m, a, env);
    if b == [] {
      assert a + b == a;
      assert first.actions + [] == first.actions;
    } else {
      var init, last := b[..|b| - 1], b[|b| - 1];
      assert (a + b)[..|a + b| - 1] == a + init;
      assert (a + b)[|a + b| - 1] == last;
      FeedAppend(m, a, init, env);
      var middle := Feed(first.machine, init, env);
      var step := Step(middle.machine, last, env);
      AppendAssoc(first.actions, middle.actions, step.actions);
    }
  }

  // ---------------------------------------------------------------------------
  // Buffers keep input order

  /** `line` as a one-line list when it starts with `marker`, else nothing. */
  function Marked(line: string, marker: char): seq<string>
  {
    if FirstCharIs(line, marker) then [line] else []
  }

  /** The stripped lines of `lines` whose first character is `marker`, in input order. */
  function Pushed(lines: seq<string>, strip: string -> string, marker: char): seq<string>
  {
    if lines == [] then []
    else Pushed(lines[..|lines| - 1], strip, marker) + Marked(strip(lines[|lines| - 1]), marker)
  }

  lemma PushedExtend(lines: seq<string>, j: nat, strip: string -> string, marker: char)
    requires j < |lines|
    ensures Pushed(lines[j..], strip, marker)
         == Pushed(lines[..|lines| - 1][j..], strip, marker) + Marked(strip(lines[|lines| - 1]), marker)
  {
    var tail := lines[j..];
    assert tail[..|tail| - 1] == lines[..|lines| - 1][j..];
  }

  /** The pending lines are exactly the '-' and the '+' lines read since input line `j`. */
  ghost predicate PendingSince(lines: seq<string>, j: nat, m: Machine, strip: string -> string)
  {
    && j <= |lines|
    && m.minusLines == Pushed(lines[j..], strip, '-')
    && m.plusLines == Pushed(lines[j..], strip, '+')
  }

  lemma PendingKept(lines: seq<string>, j: nat, prev: Machine, m: Machine, strip: string -> string)
    requires |lines| > 0 && PendingSince(lines[..|lines| - 1], j, prev, strip)
    requires m.minusLines == prev.minusLines + Marked(strip(lines[|lines| - 1]), '-')
    requires m.plusLines == prev.plusLines + Marked(strip(lines[|lines| - 1]), '+')
    ensures PendingSince(lines, j, m, strip)
  {
    PushedExtend(lines, j, strip, '-');
    PushedExtend(lines, j, strip, '+');
  }

  lemma PendingFresh(lines: seq<string>, m: Machine, strip: string -> string)
    requires |lines| > 0
    requires m.minusLines == Marked(strip(lines[|lines| - 1]), '-')
    requires m.plusLines == Marked(strip(lines[|lines| - 1]), '+')
    ensures PendingSince(lines, |lines| - 1, m, strip)
  {
    var k := |lines| - 1;
    PushedExtend(lines, k, strip, '-');
    PushedExtend(lines, k, strip, '+');
    assert lines[..k][k..] == [];
  }

  predicate Idle(m: Machine)
  {
    m.minusLines == [] && m.plusLines == []
  }

  /** Some action in `actions` is a flush of pending lines. */
  ghost predicate AsksFlush(actions: seq<Action>)
  {
    exists a :: a in actions && a.EmitBuffered?
  }

  /** Input line `k` asks for a flush when the loop reaches it. */
  ghost predicate StepFlushes(lines: seq<string>, k: nat, env: Env)
    requires k < |lines|
  {
    AsksFlush(Step(Run(lines[..k], env).machine, lines[k], env).actions)
  }

  /** Point `j` is a line that asked for a flush, or a point where nothing was pending. */
  ghost predicate FlushPoint(lines: seq<string>, j: nat, env: Env)
  {
    j <= |lines| && (Idle(Run(lines[..j], env).machine) || (j < |lines| && StepFlushes(lines, j, env)))
  }

  /** No line after point `j` asked for a flush. */
  ghost predicate QuietAfter(lines: seq<string>, j: nat, env: Env)
  {
    forall k :: j < k < |lines| ==> !StepFlushes(lines, k, env)
  }

  /**
    Point `j` is where the pending lines started to gather: the last flush (or
    the last moment nothing was pending), and the pending lines are the marked
    lines read since then.
   */
  ghost predicate GatheredSince(lines: seq<string>, j: nat, env: Env)
  {
    && PendingSince(lines, j, Run(lines, env).machine, env.stripAnsiCodes)
    && FlushPoint(lines, j, env)
    && QuietAfter(lines, j, env)
  }

  lemma StepFlushesPrefix(lines: seq<string>, k: nat, env: Env)
    requires k < |lines| - 1
    ensures StepFlushes(lines[..|lines| - 1], k, env) <==> StepFlushes(lines, k, env)
  {
    assert lines[..|lines| - 1][..k] == lines[..k];
  }

  /** A line that asks for no flush keeps the flush point of the lines before it. */
  lemma FlushPointCarried(lines: seq<string>, j: nat, env: Env)
    requires |lines| > 0 && j <= |lines| - 1
    requires FlushPoint(lines[..|lines| - 1], j, env) && QuietAfter(lines[..|lines| - 1], j, env)
    requires !StepFlushes(lines, |lines| - 1, env)
    ensures FlushPoint(lines, j, env) && QuietAfter(lines, j, env)
  {
    var init := lines[..|lines| - 1];
    assert init[..j] == lines[..j];
    if j < |init| {
      StepFlushesPrefix(lines, j, env);
    }
    forall k | j < k < |lines| ensures !StepFlushes(lines, k, env) {
      if k < |lines| - 1 {
        StepFlushesPrefix(lines, k, env);
      }
    }
  }

  /**
    A line that leaves something pending and is not a '-' line after a '+'
    line asks for no flush, and adds itself to the buffer its marker names.
   */
  lemma QuietStep(prev: Machine, rawLine: string, env: Env)
    requires Inv(prev) && !Idle(Step(prev, rawLine, env).machine)
    requires !(FirstCharIs(env.stripAnsiCodes(rawLine), '-') && prev.state == HunkPlus)
    ensures var step := Step(prev, rawLine, env);
            var line := env.stripAnsiCodes(rawLine);
            && !AsksFlush(step.actions)
            && step.machine.minusLines == prev.minusLines + Marked(line, '-')
            && step.machine.plusLines == prev.plusLines + Marked(line, '+')
  {
    var line := env.stripAnsiCodes(rawLine);
    if StartsWith(line, "@@") {
      HunkHeaderNeverFlushes(prev, rawLine, env);
      assert line[0] == '@';
      assert prev.minusLines + [] == prev.minusLines && prev.plusLines + [] == prev.plusLines;
    } else if FirstCharIs(line, '-') {
      MinusFlushesOnlyAfterPlus(prev, rawLine, env);
      assert prev.plusLines + [] == prev.plusLines;
    } else {
      PlusNeverFlushes(prev, rawLine, env);
      assert prev.minusLines + [] == prev.minusLines;
    }
  }

  /** One more line keeps a gathering point: the old one, or the line itself when it flushes or empties the buffers. */
  lemma GatheredAfterStep(lines: seq<string>, j: nat, env: Env)
    requires |lines| > 0 && GatheredSince(lines[..|lines| - 1], j, env)
    ensures exists k :: GatheredSince(lines, k, env)
  {
    var strip := env.stripAnsiCodes;
    var n := |lines|;
    var init, last := lines[..n - 1], lines[n - 1];
    var prev := Run(init, env).machine;
    var step := Step(prev, last, env);
    var m := Run(lines, env).machine;
    assert m == step.machine;
    var line := strip(last);
    if Idle(m) {
      assert lines[n..] == [] && lines[..n] == lines;
      assert GatheredSince(lines, n, env);
    } else if FirstCharIs(line, '-') && prev.state == HunkPlus {
      MinusFlushesOnlyAfterPlus(prev, last, env);
      PendingFresh(lines, m, strip);
      assert step.actions[0] in step.actions && step.actions[0].EmitBuffered?;
      assert GatheredSince(lines, n - 1, env);
    } else {
      QuietStep(prev, last, env);
      PendingKept(lines, j, prev, m, strip);
      FlushPointCarried(lines, j, env);
      assert GatheredSince(lines, j, env);
    }
  }

  /**
    Buffers keep input order and only a flush cuts them: after any prefix of
    the input there is a point `j`, either a line that asked for a flush or a
    point where nothing was pending, such that no later line asked for a
    flush, and the '-' lines read since `j`, in order, are the pending removed
    lines and the '+' lines read since `j` are the pending added lines.
   */
  lemma {:induction false} BatchOrder(lines: seq<string>, env: Env)
    ensures exists j :: GatheredSince(lines, j, env)
    decreases |lines|
  {
    if lines == [] {
      assert lines[..0] == [];
      assert GatheredSince(lines, 0, env);
    } else {
      var init := lines[..|lines| - 1];
      BatchOrder(init, env);
      var j :| GatheredSince(init, j, env);
      GatheredAfterStep(lines, j, env);
    }
  }

  // ---------------------------------------------------------------------------
  // Batching

  lemma {:induction false} RemovedRunBuffered(m: Machine, minus: seq<string>, env: Env)
    requires Inv(m) && IsHunkState(m.state) && m.state != HunkPlus && m.syntax.Some?
    requires forall i :: 0 <= i < |minus| ==> FirstCharIs(env.stripAnsiCodes(minus[i]), '-')
    ensures var o := Feed(m, minus, env);
            && o.actions == []
            && o.machine.minusLines == m.minusLines + Pushed(minus, env.stripAnsiCodes, '-')
            && o.machine.plusLines == m.plusLines
            && o.machine.syntax == m.syntax
            && IsHunkState(o.machine.state) && o.machine.state != HunkPlus
    decreases |minus|
  {
    if minus == [] {
      assert m.minusLines + [] == m.minusLines;
    } else {
      var init, last := minus[..|minus| - 1], minus[|minus| - 1];
      RemovedRunBuffered(m, init, env);
      var before := Feed(m, init, env);
      MinusFlushesOnlyAfterPlus(before.machine, last, env);
      AppendAssoc(m.minusLines, Pushed(init, env.stripAnsiCodes, '-'), [env.stripAnsiCodes(last)]);
    }
  }

  lemma {:induction false} AddedRunBuffered(m: Machine, plus: seq<string>, env: Env)
    requires Inv(m) && IsHunkState(m.state) && m.syntax.Some?
    requires forall i :: 0 <= i < |plus| ==> FirstCharIs(env.stripAnsiCodes(plus[i]), '+')
    ensures var o := Feed(m, plus, env);
            && o.actions == []
            && o.machine.minusLines == m.minusLines
            && o.machine.plusLines == m.plusLines + Pushed(plus, env.stripAnsiCodes, '+')
            && o.machine.syntax == m.syntax
            && IsHunkState(o.machine.state)
    decreases |plus|
  {
    if plus == [] {
      assert m.plusLines + [] == m.plusLines;
    } else {
      var init, last := plus[..|plus| - 1], plus[|plus| - 1];
      AddedRunBuffered(m, init, env);
      var before := Feed(m, init, env);
      PlusNeverFlushes(before.machine, last, env);
      AppendAssoc(m.plusLines, Pushed(init, env.stripAnsiCodes, '+'), [env.stripAnsiCodes(last)]);
    }
  }

  /**
    Batching: inside a hunk with a syntax, and not right after an added line, a
    run of '-' lines followed by a run of '+' lines asks for nothing; the
    removed run is appended to the pending removed lines and the added run to
    the pending added lines, so that both go out in one flush.
   */
  lemma RemovedThenAddedBatched(m: Machine, minus: seq<string>, plus: seq<string>, env: Env)
    requires Inv(m) && IsHunkState(m.state) && m.state != HunkPlus && m.syntax.Some?
    requires forall i :: 0 <= i < |minus| ==> FirstCharIs(env.stripAnsiCodes(minus[i]), '-')
    requires forall i :: 0 <= i < |plus| ==> FirstCharIs(env.stripAnsiCodes(plus[i]), '+')
    ensures var o := Feed(m, minus + plus, env);
            && o.actions == []
            && o.machine.minusLines == m.minusLines + Pushed(minus, env.stripAnsiCodes, '-')
            && o.machine.plusLines == m.plusLines + Pushed(plus, env.stripAnsiCodes, '+')
            && |o.machine.minusLines| == |m.minusLines| + |minus|
            && |o.machine.plusLines| == |m.plusLines| + |plus|
            && o.machine.syntax == m.syntax && IsHunkState(o.machine.state)
  {
    PushedAllMarked(minus, env.stripAnsiCodes, '-');
    PushedAllMarked(plus, env.stripAnsiCodes, '+');
    RemovedRunBuffered(m, minus, env);
    var afterMinus := Feed(m, minus, env);
    AddedRunBuffered(afterMinus.machine, plus, env);
    FeedAppend(m, minus, plus, env);
  }

  /** When every line is marked, `Pushed` keeps one line for each. */
  lemma {:induction false} PushedAllMarked(lines: seq<string>, strip: string -> string, marker: char)
    requires forall i :: 0 <= i < |lines| ==> FirstCharIs(strip(lines[i]), marker)
    ensures |Pushed(lines, strip, marker)| == |lines|
    decreases |lines|
  {
    if lines != [] {
      PushedAllMarked(lines[..|lines| - 1], strip, marker);
    }
  }

  /** After a non-empty batch, a context line flushes that batch and then is painted alone. */
  lemma ContextAfterBatch(b: Machine, context: string, env: Env)
    requires Inv(b) && IsHunkState(b.state) && b.syntax.Some? && (b.minusLines != [] || b.plusLines != [])
    requires var line := env.stripAnsiCodes(context);
             IsContent(line) && !FirstCharIs(line, '-') && !FirstCharIs(line, '+')
    ensures Step(b, context, env).actions
         == [EmitBuffered(b.minusLines, b.plusLines, b.syntax.value), EmitText(env.stripAnsiCodes(context), b.syntax.value)]
  {
    ContextLinePaintedAlone(b, context, env);
  }

  /**
    One replacement: with nothing pending inside a hunk (and not right after an
    added line), a run of '-' lines, a run of '+' lines and then a context line
    ask for exactly one flush of both runs (stripped, markers kept) and then
    the context line painted alone.
   */
  lemma ReplacementFlushedTogether(m: Machine, minus: seq<string>, plus: seq<string>, context: string, env: Env)
    requires Inv(m) && IsHunkState(m.state) && m.state != HunkPlus && m.syntax.Some?
    requires m.minusLines == [] && m.plusLines == [] && (minus != [] || plus != [])
    requires forall i :: 0 <= i < |minus| ==> FirstCharIs(env.stripAnsiCodes(minus[i]), '-')
    requires forall i :: 0 <= i < |plus| ==> FirstCharIs(env.stripAnsiCodes(plus[i]), '+')
    requires var line := env.stripAnsiCodes(context);
             IsContent(line) && !FirstCharIs(line, '-') && !FirstCharIs(line, '+')
    ensures Feed(m, minus + plus + [context], env).actions
         == [EmitBuffered(Pushed(minus, env.stripAnsiCodes, '-'), Pushed(plus, env.stripAnsiCodes, '+'), m.syntax.value),
             EmitText(env.stripAnsiCodes(context), m.syntax.value)]
  {
    var strip := env.stripAnsiCodes;
    var removed, added := Pushed(minus, strip, '-'), Pushed(plus, strip, '+');
    var batched := Feed(m, minus + plus, env);
    RemovedThenAddedBatched(m, minus, plus, env);
    assert batched.machine.minusLines == removed && batched.machine.plusLines == added by {
      assert [] + removed == removed && [] + added == added;
    }
    ContextAfterBatch(batched.machine, context, env);
    FeedSnoc(m, minus + plus, context, env);
    var step := Step(batched.machine, context, env);
    assert [] + step.actions == step.actions;
  }

  /**
    What such a replacement writes: the removed run joined by newlines on the
    removed background, the added run on the added background, and the
    context line with no background and with highlighting.
   */
  lemma ReplacementWrites(syntax: SyntaxRef, removed: seq<string>, added: seq<string>, context: string,
                          config: Config, highlight: Highlighter)
    requires removed != [] || added != []
    ensures Rendered([EmitBuffered(removed, added, syntax), EmitText(context, syntax)], config, highlight)
         == [PaintedText(Join(removed, "\n"), syntax, Some(config.minusColor), config, config.highlightRemoved, highlight),
             PaintedText(Join(added, "\n"), syntax, Some(config.plusColor), config, true, highlight),
             PaintedText(context, syntax, None, config, true, highlight)]
  {
    var actions := [EmitBuffered(removed, added, syntax), EmitText(context, syntax)];
    assert actions[..1] == [actions[0]];
    RenderedSingle(actions[0], config, highlight);
  }

  // ---------------------------------------------------------------------------
  // The imperative loop

  lemma RenderedRawAfterFlush(m: Machine, rawLine: string, config: Config, highlight: Highlighter, before: seq<string>)
    requires Inv(m)
    ensures before + Rendered(Flush(m) + [WriteRaw(rawLine)], config, highlight)
         == before + FlushedLines(m.minusLines, m.plusLines, m.syntax, config, highlight) + [rawLine]
  {
    RenderedAppend(Flush(m), [WriteRaw(rawLine)], config, highlight);
    RenderedSingle(WriteRaw(rawLine), config, highlight);
    RenderedFlush(m, config, highlight);
    AppendAssoc(before, FlushedLines(m.minusLines, m.plusLines, m.syntax, config, highlight), [rawLine]);
  }

  lemma RenderedTextAfterFlush(m: Machine, line: string, config: Config, highlight: Highlighter, before: seq<string>)
    requires Inv(m) && m.syntax.Some?
    ensures before + Rendered(Flush(m) + [EmitText(line, m.syntax.value)], config, highlight)
         == before + FlushedLines(m.minusLines, m.plusLines, m.syntax, config, highlight)
              + ["" + PaintedText(line, m.syntax.value, None, config, true, highlight)]
  {
    var painted := PaintedText(line, m.syntax.value, None, config, true, highlight);
    RenderedAppend(Flush(m), [EmitText(line, m.syntax.value)], config, highlight);
    RenderedSingle(EmitText(line, m.syntax.value), config, highlight);
    RenderedFlush(m, config, highlight);
    assert "" + painted == painted;
    AppendAssoc(before, FlushedLines(m.minusLines, m.plusLines, m.syntax, config, highlight), [painted]);
  }

  /**
    The match on the first character of a line inside a hunk with a syntax:
    the painter's buffers, syntax and writer, and the returned state, are what
    `Step` says.
   */
  method HandleHunkLine(painter: Painter, state: State, rawLine: string, line: string, env: Env) returns (next: State)
    requires painter.Valid() && painter.highlighter == env.highlight
    requires Inv(Machine(state, painter.minusLines, painter.plusLines, painter.syntax))
    requires IsHunkState(state) && painter.syntax.Some?
    requires line == env.stripAnsiCodes(rawLine) && IsContent(line)
    modifies painter
    ensures painter.Valid()
    ensures var o := Step(Machine(state, old(painter.minusLines), old(painter.plusLines), old(painter.syntax)), rawLine, env);
            && Machine(next, painter.minusLines, painter.plusLines, painter.syntax) == o.machine
            && painter.writer == old(painter.writer) + Rendered(o.actions, painter.config, env.highlight)
  {
    ghost var m := Machine(state, painter.minusLines, painter.plusLines, painter.syntax);
    ghost var config := painter.config;
    if FirstCharIs(line, '-') {
      MinusFlushesOnlyAfterPlus(m, rawLine, env);
      if state == HunkPlus {
        RenderedFlush(m, config, env.highlight);
        painter.PaintAndEmitBufferedLines();
      } else {
        assert painter.writer + [] == painter.writer;
      }
      painter.minusLines := painter.minusLines + [line];
      next := HunkMinus;
    } else if FirstCharIs(line, '+') {
      PlusNeverFlushes(m, rawLine, env);
      assert painter.writer + [] == painter.writer;
      painter.plusLines := painter.plusLines + [line];
      next := HunkPlus;
    } else {
      ContextLinePaintedAlone(m, rawLine, env);
      RenderedTextAfterFlush(m, line, config, env.highlight, painter.writer);
      painter.PaintAndEmitBufferedLines();
      next := HunkZero;
      painter.PaintAndEmitText(line, None, true);
    }
  }

  /**
    The body of the loop in `delta` for one raw line: the painter's buffers,
    syntax and writer, and the returned state, are what `Step` says.
   */
  method HandleLine(painter: Painter, state: State, rawLine: string, env: Env) returns (next: State)
    requires painter.Valid() && painter.highlighter == env.highlight
    requires Inv(Machine(state, painter.minusLines, painter.plusLines, painter.syntax))
    modifies painter
    ensures painter.Valid()
    ensures var o := Step(Machine(state, old(painter.minusLines), old(painter.plusLines), old(painter.syntax)), rawLine, env);
            && Machine(next, painter.minusLines, painter.plusLines, painter.syntax) == o.machine
            && painter.writer == old(painter.writer) + Rendered(o.actions, painter.config, env.highlight)
  {
    ghost var m := Machine(state, painter.minusLines, painter.plusLines, painter.syntax);
    ghost var config := painter.config;
    ghost var o := Step(m, rawLine, env);
    ghost var before := painter.writer;
    var line := env.stripAnsiCodes(rawLine);
    if StartsWith(line, "diff --") {
      DiffLineFlushes(m, rawLine, env);
      RenderedRawAfterFlush(m, rawLine, config, env.highlight, painter.writer);
      painter.PaintAndEmitBufferedLines();
      next := DiffMeta;
      painter.syntax := SyntaxFor(line, env);
      assert painter.writer + [rawLine] == before + Rendered(o.actions, config, env.highlight);
    } else if StartsWith(line, "commit") {
      CommitLineFlushes(m, rawLine, env);
      RenderedRawAfterFlush(m, rawLine, config, env.highlight, painter.writer);
      painter.PaintAndEmitBufferedLines();
      next := Commit;
      assert painter.writer + [rawLine] == before + Rendered(o.actions, config, env.highlight);
    } else if StartsWith(line, "@@") {
      HunkHeaderNeverFlushes(m, rawLine, env);
      RenderedSingle(WriteRaw(rawLine), config, env.highlight);
      next := HunkMeta;
      assert painter.writer + [rawLine] == before + Rendered(o.actions, config, env.highlight);
    } else if (state == HunkMeta || state == HunkZero || state == HunkMinus || state == HunkPlus)
              && painter.syntax.Some?
    {
      next := HandleHunkLine(painter, state, rawLine, line, env);
      return;
    } else {
      OtherLinePassesThrough(m, rawLine, env);
      RenderedSingle(WriteRaw(rawLine), config, env.highlight);
      next := state;
      assert painter.writer + [rawLine] == before + Rendered(o.actions, config, env.highlight);
    }
    painter.writer := painter.writer + [rawLine];
  }

  /** `delta`. */
  method Delta(lines: seq<string>, config: Config, env: Env) returns (written: seq<string>)
    ensures written == DeltaOutput(lines, config, env)
  {
    var painter := new Painter(config, env.highlight);
    var state := Unknown;
    for i := 0 to |lines|
      invariant painter.Valid() && painter.config == config && painter.highlighter == env.highlight
      invariant Run(lines[..i], env).machine == Machine(state, painter.minusLines, painter.plusLines, painter.syntax)
      invariant painter.writer == Rendered(Run(lines[..i], env).actions, config, env.highlight)
    {
      ghost var before := Run(lines[..i], env);
      assert lines[..i + 1][..i] == lines[..i];
      RenderedAppend(before.actions, Step(before.machine, lines[i], env).actions, config, env.highlight);
      state := HandleLine(painter, state, lines[i], env);
    }
    assert lines[..|lines|] == lines;
    ghost var final := Run(lines, env);
    RenderedFlush(final.machine, config, env.highlight);
    RenderedAppend(final.actions, Flush(final.machine), config, env.highlight);
    painter.PaintAndEmitBufferedLines();
    written := painter.writer;
  }
}

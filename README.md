# delta: the painter and the line classifier

This project models the core of `delta`, a colouriser for `git diff` output
that reads diff text line by line and writes it out again with syntax
highlighting and a background tint on the removed and added lines. It covers
two source files:

- `src/paint.rs`: how the configuration is resolved (theme name, the removed
  and added background colours and their light/dark defaults); what
  `paint`, `paint_ranges` and `paint_text` append to a string buffer (24-bit
  SGR escapes `ESC[48;2;r;g;bm` for the background and `ESC[38;2;r;g;bm` for
  the foreground); and the `Painter`, which holds the pending removed and added
  lines, the active syntax, an output buffer and a writer.
- `src/state_machine.rs`: the `delta` loop, a seven-state classifier over the
  ANSI-stripped copy of each line. "diff --" and "commit" lines flush the
  pending lines. A '-' line flushes only when it follows a '+' line. A '+'
  line never flushes. Any other line inside a hunk flushes and is painted
  alone. All other lines pass through raw.

The Dafny modules follow the program:

- `Paint` (paint.dfy) models `src/paint.rs`. `Painter` is a class whose
  fields the methods update in place. The writer is the sequence of lines
  written so far: one `writeln!` appends one element.
- `StateMachine` (state_machine.dfy) models `src/state_machine.rs`.
  - The method `Delta` runs the loop over a `Painter`. `HandleLine` is one
    iteration of that loop.
  - The function `Step` specifies one iteration as a new `Machine` (state,
    buffers, syntax) plus a list of `Action`s: write raw, flush, paint one
    line.
  - `Rendered` says which lines those actions write.
  - `Feed` and `Run` fold `Step` over the input.
  - `Delta` is proved to write exactly `DeltaOutput`.
- Supporting modules:
  - `Syntect` models the library's interface: `Color`, `Style`, a syntax
    reference, the highlighter as a function value, and `LinesWithEndings`.
  - `Sgr` builds the escapes and holds a reference decoder and an escape
    stripper, which are the partners of the escapes.
  - `Fmt` is the decimal formatting of a `u8`.
  - `Wrappers` (`Option`) and `Strings` are small helpers.

Calls into code outside these files are parameters of the model:

- `strip_ansi_codes`, `get_file_extension_from_diff_line` and
  `find_syntax_by_extension` are fields of `StateMachine.Env`.
- The highlighter is a `Syntect.Highlighter`. It gets the lines already
  highlighted by the same highlighter as an argument, which stands in for its
  internal parse state.
- `Color::from_str` is a function parameter of `GetConfig`.

## Model

| member | source | states |
|---|---|---|
| Paint.IsLightTheme | src/paint.rs:10-19 | a theme is light exactly when it is one of the four named light themes |
| Paint.ThemeName | src/paint.rs:69-75 | the requested theme wins; with none, "GitHub" on a light background and "Monokai Extended" otherwise, so the default is light exactly when the background is |
| Paint.GetConfig | src/paint.rs:59-106 | a colour string that parses overrides the default; a missing or unparsable one gives the light or dark default for the theme; width and highlight flag copied; pager "less" |
| Paint.DarkDefaultsIgnoreMalformedOverride | src/paint.rs:42-47 | with no theme, a dark background and a malformed removed colour, the removed tint is 0x3F,0x00,0x01 |
| Paint.Paint | src/paint.rs:217-248 | appends the optional background escape, then the optional foreground escape with the text, or else the bare text |
| Paint.PaintRanges | src/paint.rs:196-214 | appends each range painted in order, foreground taken from the style only when highlighting is on |
| Paint.PaintText | src/paint.rs:164-193 | appends, for each piece of the text cut after newlines, the background escape and then that piece's highlighted ranges |
| Paint.PlainPaintIsIdentity | src/paint.rs:175-192 | with no background and highlighting off, the text is written back unchanged (given ranges that cover each line) |
| Paint.EmptyTextPaintsNothing | src/paint.rs:175 | empty text yields no pieces, so nothing is appended |
| Paint.BackgroundPerPiece | src/paint.rs:175-192 | with a background, whatever the highlighting choice, each piece is written as one background escape followed by a body; each body strips back to its piece when the text holds no escape character, and is the piece itself with highlighting off |
| Paint.StripPaintedText | src/paint.rs:164-248 | removing the colour escapes from the painted text gives the text back, for every background and highlighting choice |
| Paint.StripPaintedAhead | src/paint.rs:217-248 | removing the escapes from one painted range gives its text, whatever follows |
| Paint.JoinedLinesPieces | src/paint.rs:127 | joining newline-free non-empty lines with "\n" and cutting after newlines gives back one piece per line |
| Paint.FlushedLines | src/paint.rs:122-139 | a flush writes nothing for empty buffers and otherwise exactly two lines, the empty string standing for an empty side |
| Paint.FlushDecodes | src/paint.rs:122-139 | the two flushed lines, stripped of escapes, are the removed lines and the added lines joined by newlines |
| Paint.FlushTintsRemovedLines | src/paint.rs:126-130 | with removed-line highlighting off, the removed block is each removed line preceded by one removed-background escape |
| Paint.FlushTintsEachLine | src/paint.rs:122-139 | whatever the highlighting choices, each removed line is written after one removed-background escape and each added line after one added-background escape, and what follows each escape strips back to that line |
| Paint.Painter.constructor | src/state_machine.rs:39-46 | empty buffers, empty writer, no syntax, the given configuration |
| Paint.Painter.IsEmpty | src/paint.rs:118-120 | true exactly when both buffers are empty |
| Paint.Painter.PaintAndEmitBufferedLines | src/paint.rs:122-139 | the writer gains the flushed lines (nothing when empty); both buffers end empty; the syntax is kept |
| Paint.Painter.PaintAndEmitText | src/paint.rs:141-158 | the writer gains one line, the output buffer followed by the painted text; the output buffer ends empty; buffers and syntax unchanged |
| Sgr.BackgroundEscapeDecodes | src/paint.rs:181-186 | the background escape parses back to selector 48 and the colour's red, green and blue |
| Sgr.ForegroundEscapeDecodes | src/paint.rs:237-242 | the foreground escape parses back to selector 38 and the colour's red, green and blue |
| Sgr.StripBackgroundEscape | src/paint.rs:226-231 | the stripper removes a background escape and nothing after it |
| Sgr.StripForegroundEscape | src/paint.rs:237-242 | the stripper removes a foreground escape and nothing after it |
| Fmt.DecimalRoundTrip | src/paint.rs:183-184 | the decimal text of a colour component reads back as the component |
| Syntect.LinesWithEndingsConcat | src/paint.rs:175 | the pieces of the text put back together give the text |
| Syntect.LinesWithEndingsShape | src/paint.rs:175 | no piece is empty; every piece but the last ends with a newline; no newline occurs inside a piece |
| StateMachine.Flush | src/paint.rs:123-125 | a flush asks for nothing exactly when both buffers are empty |
| StateMachine.Step | src/state_machine.rs:50-92 | one iteration preserves the invariant: pending lines exist only inside a hunk with a syntax, removed lines start with '-', added lines with '+' |
| StateMachine.RenderedFlush | src/state_machine.rs:53 | flushing the machine writes what the painter's flush writes |
| StateMachine.DiffLineFlushes | src/state_machine.rs:52-59 | a "diff --" line flushes, enters DiffMeta, selects the syntax from the extension, and is written raw |
| StateMachine.CommitLineFlushes | src/state_machine.rs:60-62 | a "commit" line flushes, enters Commit, keeps the syntax, and is written raw |
| StateMachine.HunkHeaderNeverFlushes | src/state_machine.rs:63-64 | an "@@" line enters HunkMeta, keeps every pending line, and is written raw |
| StateMachine.MinusFlushesOnlyAfterPlus | src/state_machine.rs:72-78 | a '-' line flushes if and only if the state was HunkPlus, then becomes the last pending removed line |
| StateMachine.PlusNeverFlushes | src/state_machine.rs:79-82 | a '+' line never flushes and becomes the last pending added line |
| StateMachine.ContextLinePaintedAlone | src/state_machine.rs:83-87 | any other hunk line, the empty line included, flushes, enters HunkZero and is painted alone, with highlighting and no background |
| StateMachine.OtherLinePassesThrough | src/state_machine.rs:65-70 | outside a hunk or without a syntax, an unmarked line is written raw and nothing changes; nothing is pending then |
| StateMachine.Feed | src/state_machine.rs:50-92 | every prefix of the loop keeps the invariant |
| StateMachine.Run | src/state_machine.rs:48-50 | the loop from the Unknown state keeps the invariant |
| StateMachine.EmptyInputWritesNothing | src/state_machine.rs:48-94 | with no input, nothing is written and the state stays Unknown with empty buffers |
| StateMachine.FeedAppend | src/state_machine.rs:50-92 | running over two inputs in turn is running over their concatenation |
| StateMachine.BatchOrder | src/state_machine.rs:50-92 | after any prefix there is a point, either a line that asked for a flush or a moment when nothing was pending, after which no line asked for a flush, and since which the '-' lines read, in order, are the pending removed lines and the '+' lines the pending added lines |
| StateMachine.RemovedThenAddedBatched | src/state_machine.rs:71-82 | inside a hunk, not after a '+' line, a run of '-' lines then a run of '+' lines asks for nothing and extends both buffers by every line, in order |
| StateMachine.ReplacementFlushedTogether | src/state_machine.rs:71-87 | such a replacement followed by a context line asks for exactly one flush of both runs and then the context line alone |
| StateMachine.ReplacementWrites | src/paint.rs:122-139 | that flush writes the removed block on the removed tint, the added block on the added tint, then the context line |
| StateMachine.HandleHunkLine | src/state_machine.rs:71-88 | the match on a hunk line's first character leaves the painter's buffers, syntax and writer, and the new state, as Step prescribes |
| StateMachine.HandleLine | src/state_machine.rs:51-91 | the painter's buffers, syntax and writer, and the new state, are what Step prescribes |
| StateMachine.Delta | src/state_machine.rs:31-95 | writes exactly the raw, painted and flushed lines the classifier prescribes, ending with the final flush |

## Left out

- The pager (`OutputType::from_mode`, `handle`) is not modelled: the writer is the sequence of lines written.
- I/O errors from `writeln!` and their `?` propagation are not modelled. Every write succeeds.
- syntect's parser and themes are not modelled. The highlighter is an arbitrary function value. The properties that depend on its ranges spelling out the line take that as the precondition `Covers`.
- The theme lookup `theme_set.themes[theme_name]` is not modelled. It panics on an unknown name; the model keeps the theme as its name.
- `strip_ansi_codes`, `get_file_extension_from_diff_line` and `find_syntax_by_extension` are arbitrary functions. They are defined outside these two files.
- `Color::from_str` is an arbitrary function, and a parse error is `None`.
- The `Config` field `width` and the colour's alpha are carried but never read by the core.
- The `Config` field `syntax_set` is not represented: the `Highlighter` function value stands for highlighting with it.
- Paint.Painter.PaintAndEmitText: `self.syntax.unwrap()` panics when no syntax is set. The method instead requires a syntax. `StateMachine.Step`'s invariant shows that no call from the loop violates this.
- Paint.Painter.PaintAndEmitBufferedLines: it requires a syntax when something is pending, for the same reason.
- Lifetimes, borrowing and the `&mut` writer aliasing are not modelled.
- Paint.FlushedLines: it states only how many lines it writes. What they hold is stated by `FlushDecodes`, `FlushTintsEachLine` and `FlushTintsRemovedLines`.

Where the code and its own comments or documentation differ, the model follows the code:

- The pending lines keep their leading '-' or '+'. They are painted with the marker still in place, since the code never removes it (see the TODO at src/paint.rs:176-178).
- An "@@" line does not flush. The transition table in the comment at src/state_machine.rs:19-29 lists a flush on entering HunkMeta from HunkMinus or HunkPlus, but the branch at src/state_machine.rs:63-64 only changes the state. `HunkHeaderNeverFlushes` states what the code does.
- Lines starting with "diff --", "commit" or "@@" are written raw after their branch runs, because only the hunk branch ends with `continue` (src/state_machine.rs:89-91).

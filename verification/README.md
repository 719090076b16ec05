# BTOR2 witness analysis, modelled in Dafny

This project models the witness pipeline of `periscope-rs/src/btor/`, the part
of periscope that reads the witnesses `btormc` prints for a BTOR2 model and
reports them. The pipeline has four stages:

- **Parser.** It reads a witness text: a header line `sat`, then the violated
  props (`b0`, `j1`, ...) and their line, then frames. Each frame is an
  optional `#` state part and an `@` input part. Each part is a step number
  followed by assignment lines, which are either bit-vector (`2 0101 x`) or
  array (`3 [01] 0101 mem`). A `.` closes the witness.
- **Property names.** These are extracted from the BTOR2 model itself: every
  line whose second token is `bad` or `justice` is numbered in order.
- **Enrichment.** The numbered details are attached to the header's props.
- **Report.** `analyze_and_report` prints a summary line and the prop list.
  Then, for inputs and for states, it prints every signal's changes over the
  steps, right-aligned, with their binary rendering.

Every parser is a function from the input text to
`ParseResult<T> = Parsed(value, rest) | Failed`, mirroring nom's combinators
one for one. Every printer is written in continuation style (`...Then(x, tail)`).
Round-trip lemmas state that a printed value reads back as itself with the tail
left over. The report is modelled as the sequence of lines it prints.

Modules, in dependency order:

- `Wrappers`: `Option` and `Result`.
- `Text`:
  - decimal and binary rendering;
  - padding;
  - `split`/`join`;
  - the byte-wise string order that `BTreeMap<String, _>` uses.
- `Helpers`: `helpers.rs`, plus nom's `tag`, `take_until` and `space0`.
- `Assignments`: `assignment.rs`.
- `Props`: `PropKind`, `Prop`, `Property` and their text forms.
- `Grammar`: `witness_format.rs`.
- `Witnesses`: `Witness::from_str`, `props_in_steps` and `add_prop_names` of
  `mod.rs`.
- `Btor2`: `btor2.rs`.
- `Flow`: `collect_assignments` and the iterators of
  `analyze_input_flow`/`analyze_state_flow`.
- `Report`: `print_flow` and `analyze_and_report`.
- `Scenarios`: the worked examples of the sources' doc comments and tests.

Behaviours of the code that the model keeps as written:

- **`comment` never matches.** `comment` looks for the two characters `\` `n`
  and then requires a newline where the backslash stands. So comments before
  the witness and inside a model are never skipped, and a witness containing
  one is refused.
- **Array indices are decimal.** The index of an array assignment is read
  with `idx.parse()`, i.e. as a DECIMAL number made of the digits 0 and 1. So
  `[010]` is index 10, not 2. `to_binary_string` renders the index in binary
  again.
- **The summary says `Satisifed`.** The report's first line uses that
  spelling.
- **Two nid labels.** The report's prop list writes `with nid: `, while
  `formatted_string` writes `with nid ` (no colon).
- **State flows use input steps.** The state flow stamps every assignment
  with the step of its frame's INPUT part.
- **Signal keys can collide.** An assignment without a symbol is keyed by its
  position in the flattened iteration, written in decimal. A symbol that
  happens to be such a numeral shares that signal.
- **No blank line after the header.** A blank line between the header and the
  first frame is refused: the header already consumes its one newline.
- **The closing line starts at step 1.** The largest step starts at 1, so a
  witness whose only step is 0 closes its signals with `-> @1: end`.

## Model

| member | source | states |
|---|---|---|
| Helpers.Tag | periscope-rs/src/btor/helpers.rs:10 | `tag(lit)` succeeds exactly when the input starts with `lit`, and leaves what follows it |
| Helpers.TagReads | periscope-rs/src/btor/helpers.rs:10 | a literal followed by any tail is read as that literal, leaving exactly the tail |
| Helpers.FindFrom | periscope-rs/src/btor/helpers.rs:15 | the first position at or after `from` where the pattern occurs, or none when it occurs nowhere there |
| Helpers.TakeUntil | periscope-rs/src/btor/helpers.rs:15 | on success the input splits into the text before the pattern and a rest that starts with the pattern |
| Helpers.Space0 | periscope-rs/src/btor/assignment.rs:93 | always succeeds; it consumes a run of spaces and tabs and stops before the next non-blank character |
| Helpers.Uint | periscope-rs/src/btor/helpers.rs:4-6 | reads a non-empty maximal digit run whose value is below 2^64; it fails when the input does not start with a digit or the value overflows `u64` |
| Helpers.UintRoundTrip | periscope-rs/src/btor/helpers.rs:4-6 | the decimal rendering of any `u64` reads back as that number when no digit follows it |
| Helpers.Newline | periscope-rs/src/btor/helpers.rs:9-11 | succeeds exactly on a leading `\n` and consumes only that character |
| Helpers.Comment | periscope-rs/src/btor/helpers.rs:14-17 | fails on every input: after `take_until("\\n")` the rest starts with a backslash, never a newline |
| Assignments.GetValue | periscope-rs/src/btor/assignment.rs:112-117 | the value field of the assignment's kind, for bit-vectors and arrays alike |
| Assignments.ToBinaryString | periscope-rs/src/btor/assignment.rs:48-77 | a bit-vector renders as exactly `bits` binary digits; an array renders as `[`, `bits` index bits, `] -> ` and `bits` value bits |
| Assignments.ToBinaryStringDecodes | periscope-rs/src/btor/assignment.rs:56-73 | read in base 2, the value run gives the value modulo 2^bits, and an array's index run gives the index modulo 2^bits (only the low `bits` bits are shown) |
| Assignments.ToBinaryStringDecodesFitting | periscope-rs/src/btor/assignment.rs:56-73 | a value, or an array index, below 2^bits reads back exactly from its run |
| Assignments.ToBinaryStringBitAt | periscope-rs/src/btor/assignment.rs:56-73 | digit `j` of a bit-vector's rendering is bit `bits-1-j` of the value (most significant first); for an array, digit `j` of the index run and of the value run are bit `bits-1-j` of the index and of the value |
| Assignments.BinaryString | periscope-rs/src/btor/assignment.rs:145-147 | succeeds exactly when the input starts with `0` or `1`, taking the maximal run of binary digits |
| Assignments.BinaryStringReads | periscope-rs/src/btor/assignment.rs:145-147 | a binary run followed by a non-binary character is read as exactly that run |
| Assignments.BitvecAssign | periscope-rs/src/btor/assignment.rs:150-159 | reads the maximal binary run as a bit-vector whose value is the run in base 2 and whose width is the run's length |
| Assignments.RunThenClose | periscope-rs/src/btor/assignment.rs:165 | a non-empty binary run that must be followed by `]` |
| Assignments.Bracketed | periscope-rs/src/btor/assignment.rs:163-166 | the bracketed index: input starts with `[`, the value is a non-empty binary run |
| Assignments.BracketedReads | periscope-rs/src/btor/assignment.rs:163-166 | `[run]` followed by anything reads as `run` with the rest after `]` |
| Assignments.ArrayIndex | periscope-rs/src/btor/assignment.rs:168 | the bracketed index followed by optional blanks |
| Assignments.ArrayIndexReads | periscope-rs/src/btor/assignment.rs:163-168 | `[run]`, blanks, then a non-blank tail reads as `run` with exactly the tail left |
| Assignments.ArrayAssign | periscope-rs/src/btor/assignment.rs:161-178 | an array assignment starts with `[`, has width at least 1, and stops before any further binary digit |
| Assignments.ArrayAssignReads | periscope-rs/src/btor/assignment.rs:161-178 | `[index] value` with any blanks between reads as the array with decimal index, binary value and the value's width |
| Assignments.Symbol | periscope-rs/src/btor/assignment.rs:133-142 | takes the maximal run of ASCII non-newline characters and keeps the part before the first `@` |
| Assignments.KindLiteral | periscope-rs/src/btor/assignment.rs:95 | `alt((bitvec_assign, array_assign))`: a leading binary digit always gives a bit-vector |
| Assignments.KindLiteralReads | periscope-rs/src/btor/assignment.rs:95 | every kind of width at least 1, whose value fits that width, reads back from its literal |
| Assignments.OptSymbol | periscope-rs/src/btor/assignment.rs:99 | no symbol exactly when the input does not start with a symbol character, and then nothing is consumed |
| Assignments.EndsLineExtends | periscope-rs/src/btor/assignment.rs:101 | consuming a line end survives reading more in front of it |
| Assignments.NewlineEndsLine | periscope-rs/src/btor/assignment.rs:101 | what `newline` leaves ends a line of the input |
| Assignments.SymbolLine | periscope-rs/src/btor/assignment.rs:99-101 | the optional symbol and the newline; a read symbol is free of `@` and newline |
| Assignments.SymbolLineReads | periscope-rs/src/btor/assignment.rs:99-101 | a printable symbol (or none) followed by a newline reads back as itself |
| Assignments.LineEnd | periscope-rs/src/btor/assignment.rs:97-101 | blanks, the optional symbol and the newline |
| Assignments.LineEndReadsBare | periscope-rs/src/btor/assignment.rs:97-101 | a bare newline reads as no symbol |
| Assignments.LineEndReadsNamed | periscope-rs/src/btor/assignment.rs:97-101 | ` name` and a newline read as that symbol |
| Assignments.LineEndReads | periscope-rs/src/btor/assignment.rs:97-101 | the printed symbol suffix (empty or ` name`) and a newline read back as the symbol |
| Assignments.SymbolSuffixLead | periscope-rs/src/btor/assignment.rs:97-99 | what follows a printed literal starts with a blank or newline, so no binary digit extends the literal |
| Assignments.LiteralLine | periscope-rs/src/btor/assignment.rs:95-109 | the kind literal then the line end; the width is at least 1 and a symbol has no `@` |
| Assignments.LiteralLineReads | periscope-rs/src/btor/assignment.rs:95-109 | a printed literal and symbol line read back as the assignment |
| Assignments.LiteralLead | periscope-rs/src/btor/assignment.rs:95 | a printed literal starts with `[` or a binary digit |
| Assignments.AssignmentBody | periscope-rs/src/btor/assignment.rs:93-109 | everything after the id; the parse ends a line |
| Assignments.AssignmentBodyReads | periscope-rs/src/btor/assignment.rs:93-109 | a blank, a printed literal and symbol line read back as the assignment |
| Assignments.ParseAssignment | periscope-rs/src/btor/assignment.rs:90-110 | fails without a leading digit or without any newline; success consumes a whole line, with width at least 1 |
| Assignments.ParseAssignmentReads | periscope-rs/src/btor/assignment.rs:90-110 | every encodable assignment printed after an id below 2^64 reads back as itself, with the tail left |
| Props.PropKindFromStr | periscope-rs/src/btor/witness_format.rs:17-27 | accepts exactly `bad` and `justice`, mapping each to its kind; any other text gives the message `Unknown prop kind: '<text>'` |
| Props.PropKindFromStrKeyword | periscope-rs/src/btor/witness_format.rs:17-27 | the keyword of each kind reads back as that kind |
| Props.Label | periscope-rs/src/btor/witness_format.rs:72-81 | a non-empty word without blanks, starting with `B` exactly for `bad` |
| Props.Display | periscope-rs/src/btor/witness_format.rs:72-81 | `Bad at ` or `Justice at `, then the index in decimal |
| Props.DisplayInjective | periscope-rs/src/btor/witness_format.rs:72-81 | two props that display the same have the same kind and index |
| Props.Describe | periscope-rs/src/btor/witness_format.rs:42-54 | the display, extended exactly when the prop has an attached name; the extension is ` named '<name>'`, the nid label and the node id |
| Props.DescribeAll | periscope-rs/src/btor/witness_format.rs:39-56 | one description per prop, in order |
| Props.FormattedString | periscope-rs/src/btor/witness_format.rs:38-58 | empty exactly for no props, otherwise starting with the first prop's description |
| Props.FormattedStringUnnamed | periscope-rs/src/btor/witness_format.rs:38-58 | without attached names, it is the displays joined by `, ` |
| Props.FormattedStringEntry | periscope-rs/src/btor/witness_format.rs:38-58 | entry `i` of the string is prop `i`'s description, at its offset, preceded by `, ` when it is not the first; the last entry ends the string |
| Props.EntryAt | periscope-rs/src/btor/mod.rs:95-117 | the same entry layout after any head and under any nid label |
| Props.DescribeSwapsLabel | periscope-rs/src/btor/mod.rs:101-108 | a named prop's entry in the report and in `formatted_string` differ only in the nid label: the same head before it and the same node id after it |
| Grammar.KindTag | periscope-rs/src/btor/witness_format.rs:88 | succeeds exactly on a leading `b` or `j`, consuming that letter |
| Grammar.ParseProp | periscope-rs/src/btor/witness_format.rs:85-104 | a parsed prop consumes input and carries no property details |
| Grammar.ParsePropReadsLetterAndUint | periscope-rs/src/btor/witness_format.rs:85-104 | a prop is read exactly when a `b`/`j` is followed by a `u64`, with that kind and index |
| Grammar.PropReads | periscope-rs/src/btor/witness_format.rs:85-104 | a printed prop reads back as itself before a non-digit |
| Grammar.PropsFrom | periscope-rs/src/btor/witness_format.rs:119 | the `many` loop stops exactly where no further prop can be read |
| Grammar.PropsEndAtNewline | periscope-rs/src/btor/witness_format.rs:119 | a newline ends the list of props |
| Grammar.PropsThenLead | periscope-rs/src/btor/witness_format.rs:119 | printed props never start with a digit, so they cannot extend the number before them |
| Grammar.PropsFromReads | periscope-rs/src/btor/witness_format.rs:119 | printed props before a newline read back as the same list |
| Grammar.ParseProps | periscope-rs/src/btor/witness_format.rs:119 | `many1` succeeds exactly when one prop can be read, and then reads at least one |
| Grammar.ParsePropsReads | periscope-rs/src/btor/witness_format.rs:119 | a non-empty printed list reads back as itself |
| Grammar.PropsLine | periscope-rs/src/btor/witness_format.rs:118-121 | the props and the newline after them |
| Grammar.ParseHeader | periscope-rs/src/btor/witness_format.rs:116-124 | a header starts with `sat\n`, has at least one prop, and ends a line |
| Grammar.HeaderReads | periscope-rs/src/btor/witness_format.rs:116-124 | a printed header reads back as itself |
| Grammar.CommentLine | periscope-rs/src/btor/witness_format.rs:137-139 | the comment line of a model never matches |
| Grammar.ModelItem | periscope-rs/src/btor/witness_format.rs:141-146 | one model item is one assignment, since the comment before it never matches |
| Grammar.ModelItems | periscope-rs/src/btor/witness_format.rs:148 | the loop stops exactly where no further assignment can be read |
| Grammar.ModelItemsReads | periscope-rs/src/btor/witness_format.rs:136-151 | printed assignments read back in order when no digit follows them |
| Grammar.ParseModel | periscope-rs/src/btor/witness_format.rs:136-151 | a model is read exactly when an assignment can be read; it starts with that assignment and stops before any further one |
| Grammar.OptModel | periscope-rs/src/btor/witness_format.rs:166-170 | `opt(Model::parse)` defaulting to empty: empty exactly when no assignment follows |
| Grammar.OptModelReads | periscope-rs/src/btor/witness_format.rs:166-170 | a printed model, possibly empty, reads back as itself |
| Grammar.StepBody | periscope-rs/src/btor/witness_format.rs:165-166 | the newline after the step, then the optional model |
| Grammar.ParseTransition | periscope-rs/src/btor/witness_format.rs:162-173 | a transition is a `u64` step, a newline and the optional model, stopping before any further assignment |
| Grammar.TransitionReads | periscope-rs/src/btor/witness_format.rs:162-173 | a printed transition reads back as itself |
| Grammar.ParsePart | periscope-rs/src/btor/witness_format.rs:186-187 | the marker character, then the transition |
| Grammar.PartReads | periscope-rs/src/btor/witness_format.rs:186-187 | a marker and a printed transition read back as the transition |
| Grammar.OptStatePart | periscope-rs/src/btor/witness_format.rs:189-193 | a state part is present only when the input starts with `#`; otherwise nothing is consumed |
| Grammar.ParseFrame | periscope-rs/src/btor/witness_format.rs:185-199 | a frame has a state part exactly when it starts with `#` |
| Grammar.FrameNeedsInputPart | periscope-rs/src/btor/witness_format.rs:190-193 | text without any `@` holds no frame |
| Grammar.FrameLead | periscope-rs/src/btor/witness_format.rs:185-199 | a frame starts with `#` or `@` |
| Grammar.FrameReads | periscope-rs/src/btor/witness_format.rs:185-199 | a printed frame reads back as itself |
| Grammar.FramesFrom | periscope-rs/src/btor/witness_format.rs:202-204 | the `many` loop stops exactly where no further frame can be read |
| Grammar.FramesThenLead | periscope-rs/src/btor/witness_format.rs:202-204 | printed frames before the terminator start with `#`, `@` or `.` |
| Grammar.FramesFromReads | periscope-rs/src/btor/witness_format.rs:202-204 | printed frames before `.` read back in order |
| Grammar.ParseFrames | periscope-rs/src/btor/witness_format.rs:202-204 | `many1` succeeds exactly when one frame can be read; it starts with that frame and stops before any further one |
| Grammar.ParseFramesReads | periscope-rs/src/btor/witness_format.rs:202-204 | a non-empty printed frame list reads back as itself |
| Grammar.Terminator | periscope-rs/src/btor/witness_format.rs:219-220 | the terminator consumes input |
| Grammar.TerminatorConsumes | periscope-rs/src/btor/witness_format.rs:219-220 | succeeds exactly on a leading `.`, and consumes the newline after it only if there is one |
| Grammar.TerminatorReads | periscope-rs/src/btor/witness_format.rs:219-220 | `.` and a newline are consumed together |
| Grammar.FramesAndEnd | periscope-rs/src/btor/witness_format.rs:218-220 | at least one frame, then the terminator |
| Grammar.FramesAndEndReads | periscope-rs/src/btor/witness_format.rs:218-220 | printed frames and `.\n` read back as the frames |
| Grammar.ParseWitnessFormat | periscope-rs/src/btor/witness_format.rs:214-227 | a witness starts with `sat\n` and has at least one prop and at least one frame |
| Grammar.WitnessReads | periscope-rs/src/btor/witness_format.rs:214-227 | every encodable witness, printed, reads back as itself with the tail left over |
| Grammar.HeaderSpaceAfterPropFails | periscope-rs/src/btor/witness_format.rs:116-124 | a blank after a prop in the header makes the header fail: `many1` stops there and `newline` refuses the blank |
| Grammar.HeaderBlankLineFails | periscope-rs/src/btor/witness_format.rs:116-124 | a blank line right after the header makes the text fail to parse |
| Witnesses.Message | periscope-rs/src/btor/mod.rs:53-76 | every error has a message; the leftover-input message ends with the leftover text |
| Witnesses.MessageInjective | periscope-rs/src/btor/mod.rs:53-76 | the three error messages of `from_str` tell the error cases apart |
| Witnesses.SkipComments | periscope-rs/src/btor/mod.rs:58 | the optional comment prefix consumes nothing |
| Witnesses.FromStr | periscope-rs/src/btor/mod.rs:53-76 | empty input is refused first; otherwise it succeeds exactly when a witness reads with nothing left, a grammar failure is `Malformed`, and a witness with text left over is `Incomplete` with exactly that text |
| Witnesses.FromStrReads | periscope-rs/src/btor/mod.rs:53-76 | every printed encodable witness is accepted as itself |
| Witnesses.FromStrTrailing | periscope-rs/src/btor/mod.rs:66-70 | a printed witness followed by extra text is refused with exactly that text as the remainder |
| Witnesses.BlankLineAfterHeaderRefused | periscope-rs/src/btor/mod.rs:53-76 | a blank line after the header is a grammar failure of the whole input |
| Witnesses.PropsInSteps | periscope-rs/src/btor/mod.rs:85-88 | the header's props and the number of frames |
| Witnesses.PropsInStepsOfRead | periscope-rs/src/btor/mod.rs:85-88 | every accepted witness has at least one prop and at least one step |
| Witnesses.PropsInStepsOfPrinted | periscope-rs/src/btor/mod.rs:85-88 | for a printed witness these are its own props and frame count |
| Witnesses.AttachNames | periscope-rs/src/btor/mod.rs:240-244 | one prop out for every prop in |
| Witnesses.AttachNamesAt | periscope-rs/src/btor/mod.rs:239-245 | each prop keeps its kind and index; it takes the detail for its index exactly when it is the first prop with that index, and otherwise keeps what it had |
| Witnesses.AddPropNames | periscope-rs/src/btor/mod.rs:239-245 | the frames are unchanged; prop `i` keeps its kind and index, and takes the model's detail for its index exactly when one exists and no earlier prop has that index (`remove` hands each detail out once); otherwise it keeps what it had |
| Btor2.Tokens | periscope-rs/src/btor/btor2.rs:35 | `split(' ')`: at least one token, none containing a blank, and joined by blanks they give back the line |
| Btor2.IsCandidate | periscope-rs/src/btor/btor2.rs:33-39 | a line is kept exactly when it has a second token and that token is a prop kind keyword |
| Btor2.ParseUnsigned | periscope-rs/src/btor/btor2.rs:44 | `usize::from_str`: an optional `+`, then only digits, with a value below 2^64 |
| Btor2.ParseUnsignedReads | periscope-rs/src/btor/btor2.rs:44 | every number below 2^64 reads back from its decimal rendering, with or without `+` |
| Btor2.Candidates | periscope-rs/src/btor/btor2.rs:33-39 | the filtered lines are candidates, and there are no more of them than lines |
| Btor2.CandidateOrdinal | periscope-rs/src/btor/btor2.rs:33-40 | candidate line `j` is numbered by the count of candidate lines before it |
| Btor2.CandidatesUpTo | periscope-rs/src/btor/btor2.rs:33-39 | a candidate line extends the candidates by itself |
| Btor2.CandidatesPrefix | periscope-rs/src/btor/btor2.rs:33-40 | the candidates among the first lines begin the candidates of all lines |
| Btor2.ReadProperty | periscope-rs/src/btor/btor2.rs:41-57 | a line gives a property exactly when it is a candidate and its first token is a `usize`; the node is that number, the kind is the second token, and the name is the fourth token if there is one |
| Btor2.ReadPropertyOfTokens | periscope-rs/src/btor/btor2.rs:41-57 | a line joined from a node, a kind keyword, an argument and an optional name reads as that property |
| Btor2.NumberProperties | periscope-rs/src/btor/btor2.rs:40-58 | every key is below the number of candidates |
| Btor2.NumberPropertiesAt | periscope-rs/src/btor/btor2.rs:40-58 | key `k` is present exactly when the `k`-th candidate reads as a property, and maps to it |
| Btor2.NumberPropertiesSnoc | periscope-rs/src/btor/btor2.rs:40-58 | numbering one more candidate keeps every earlier key |
| Btor2.GetPropertyNames | periscope-rs/src/btor/btor2.rs:29-59 | every key is below the number of candidate lines |
| Btor2.GetPropertyNamesExtends | periscope-rs/src/btor/btor2.rs:29-59 | appending a line never renumbers earlier candidates; only a readable candidate adds a key |
| Btor2.PropertyOfLine | periscope-rs/src/btor/btor2.rs:26-28 | each candidate line is keyed by its ordinal among the candidates; a dropped candidate still uses up its number |
| Flow.Part | periscope-rs/src/btor/mod.rs:212-229 | the input flow takes each frame's input model; the state flow takes its state model, or nothing when the frame has no state part |
| Flow.Points | periscope-rs/src/btor/mod.rs:211-231 | there are no points exactly when every frame's part is empty |
| Flow.Stamp | periscope-rs/src/btor/mod.rs:212-214 | each assignment of a frame paired with the frame's step, in order |
| Flow.PointsAt | periscope-rs/src/btor/mod.rs:211-231 | assignment `i` of frame `j` follows the points of the earlier frames, stamped with frame `j`'s input step |
| Flow.PointsUpTo | periscope-rs/src/btor/mod.rs:212-214 | one more frame appends its stamped assignments |
| Flow.PointsPrefix | periscope-rs/src/btor/mod.rs:212-214 | the points of the first frames begin the points of all frames |
| Flow.PointsExtend | periscope-rs/src/btor/mod.rs:212-214 | dropping the last frame leaves a prefix of the points |
| Flow.PointsFrom | periscope-rs/src/btor/mod.rs:224-231 | every point comes from some frame's part, with that frame's input step |
| Flow.Key | periscope-rs/src/btor/mod.rs:137-138 | the symbol when there is one; otherwise a decimal numeral whose value is the position |
| Flow.UnnamedKeysDiffer | periscope-rs/src/btor/mod.rs:137-138 | unnamed assignments at different positions have different keys |
| Flow.Insert | periscope-rs/src/btor/mod.rs:140 | inserting a key adds exactly that key |
| Flow.InsertSorted | periscope-rs/src/btor/mod.rs:127-140 | inserting a new key keeps the keys in ascending `String` order |
| Flow.Record | periscope-rs/src/btor/mod.rs:130-151 | one iteration adds the point's key to the signals, leaves the key's series ending in the point's value, and raises the largest step to the point's step only when that is larger |
| Flow.Collect | periscope-rs/src/btor/mod.rs:123-155 | the largest step is at least 1; there are signals exactly when there are points; the last point's signal ends with its value |
| Flow.RecordValid | periscope-rs/src/btor/mod.rs:130-151 | one iteration keeps the names ascending and equal to the keys, and every series non-empty without repeated values |
| Flow.CollectMaxStep | periscope-rs/src/btor/mod.rs:128-135 | the largest step is at least 1, bounds every step, and is 1 or some point's step |
| Flow.CollectStepOfLast | periscope-rs/src/btor/mod.rs:133-135 | the last point raises the largest step only when its step is larger |
| Flow.RunningMax | periscope-rs/src/btor/mod.rs:128-135 | the update `if step > max_step` keeps the maximum property |
| Flow.Keyed | periscope-rs/src/btor/mod.rs:137-140 | the points of one signal are a subsequence of all points |
| Flow.Changes | periscope-rs/src/btor/mod.rs:144-151 | a non-empty series keeps its last value |
| Flow.ChangesSteady | periscope-rs/src/btor/mod.rs:144-151 | consecutive entries of a recorded series always differ in value |
| Flow.ChangesSnoc | periscope-rs/src/btor/mod.rs:144-151 | a point is appended exactly when its value differs from the last recorded one |
| Flow.RecordSeries | periscope-rs/src/btor/mod.rs:130-151 | one iteration touches only the point's own signal: it creates it with the point, or appends the point only on a change of value |
| Flow.CollectSeries | periscope-rs/src/btor/mod.rs:123-155 | a signal is present exactly when some point has its key, and its series is that signal's changes of value, in order |
| Flow.CollectValid | periscope-rs/src/btor/mod.rs:123-155 | the names are strictly ascending, equal the map's keys, and every series is non-empty without repeated values |
| Flow.SeriesFromPoints | periscope-rs/src/btor/mod.rs:144-151 | every recorded point is one of the input points |
| Flow.ChangesWithin | periscope-rs/src/btor/mod.rs:144-151 | the recorded changes are points of the series |
| Flow.KeyedWithin | periscope-rs/src/btor/mod.rs:137-140 | a signal's points are input points |
| Report.Prefix | periscope-rs/src/btor/mod.rs:164-167 | the step marker is one character |
| Report.LargestValue | periscope-rs/src/btor/mod.rs:172-177 | at least 1, no smaller than any value, and either 1 or some value |
| Report.PointLine | periscope-rs/src/btor/mod.rs:183-199 | a change line starts with the two indents and the arrow (blank for the first change) and ends with `)` |
| Report.ClosingLine | periscope-rs/src/btor/mod.rs:202-207 | the closing line starts with the two indents and `-> ` and ends with `: end` |
| Report.ChangeLines | periscope-rs/src/btor/mod.rs:182-200 | one line per change |
| Report.SignalLines | periscope-rs/src/btor/mod.rs:169-208 | the name line, one line per change, the closing line and a blank line |
| Report.Blocks | periscope-rs/src/btor/mod.rs:169 | one block per signal, in name order, each three lines longer than its series |
| Report.SeparatorsAt | periscope-rs/src/btor/mod.rs:192 | where `: `, ` (` and `)` fall in a change line, whatever its fields |
| Report.PointLineColumns | periscope-rs/src/btor/mod.rs:183-199 | every change line has the arrow at column 8 and `: ` and ` (` at columns fixed by the two widths |
| Report.PaddedColumns | periscope-rs/src/btor/mod.rs:191-199 | any line laid out with the padded step and value has those columns |
| Report.FieldsAt | periscope-rs/src/btor/mod.rs:192 | the step, value and rendering sit between the separators |
| Report.PointLineShows | periscope-rs/src/btor/mod.rs:191-199 | the step and value digits end at their column, right-aligned, and the binary rendering sits inside the parentheses |
| Report.PaddedFieldsAt | periscope-rs/src/btor/mod.rs:191-199 | right-aligned fields end at the field's end |
| Report.StepEndsAt | periscope-rs/src/btor/mod.rs:191-199 | the step digits end where the step field ends |
| Report.ValueEndsAt | periscope-rs/src/btor/mod.rs:191-199 | the value digits end where the value field ends |
| Report.EndOfField | periscope-rs/src/btor/mod.rs:192 | a right-aligned text ends where its field ends |
| Report.ClosingLineColumns | periscope-rs/src/btor/mod.rs:202-207 | the closing line puts `-> `, `: ` and `end` in the columns of the change lines |
| Report.ChangeLinesColumns | periscope-rs/src/btor/mod.rs:182-200 | every change line of a series has the columns of its index |
| Report.SignalAligned | periscope-rs/src/btor/mod.rs:172-207 | all lines of a signal align: the changes and the closing line share the step column |
| Report.PrintFlow | periscope-rs/src/btor/mod.rs:157-209 | nothing is printed exactly when there are no signals; otherwise the first line is the first signal's name line |
| Report.PrintFlowBlock | periscope-rs/src/btor/mod.rs:169-170 | each signal's block starts with its name line at its offset |
| Report.FlowNarrow | periscope-rs/src/btor/mod.rs:211-237 | narrow parts give only narrow series |
| Report.FlowOf | periscope-rs/src/btor/mod.rs:211-237 | the collected flow has a series for every name, each narrow when the parts are |
| Report.SummaryLine | periscope-rs/src/btor/mod.rs:116 | starts with `Satisifed properties in ` and ends with ` steps:` |
| Report.SummaryLineReads | periscope-rs/src/btor/mod.rs:116 | `Satisifed properties in `, the step count in decimal, ` steps:` |
| Report.SummaryLineInjective | periscope-rs/src/btor/mod.rs:116 | different step counts give different summary lines |
| Report.PropsLine | periscope-rs/src/btor/mod.rs:95-117 | the indented list starts with the first prop's description |
| Report.PropsLineEntry | periscope-rs/src/btor/mod.rs:95-117 | entry `i` of the prop line is prop `i`'s description with `with nid: `, after the indent at its offset, preceded by `, ` when it is not the first; the last entry ends the line |
| Report.PropsLineUnnamed | periscope-rs/src/btor/mod.rs:95-117 | without attached names it is the indent and `formatted_string` |
| Report.AnalyzeAndReport | periscope-rs/src/btor/mod.rs:92-121 | the summary, the props, a blank line and `Inputs flow:` come first |
| Report.ReportFlows | periscope-rs/src/btor/mod.rs:92-121 | after them come the input flow, `States flow:` and the state flow, and nothing else |
| Scenarios.OneInTwoBits | periscope-rs/src/btor/assignment.rs:56-61 | 1 in two bits is `01` |
| Scenarios.SixInThreeBits | periscope-rs/src/btor/assignment.rs:38-39 | 6 in three bits is `110` |
| Scenarios.TwoAndThreeInThreeBits | periscope-rs/src/btor/assignment.rs:41-46 | 2 and 3 in three bits are `010` and `011` |
| Scenarios.BinaryStringExamples | periscope-rs/src/btor/assignment.rs:184-195 | the unit test: `110`, and `[010] -> 011` |
| Scenarios.ArrayIndexIsDecimal | periscope-rs/src/btor/assignment.rs:161-178 | `[010] 011` is index TEN, value 3, width 3 |
| Scenarios.InputLineSkipped | periscope-rs/src/btor/btor2.rs:33-39 | `4 input 1` is not a candidate |
| Scenarios.NamedBadLineReads | periscope-rs/src/btor/btor2.rs:41-57 | `5 bad 4 overflow-check` is node 5, bad, named `overflow-check` |
| Scenarios.UnnamedBadLineReads | periscope-rs/src/btor/btor2.rs:41-57 | `7 bad 6` is node 7, bad, without a name |
| Scenarios.ThreeLines | periscope-rs/src/btor/btor2.rs:26-28 | a skipped line, then two readable candidates, gives keys 0 and 1 |
| Scenarios.ModelPropertyNames | periscope-rs/src/btor/btor2.rs:29-59 | the example model's two bad lines give keys 0 and 1 |
| Scenarios.DocExamplePropertyNames | periscope-rs/src/btor/btor2.rs:17-28 | the doc comment's example lines give key 0 to node 43011 (`bad`) and key 1 to node 43012 (`justice`), both named `core-0-illegal-instruction` |
| Scenarios.HeaderSpaceBetweenPropsRefused | periscope-rs/src/btor/witness_format.rs:116-124 | the header `sat\nb0 j1\n` is refused: props follow each other with nothing between them |
| Scenarios.EnrichFirstBad | periscope-rs/src/btor/mod.rs:239-245 | `b0` takes the details of key 0 |
| Scenarios.OneStepAssignmentText | periscope-rs/src/btor/assignment.rs:90-110 | the printed assignment line is `0 01 x` |
| Scenarios.OneStepFramesText | periscope-rs/src/btor/witness_format.rs:185-199 | the printed frame is `@0` and its assignment line |
| Scenarios.OneStepWitnessText | periscope-rs/src/btor/witness_format.rs:214-227 | the printed one-step witness, line by line |
| Scenarios.OneStepWitnessReads | periscope-rs/src/btor/mod.rs:53-76 | that text is accepted as the witness |
| Scenarios.OneStepInputFlow | periscope-rs/src/btor/mod.rs:211-216 | its input flow has signal `x` with one change at step 0, and largest step 1 |
| Scenarios.OneStepStateFlow | periscope-rs/src/btor/mod.rs:223-233 | its state flow is empty |
| Scenarios.OneStepChangeLine | periscope-rs/src/btor/mod.rs:183-199 | the change line reads `@0: 1 (01)` after the indents |
| Scenarios.OneStepClosingLine | periscope-rs/src/btor/mod.rs:202-207 | the closing line reads `-> @1: end` |
| Scenarios.OneStepSignalLines | periscope-rs/src/btor/mod.rs:169-208 | the lines for `x`, line by line |
| Scenarios.SingleSignalPrint | periscope-rs/src/btor/mod.rs:169 | a flow with one signal prints just that signal's lines |
| Scenarios.OneStepInputLines | periscope-rs/src/btor/mod.rs:218-220 | the input section of the one-step witness |
| Scenarios.OneStepReport | periscope-rs/src/btor/mod.rs:92-121 | the whole report of the one-step witness |

## Left out

- Reading the witness and model from `Read` streams (`parse_btor_witness`, and `BufReader::lines` in `get_property_names`): the model takes the text, or the list of lines, directly. A line that fails to read as UTF-8 is not modelled.
- `println!`: the report is modelled as the sequence of lines it would print.
- nom's error payloads: a grammar failure is the single `Malformed` error, whose message is the prefix `Parsing Error: `. nom's description of the failure is not modelled.
- nom's `many1` guard against parsers that consume nothing: every repeated parser here consumes input when it succeeds, so the guard never fires.
- `Debug` for `Assignment` and the `Serialize`/`Deserialize` derives: they are not used by the pipeline.
- Assignments.BitvecAssign: does not model the panic of `u64::from_str_radix` on a run worth 2^64 or more; the value is kept as an unbounded number.
- Assignments.ArrayAssign: does not model the panic of `idx.parse()` (assignment.rs:173) on an index run worth 2^64 or more in decimal, nor the panic of `u64::from_str_radix` (assignment.rs:174) on a value run worth 2^64 or more in binary; both are kept as unbounded numbers.
- Assignments.ToBinaryString: requires a width of at most 64 bits, because the source's `value >> i` overflows for wider assignments.
- Report.PointLine: requires narrow (at most 64-bit) assignments, for the same reason.
- Report.AnalyzeAndReport: requires narrow parts in every frame, for the same reason.
- Btor2.ParseUnsigned: models `usize` as 64 bits wide.

# flowprompt console, modelled in Dafny

flowprompt is a small Node.js line editor: a `Console` object reads raw
keystrokes from a terminal, one decoded code point at a time, and keeps the
line being edited (`inBuffer`) with its cursor (`inPos`), a buffer of pending
escape bytes (`escapeBuffer`), the list of submitted lines (`history`, newest
first) with a navigation index and a draft slot, a Ctrl+C flag, and the
position where the last `log` call left the output cursor (`logPos`). Each
submitted line is emitted as a `line` event.

The project models that object and proves what it does with keystrokes:

- `FlowConsole.Console` (console.dfy) is the object itself. Its fields are
  updated in place, one method per handler of the source. Every method
  leaves the state that the matching function of `ConsoleModel` computes
  from the state before.
- `ConsoleModel` (console_model.dfy) is that state as a value. It has one
  function per handler, `Step` for one keystroke and `Feed` for a whole
  string. The invariant `Valid` holds after every handler. It keeps the
  cursor inside the line, keeps the escape buffer a well-formed prefix of a
  control sequence, and keeps the history equal to the emitted lines in
  reverse order.
- `Params` (params.dfy) is parameter parsing: keep the parameter bytes,
  split on `;`, then read each field as `parseInt(field) || 1`.
- `WordSeek` (word_seek.dfy) is the arrow-key motion, plain or word-wise.
- `ConsoleProperties` (console_properties.dfy) proves properties of whole
  keystroke sequences:
  - typed text is inserted at the cursor;
  - complete control sequences are consumed, and broken ones re-feed the
    byte that broke them;
  - Backspace and forward delete undo an insertion;
  - history recall and its clamping;
  - double Ctrl+C;
  - the log column.
- `CharClass`, `JsSemantics` and `Wrappers` hold the character classes, the
  JavaScript built-ins used (`Math.min`, `Math.max`, `slice`, `reverse`) and
  `Option`.

Control sequences follow section 5.4 of ECMA-48:

- `ESC [`;
- then parameter bytes 0x30-0x3F;
- then intermediate bytes 0x20-0x2F;
- then one final byte 0x40-0x7E.

## Model

| member | source | states |
|---|---|---|
| FlowConsole.Console.constructor | src/index.ts:48-59 | The console starts with an empty line, cursor 0, no history, index -1, no pending escape bytes, Ctrl+C disarmed and the log cursor at `{hadNewline: true, x: 1}`. |
| FlowConsole.Console.CursorColumn | src/index.ts:312 | The column `promptlength + inPos + 1` lies between `promptlength + 1` and `promptlength + len + 1`, and the offset from the prompt is exactly `inPos`. |
| FlowConsole.Console.ProcessString | src/index.ts:81-90 | The loop over the input leaves exactly `Feed(old state, str)` and keeps `Valid`. |
| FlowConsole.Console.ProcessChar | src/index.ts:83-88 | One iteration: the escape handler runs first when bytes are pending, and the character goes to `processNormalChar` only when it was not consumed. |
| FlowConsole.Console.ProcessEscapeSeqChar | src/index.ts:92-145 | The new state and the consumed flag are those of `ConsoleModel.EscapeSeqChar`. |
| FlowConsole.Console.CompleteThenClear | src/index.ts:99-101 | A completed sequence is carried out, then the escape buffer is emptied. |
| FlowConsole.Console.AbandonSequence | src/index.ts:124-126 | A partial sequence is only reported as unknown, and the buffer is emptied. |
| FlowConsole.Console.ProcessCompleteEscapeSeq | src/index.ts:147-232 | The dispatch on the final byte leaves `ConsoleModel.CompleteEscapeSeq(old state, seq)`. |
| FlowConsole.Console.CollectParameterBytes | src/index.ts:153-164 | The loop collects exactly the parameter bytes strictly between `ESC [` and the final byte, in order. |
| FlowConsole.Console.HistoryUpKey | src/index.ts:168-177 | The Up branch leaves `ConsoleModel.HistoryUp`. |
| FlowConsole.Console.HistoryDownKey | src/index.ts:178-184 | The Down branch leaves `ConsoleModel.HistoryDown`. |
| FlowConsole.Console.DeleteForward | src/index.ts:215-219 | `ESC [ 3 ~` leaves `ConsoleModel.DeleteAt`. |
| FlowConsole.Console.ProcessNormalChar | src/index.ts:234-272 | The switch on the character leaves `ConsoleModel.NormalChar`. |
| FlowConsole.Console.Backspace | src/index.ts:252-259 | Backspace leaves `ConsoleModel.DeleteBefore`. |
| FlowConsole.Console.TypeChar | src/index.ts:263-270 | The default branch leaves `ConsoleModel.TypeChar`: echo when the regex matches, then insert. |
| FlowConsole.Console.ProcessSendInput | src/index.ts:274-287 | Submission leaves `ConsoleModel.SendInput`. |
| FlowConsole.Console.Log | src/index.ts:289-308 | `log` records the text and moves the log cursor as `ConsoleModel.Log` says; `newline` defaults to true. |
| ConsoleModel.Init | src/index.ts:48-59 | The initial state satisfies the invariant. |
| ConsoleModel.Log | src/index.ts:299-305 | The text is appended to the log. `hadNewline` becomes `newline`. The column returns to 1 after a newline and otherwise advances by the length of the text. Nothing but the log and its cursor changes. |
| ConsoleModel.InsertChar | src/index.ts:267-268 | The character lands at the old cursor. Characters before it keep their places, those after it shift by one, and the cursor advances by one. |
| ConsoleModel.DeleteBefore | src/index.ts:252-259 | At cursor 0 nothing changes. Otherwise exactly the element before the cursor is removed and the cursor steps back. |
| ConsoleModel.DeleteAt | src/index.ts:216-217 | At the end of the line nothing changes. Otherwise exactly the element under the cursor is removed and the cursor stays. |
| ConsoleModel.HistoryEntry | src/index.ts:174 | `history[index] \|\| []`: the entry at a valid index, the draft at -1, and empty when there is no draft. |
| ConsoleModel.HistoryUp | src/index.ts:168-177 | Leaving the live line saves it as the draft. The index grows by `n` but stops at the oldest entry. The buffer becomes that entry, with the cursor at its end. With no history the line is kept. |
| ConsoleModel.HistoryDown | src/index.ts:178-184 | The index becomes exactly `max(-1, index - n)`. The buffer becomes that entry, or the draft (empty when there is none) at -1, with the cursor at its end. Nothing else changes. |
| ConsoleModel.SendInput | src/index.ts:274-287 | The line is emitted and prepended to the history, empty lines included. The index is -1, the draft is dropped, the buffer is empty, the cursor is 0 and the log cursor is `{true, 1}`. |
| ConsoleModel.SequenceBody | src/index.ts:156 | The bytes from index 2 up to the final byte; empty for a sequence of two bytes or fewer. |
| ConsoleModel.Decode | src/index.ts:147-231 | Anything that does not start `ESC [` is unknown. A recognised sequence ends in A, B, C, D, ~, H or F. Counts are at least 1. Delete needs parameter string exactly `3`. |
| ConsoleModel.DecodeFinal | src/index.ts:167-230 | The switch on the final byte, both ways: the command is Up, Down, Right, Left, Home or End exactly when the final byte is A, B, C, D, H or F. `~` with parameter string `3` is forward delete. The count of A-D is the first parameter, and the modifier of C and D is the second. |
| ConsoleModel.CompleteEscapeSeq | src/index.ts:147-232 | One clause per command: Up is `HistoryUp` and Down is `HistoryDown` by the count, Right and Left move the cursor by `SeekRight` and `SeekLeft`, delete is `DeleteAt`, Home sets the cursor to 0 and End to the length. An unknown sequence is only logged. A recognised one changes neither the log, the history, the escape buffer nor the Ctrl+C flag. |
| ConsoleModel.EscapeSeqChar | src/index.ts:92-145 | A byte is consumed exactly when the buffer is a lone `ESC`, or the byte is final, or it continues the sequence. Continuing bytes and the `[` after `ESC` are appended. A completed sequence is carried out on the state without the buffer. A byte that breaks the sequence is not consumed: the partial sequence is logged and the buffer emptied. |
| ConsoleModel.AbortedSequenceIsUnknown | src/index.ts:118-144 | A partial sequence that is cut short never names a command. |
| ConsoleModel.CsiBodyExtend | src/index.ts:118-141 | A byte keeps the body well formed (parameters, then intermediates) exactly when the source's checks accept it. |
| ConsoleModel.ContinuesCsi | src/index.ts:118-141 | A byte continues a sequence only if it is a parameter or intermediate byte and not final. After an intermediate byte, only intermediate bytes continue it. |
| ConsoleModel.TypeChar | src/index.ts:263-270 | The buffer and cursor are those of `InsertChar`. `^X` is logged exactly when the character is a control character and the regex's `lastIndex` is 0. `lastIndex` becomes 1 after a match and 0 otherwise. The log cursor is left at column 1 after a newline when `^X` is echoed, and unchanged otherwise. |
| ConsoleModel.NormalChar | src/index.ts:234-272 | Afterwards the Ctrl+C flag is set exactly when the character is Ctrl+C. Termination happens exactly on a second consecutive Ctrl+C. Only `ESC` opens an escape buffer. Only `\r` and `\n` emit a line. |
| ConsoleModel.Step | src/index.ts:83-88 | One keystroke keeps the invariant. It terminates exactly on Ctrl+C while armed. Emitted lines are only ever extended. |
| ConsoleModel.Feed | src/index.ts:81-90 | A string keeps the invariant and only extends the emitted lines. A terminated console is left unchanged. |
| ConsoleModel.CompleteEscapeSeqFrame | src/index.ts:99-101 | Carrying out a sequence and then clearing the buffer is the same as clearing it first. |
| ConsoleModel.FeedCons | src/index.ts:82 | Feeding `c + rest` is one step on `c`, then `rest`. |
| ConsoleModel.FeedAt | src/index.ts:81-90 | Feeding the input from index `i` is one step on character `i`, then the input from `i + 1`: one turn of the loop. |
| ConsoleModel.FeedAppend | src/index.ts:81-90 | Feeding `a + b` is feeding `a`, then `b`: all decoder state lives in the fields. |
| ConsoleProperties.TypedStep | src/index.ts:263-270 | A character that reaches the default branch is inserted at the cursor. The cursor grows by one, and the history, the draft and the emitted lines are unchanged. |
| ConsoleProperties.TypingInserts | src/index.ts:263-270 | A string of typed characters is inserted at the cursor, in order, and the cursor moves past it. |
| ConsoleProperties.TypingFromInit | src/index.ts:263-270 | On a fresh console, typed text is the buffer and the cursor is its length. |
| ConsoleProperties.EscStep | src/index.ts:245-247 | `ESC` only opens a sequence (and disarms Ctrl+C). |
| ConsoleProperties.BracketStep | src/index.ts:95-97 | `[` after `ESC` is only accumulated. |
| ConsoleProperties.CsiByteStep | src/index.ts:118-141 | A continuing parameter or intermediate byte is only accumulated. |
| ConsoleProperties.CompletingStep | src/index.ts:94-116 | Any byte after a lone `ESC` other than `[`, and a final byte after `ESC [`, carry out the sequence on the state without the buffer. |
| ConsoleProperties.CsiBodyAccumulates | src/index.ts:118-141 | Every byte of a well-formed body is consumed into the buffer, and nothing else changes. |
| ConsoleProperties.CsiBodyThenFinal | src/index.ts:112-145 | After `ESC [`, a body and a final byte are consumed whole, leaving exactly the carried-out sequence. |
| ConsoleProperties.CsiSequenceConsumed | src/index.ts:81-145 | Every character of `ESC [ body final` is consumed. None reaches the buffer as text, and the result is the sequence carried out. |
| ConsoleProperties.ForeignEscapeConsumed | src/index.ts:94-150 | `ESC` followed by anything but `[` consumes both characters and only logs them as unknown. |
| ConsoleProperties.BrokenSequenceRefeedsByte | src/index.ts:83-145 | A byte that breaks a sequence is not consumed. The partial sequence is logged, the buffer emptied, and the byte handled as a normal character. |
| ConsoleProperties.BrokenSequenceThenTyped | src/index.ts:118-268 | `ESC [` and then a typed character that is not a CSI byte (a non-ASCII character): `ESC [` is logged as unknown, and the character is inserted at the cursor. |
| ConsoleProperties.BackspaceUndoesInsert | src/index.ts:252-268 | Backspace right after an insertion restores the line and the cursor. |
| ConsoleProperties.ForwardDeleteUndoesInsert | src/index.ts:216-268 | Forward delete at the old cursor after an insertion restores the line. |
| ConsoleProperties.PlainTypeChar | src/index.ts:263-268 | A non-control character is inserted without an echo, and the regex's `lastIndex` is reset. |
| ConsoleProperties.BackspaceStep | src/index.ts:235-259 | DEL and Ctrl+H (`\x08`) outside a sequence both disarm Ctrl+C and delete before the cursor. |
| ConsoleProperties.TabStep | src/index.ts:260-262 | Tab outside a sequence only disarms Ctrl+C. The line, the cursor and everything else are unchanged. |
| ConsoleProperties.TypeThenBackspace | src/index.ts:234-270 | Typing a printable character and then Backspace restores the console, apart from disarming Ctrl+C and resetting the regex. |
| ConsoleProperties.UpThenDownRestoresLiveLine | src/index.ts:168-184 | From the live line, `n` up and `n` down return to index -1 with the original line and the cursor at its end. |
| ConsoleProperties.SubmittedLineRecalledFirst | src/index.ts:168-277 | Up right after a submission recalls the submitted line. Down then gives the empty line: the index was -1 after the submission, so Up saved the empty live line into the draft slot. |
| ConsoleProperties.UpRecallsNthLatest | src/index.ts:173-174 | Up by `n` from the live line recalls the `n`-th latest emitted line, or the oldest one. |
| ConsoleProperties.PlainArrowsDecode | src/index.ts:168-214 | `ESC [ A` through `ESC [ D` carry count 1 and no modifier. |
| ConsoleProperties.ShortSequenceConsumed | src/index.ts:81-116 | `ESC [ final` is consumed and carried out. |
| ConsoleProperties.UpKeyEffect | src/index.ts:168-177 | `ESC [ A` moves one entry older. |
| ConsoleProperties.DownKeyEffect | src/index.ts:178-184 | `ESC [ B` moves one entry newer. |
| ConsoleProperties.LeftKeyEffect | src/index.ts:200-214 | `ESC [ D` moves the cursor to `max(0, inPos - 1)` and changes nothing else. |
| ConsoleProperties.RightKeyEffect | src/index.ts:185-199 | `ESC [ C` moves the cursor to `min(len, inPos + 1)` and changes nothing else. |
| ConsoleProperties.UpKey | src/index.ts:168-177 | The keystrokes of Up disarm Ctrl+C and recall one entry older. |
| ConsoleProperties.DownKey | src/index.ts:178-184 | The keystrokes of Down disarm Ctrl+C and go one entry newer. |
| ConsoleProperties.LeftKey | src/index.ts:200-214 | The keystrokes of Left move the cursor one place back, clamped at 0. |
| ConsoleProperties.RightKey | src/index.ts:185-199 | The keystrokes of Right move the cursor one place on, clamped at the end. |
| ConsoleProperties.EnterSubmits | src/index.ts:248-251 | `\r` and `\n` outside a sequence both disarm Ctrl+C and submit the line. |
| ConsoleProperties.TypeAndSubmit | src/index.ts:263-287 | Typing a line on an empty prompt and pressing Enter emits exactly that line and prepends it to the history. |
| ConsoleProperties.HelloScenario | src/index.ts:263-287 | Type `hello`, then Enter: one `line` event with `hello`, an empty buffer and cursor 0. |
| ConsoleProperties.HistoryScenario | src/index.ts:168-287 | After submitting `first` and then `second`, Up gives `second`, Up gives `first`, Up stays at `first`, Down gives `second`, and Down gives the empty draft. |
| ConsoleProperties.SubmitTwo | src/index.ts:274-287 | Two submissions leave both lines in the history, the latest first. |
| ConsoleProperties.RecallTwo | src/index.ts:168-184 | Three Ups and two Downs over a history of two entries. |
| ConsoleProperties.EditBeforeScenario | src/index.ts:200-270 | Type `ab`, press Left twice, type `X`: the buffer is `Xab` and the cursor 1. |
| ConsoleProperties.LeftTwice | src/index.ts:200-214 | Two Lefts move the cursor back two places and leave the line alone. |
| ConsoleProperties.CtrlCStep | src/index.ts:235-244 | Ctrl+C while armed terminates. Otherwise it logs `^C` and arms the flag. |
| ConsoleProperties.DoubleCtrlCTerminates | src/index.ts:235-244 | Two Ctrl+C presses in a row terminate. |
| ConsoleProperties.FirstCtrlCEchoes | src/index.ts:242-243 | The first Ctrl+C only echoes `^C` and arms the flag. |
| ConsoleProperties.RunsWithoutDoubleCtrlC | src/index.ts:235-244 | Input with no two consecutive Ctrl+C presses never terminates, unless it starts with Ctrl+C while the flag is armed. |
| ConsoleProperties.InterruptedCtrlCKeepsRunning | src/index.ts:235 | Any other character between two Ctrl+C presses disarms the flag. |
| ConsoleProperties.ConsecutiveControlCharsEchoOnce | src/index.ts:264-268 | Because of the global regex's `lastIndex`, of two control characters typed in a row only the first is echoed. Both are inserted. |
| ConsoleProperties.LogColumnAccumulates | src/index.ts:299-305 | Successive `log(text, false)` calls advance the column by the total length of the texts and append every text. |
| ConsoleProperties.DeleteKeySequences | src/index.ts:215-231 | `ESC [ 3 ~` is forward delete. `ESC [ 3 ; 5 ~` is only reported as unknown. |
| ConsoleProperties.CtrlRightSequence | src/index.ts:186-187 | `ESC [ 1 ; 5 C` is a word motion to the right by 1. |
| ConsoleProperties.WordMotionExample | src/index.ts:185-214 | Word motions on `foo bar`: Ctrl+Left from the end lands at 4, and Ctrl+Right from the start stops at the space, 3. |
| ConsoleProperties.CountedArrowDecodes | src/index.ts:168-212 | For every count `n >= 1`, `ESC [ n A` to `ESC [ n D` decode to Up, Down, Right and Left by `n` with no modifier. |
| ConsoleProperties.ModifiedArrowDecodes | src/index.ts:185-212 | For every `n, m >= 1`, `ESC [ n ; m C` and `ESC [ n ; m D` decode to Right and Left by `n` with modifier `m`. |
| ConsoleProperties.HomeEndDecode | src/index.ts:221-228 | `ESC [ H` is Home and `ESC [ F` is End. |
| ConsoleProperties.DeleteWithIntermediate | src/index.ts:156-163 | Intermediate bytes are dropped before the parameter string is formed, so `ESC [ 3 $ ~` is still forward delete. |
| ConsoleProperties.FramedBody | src/index.ts:153-164 | `ESC [ body final` decodes by the final byte and the parameter bytes of `body`. |
| ConsoleProperties.CountedKeyConsumed | src/index.ts:81-145 | `ESC [ n final` typed outside a sequence is consumed whole and carried out on the state with Ctrl+C disarmed. |
| ConsoleProperties.CountedUpKey | src/index.ts:168-177 | For every count `n`, the keystrokes `ESC [ n A` are `HistoryUp` by `n`. |
| ConsoleProperties.CountedDownKey | src/index.ts:178-184 | For every count `n`, the keystrokes `ESC [ n B` are `HistoryDown` by `n`: the index becomes `max(-1, index - n)`. |
| ConsoleProperties.CountedRightKey | src/index.ts:185-199 | For every count `n`, the keystrokes `ESC [ n C` move the cursor to `min(len, inPos + n)` and change nothing else. |
| ConsoleProperties.CountedLeftKey | src/index.ts:200-214 | For every count `n`, the keystrokes `ESC [ n D` move the cursor to `max(0, inPos - n)` and change nothing else. |
| ConsoleProperties.ArrowEffect | src/index.ts:168-214 | An arrow command with count `n` and no modifier is `HistoryUp`, `HistoryDown`, or a cursor clamped at the end or at 0. |
| Params.ParameterBytes | src/index.ts:156-163 | Only parameter bytes are kept, in order. A body made of parameter bytes is kept whole; one with none gives the empty string. |
| Params.ParameterBytesAppend | src/index.ts:156-163 | Filtering a concatenation is concatenating the filtered parts, so each byte is kept or dropped on its own. |
| Params.SplitFields | src/index.ts:169 | `split(';')` yields at least one field, and no field holds `;`. |
| Params.SplitThenJoin | src/index.ts:169 | Joining the split fields gives the string back. |
| Params.JoinThenSplit | src/index.ts:169 | Splitting joined `;`-free fields gives the fields back. |
| Params.LeadingDigits | src/index.ts:169 | `parseInt` reads the longest prefix of digits. |
| Params.DecimalRoundTrip | src/index.ts:169 | The numeral of `n` reads back as `n`. |
| Params.Count | src/index.ts:169 | `parseInt(x) \|\| 1` is the value of the leading digits when that is at least 1, and 1 otherwise. |
| Params.CountOfNumeral | src/index.ts:169 | A field that is the numeral of `n >= 1`, followed by a non-digit, reads as `n`. |
| Params.Parameters | src/index.ts:169 | One count per `;`-separated field: entry `i` is the count of field `i`, and each is at least 1. |
| Params.Modifier | src/index.ts:187 | The second parameter exists exactly when there are two fields or more. |
| Params.ParametersOfPair | src/index.ts:169 | `n;m` reads as exactly `[n, m]`. |
| Params.ParametersOfEmpty | src/index.ts:169 | An empty parameter string reads as `[1]`. |
| Params.ZeroOrMissingCountsOne | src/index.ts:169 | A field without leading digits, or whose leading digits are all `0`, counts as 1. |
| Params.ZerosValue | src/index.ts:169 | A numeral made only of `0` denotes 0. |
| Params.ParametersOfSingle | src/index.ts:169 | The numeral of `n >= 1` alone reads as exactly `[n]`. |
| WordSeek.FindBoundary | src/index.ts:190 | `findIndex` gives the first boundary, or -1 when there is none before the end. |
| WordSeek.IsBoundary | src/index.ts:190 | With a modifier other than 6 a boundary is exactly a character outside `[A-Za-z0-9_]`; with modifier 6 it is exactly a white-space character. |
| WordSeek.WhitespaceIsWordBoundary | src/index.ts:190 | A white-space character is a boundary for modifier 5 too. |
| WordSeek.IsWordMotion | src/index.ts:187 | An arrow key is a word motion exactly when its modifier is 5 or 6. |
| WordSeek.SeekRight | src/index.ts:185-197 | The result never passes the end. A plain motion gives `min(len, pos + n)`. A word motion lands on the first boundary at or after `pos + n`, or at the end. |
| WordSeek.SeekLeft | src/index.ts:200-212 | The result never passes the old cursor or 0. A plain motion gives `max(0, pos - n)`. A word motion lands just after the last boundary before `pos - n`, or at 0. |
| WordSeek.BackwardScan | src/index.ts:205-210 | Searching the reversed slice before the target, index `w` is the character `w` places before the target. |
| JsSemantics.SliceTo | src/index.ts:205 | `slice(0, end)` with a negative end counts back from the end of the buffer. |
| JsSemantics.Reversed | src/index.ts:205 | `reverse` puts the last element first. |
| JsSemantics.SliceFrom | src/index.ts:190 | `slice(start)` is the suffix from `start`, or empty when `start` is past the end. |
| JsSemantics.Min | src/index.ts:197 | `Math.min` is one of its arguments and no greater than either. |
| JsSemantics.Max | src/index.ts:212 | `Math.max` is one of its arguments and no less than either. |
| CharClass.CaretNotation | src/index.ts:265 | The echo of a control character is `^` followed by the character 0x40 above it; for a C0 control that is between `@` and `_`. |

## Left out

- Stream plumbing is not modelled: raw mode, the `data` handler, `pause` and `resume` (src/index.ts:64-79), and the `StringDecoder` (src/index.ts:58, 74). Input is a string of already-decoded code points.
- Terminal output is not modelled: the bytes of `redisplay`, `repositionCursor` and `log` (src/index.ts:290-298, 310-324). Only the cursor column and the `logPos` bookkeeping are.
- The prompt width `promptlength` (src/index.ts:46) is a constructor parameter, because it is computed with regular expressions over the prompt.
- `process.exit(0)` (src/index.ts:239) sets a `terminated` flag, and `Feed` stops there. `emit('line')` (src/index.ts:285) appends to a ghost sequence `lines`, and `log` appends its text to a ghost sequence `logs`.
- The regular-expression classes are modelled as predicates: `\p{General_Category=Control}`, `\w` and `\s` become `CharClass.IsControl`, `IsWordChar` and `IsWhitespace`.
- The control-character regex is module-level state shared by every console. Here its `lastIndex` is a field of each console.
- UTF-16 lengths are not modelled: one character is one code point and `length` is sequence length. A lone surrogate cannot be represented.
- Params.Count: `parseInt` on a digit string above 2^53 loses precision in the source. The model reads the exact integer.
- FlowConsole.Console.ProcessEscapeSeqChar: the branch at src/index.ts:105-109 is left out. It cannot run, because the escape buffer always starts with `ESC`, and `Valid` states this.
- Aliasing is not modelled. The draft slot `history[-1]` holds the very array that was the live line, and the history holds copies. The model uses values, which behave the same because the old array is never modified afterwards.
- The constructor's streams, `prompt`, `afterInput` and `encoding` are not modelled (src/index.ts:26-44), since they only feed I/O. The repository's usage demos are also not modelled: they only wire the console to timers and streams.

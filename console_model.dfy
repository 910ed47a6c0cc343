/**
 * The console as a state machine over keystrokes. `State` holds exactly the
 * fields of the console object: the line being edited and its cursor, the
 * pending escape bytes, the history with its navigation index and draft slot,
 * the Ctrl+C flag, the log cursor, and the lines and diagnostics emitted so
 * far. One function per handler gives the state after that handler runs;
 * `Feed` gives the state after a whole decoded input string.
 */
module ConsoleModel {
  import opened Wrappers
  import opened CharClass
  import opened JsSemantics
  import Params
  import WordSeek

  const UnknownPrefix: string := "Unknown escape sequence: "

  /** Where the last log write left the output cursor. */
  datatype LogPos = LogPos(hadNewline: bool, x: int)

  datatype State = State(
    inBuffer: string,
    inPos: int,
    escapeBuffer: string,
    history: seq<string>,        // newest first
    historyIndex: int,           // -1 is the live line
    draft: Option<string>,       // the slot `history[-1]`
    pressedControlC: bool,
    controlRegexLastIndex: nat,  // `lastIndex` of the global control-character regex
    logPos: LogPos,
    terminated: bool,            // `process.exit(0)` was called
    lines: seq<string>,          // every 'line' event, oldest first
    logs: seq<string>)           // every text passed to `log`, oldest first

  /** What a complete escape sequence asks for. */
  datatype Command =
    | HistoryOlder(count: nat)                          // ESC [ n A
    | HistoryNewer(count: nat)                          // ESC [ n B
    | CursorRight(count: nat, modifier: Option<nat>)    // ESC [ n ; m C
    | CursorLeft(count: nat, modifier: Option<nat>)     // ESC [ n ; m D
    | DeleteForward                                     // ESC [ 3 ~
    | Home                                              // ESC [ H
    | End                                               // ESC [ F
    | Unknown

  /**
   * The bytes after `ESC [` of a sequence still being accumulated: parameter
   * or intermediate bytes, and no parameter byte after an intermediate one.
   */
  predicate IsCsiBody(body: string) {
    && (forall i :: 0 <= i < |body| ==> IsParameterByte(body[i]) || IsIntermediateByte(body[i]))
    && (forall i, j :: 0 <= i < j < |body| && IsIntermediateByte(body[i]) ==> IsIntermediateByte(body[j]))
  }

  /** The escape buffer is idle, holds a lone `ESC`, or holds `ESC [` and a partial body. */
  predicate EscapeWellFormed(eb: string) {
    || eb == []
    || eb == [Esc]
    || (|eb| >= 2 && eb[0] == Esc && eb[1] == '[' && IsCsiBody(eb[2..]))
  }

  predicate Valid(s: State) {
    && 0 <= s.inPos <= |s.inBuffer|
    && EscapeWellFormed(s.escapeBuffer)
    && (s.escapeBuffer != [] ==> !s.pressedControlC)
    && -1 <= s.historyIndex < |s.history|
    && (s.historyIndex >= 0 ==> s.draft.Some?)
    && s.history == Reversed(s.lines)
    && s.controlRegexLastIndex <= 1
    && 1 <= s.logPos.x
    && (s.logPos.hadNewline ==> s.logPos.x == 1)
  }

  /** The state the constructor leaves. */
  function Init(): (s: State)
    ensures Valid(s)
  {
    State([], 0, [], [], -1, None, false, 0, LogPos(true, 1), false, [], [])
  }

  /** `log(text, newline)`: the diagnostic is recorded and the log cursor moves. */
  function Log(s: State, text: string, newline: bool): (r: State)
    requires Valid(s)
    ensures Valid(r)
    ensures r.logs == s.logs + [text]
    ensures r.logPos.hadNewline == newline
    ensures r.logPos.x == (if newline then 1 else s.logPos.x + |text|)
    ensures r == s.(logs := r.logs, logPos := r.logPos)
  {
    s.(logs := s.logs + [text],
       logPos := LogPos(newline, if newline then 1 else s.logPos.x + |text|))
  }

  /** `inBuffer.splice(inPos, 0, c); inPos++` */
  function InsertChar(s: State, c: char): (r: State)
    requires Valid(s)
    ensures Valid(r)
    ensures r.inPos == s.inPos + 1 && |r.inBuffer| == |s.inBuffer| + 1
    ensures r.inBuffer[s.inPos] == c
    ensures forall i :: 0 <= i < s.inPos ==> r.inBuffer[i] == s.inBuffer[i]
    ensures forall i :: s.inPos <= i < |s.inBuffer| ==> r.inBuffer[i + 1] == s.inBuffer[i]
    ensures r == s.(inBuffer := r.inBuffer, inPos := r.inPos)
  {
    s.(inBuffer := s.inBuffer[..s.inPos] + [c] + s.inBuffer[s.inPos..], inPos := s.inPos + 1)
  }

  /** Backspace: `if (inPos > 0) { inBuffer.splice(inPos - 1, 1); inPos-- }` */
  function DeleteBefore(s: State): (r: State)
    requires Valid(s)
    ensures Valid(r)
    ensures s.inPos == 0 ==> r == s
    ensures s.inPos > 0 ==>
      && r.inPos == s.inPos - 1
      && |r.inBuffer| == |s.inBuffer| - 1
      && (forall i :: 0 <= i < r.inPos ==> r.inBuffer[i] == s.inBuffer[i])
      && (forall i :: r.inPos <= i < |r.inBuffer| ==> r.inBuffer[i] == s.inBuffer[i + 1])
    ensures r == s.(inBuffer := r.inBuffer, inPos := r.inPos)
  {
    if s.inPos > 0 then
      s.(inBuffer := s.inBuffer[..s.inPos - 1] + s.inBuffer[s.inPos..], inPos := s.inPos - 1)
    else s
  }

  /** Forward delete: `inBuffer.splice(inPos, 1)`, the cursor stays. */
  function DeleteAt(s: State): (r: State)
    requires Valid(s)
    ensures Valid(r)
    ensures s.inPos == |s.inBuffer| ==> r == s
    ensures s.inPos < |s.inBuffer| ==>
      && |r.inBuffer| == |s.inBuffer| - 1
      && (forall i :: 0 <= i < s.inPos ==> r.inBuffer[i] == s.inBuffer[i])
      && (forall i :: s.inPos <= i < |r.inBuffer| ==> r.inBuffer[i] == s.inBuffer[i + 1])
    ensures r == s.(inBuffer := r.inBuffer)
  {
    if s.inPos < |s.inBuffer| then s.(inBuffer := s.inBuffer[..s.inPos] + s.inBuffer[s.inPos + 1..])
    else s
  }

  /** `history[index] || []`, where index -1 reads the draft slot. */
  function HistoryEntry(history: seq<string>, draft: Option<string>, index: int): (e: string)
    ensures 0 <= index < |history| ==> e == history[index]
    ensures index == -1 && draft.Some? ==> e == draft.value
    ensures index == -1 && draft.None? ==> e == []
  {
    if 0 <= index < |history| then history[index]
    else if index == -1 && draft.Some? then draft.value
    else []
  }

  /**
   * Up arrow: leaving the live line saves it as the draft; the index moves `n`
   * entries towards older ones, stopping at the oldest; the buffer becomes a
   * copy of the entry with the cursor at its end.
   */
  function HistoryUp(s: State, n: nat): (r: State)
    requires Valid(s) && n >= 1
    ensures Valid(r)
    ensures r.draft == if s.historyIndex == -1 then Some(s.inBuffer) else s.draft
    ensures s.historyIndex <= r.historyIndex <= s.historyIndex + n
    ensures r.historyIndex == s.historyIndex + n || r.historyIndex == |s.history| - 1
    ensures |s.history| == 0 ==> r.inBuffer == s.inBuffer
    ensures |s.history| > 0 ==> 0 <= r.historyIndex < |s.history| && r.inBuffer == s.history[r.historyIndex]
    ensures r.inPos == |r.inBuffer|
    ensures r == s.(inBuffer := r.inBuffer, inPos := r.inPos, historyIndex := r.historyIndex, draft := r.draft)
  {
    var draft := if s.historyIndex == -1 then Some(s.inBuffer) else s.draft;
    var index := Min(|s.history| - 1, s.historyIndex + n);
    var entry := HistoryEntry(s.history, draft, index);
    s.(draft := draft, historyIndex := index, inBuffer := entry, inPos := |entry|)
  }

  /**
   * Down arrow: the index moves `n` entries towards newer ones, stopping at the
   * live line -1, where the buffer becomes the draft (empty when there is none).
   */
  function HistoryDown(s: State, n: nat): (r: State)
    requires Valid(s) && n >= 1
    ensures Valid(r)
    ensures r.historyIndex == Max(-1, s.historyIndex - n)
    ensures r.historyIndex >= 0 ==> r.inBuffer == s.history[r.historyIndex]
    ensures r.historyIndex == -1 ==> r.inBuffer == (if s.draft.Some? then s.draft.value else [])
    ensures r.inPos == |r.inBuffer|
    ensures r == s.(inBuffer := r.inBuffer, inPos := r.inPos, historyIndex := r.historyIndex)
  {
    var index := Max(-1, s.historyIndex - n);
    var entry := HistoryEntry(s.history, s.draft, index);
    s.(historyIndex := index, inBuffer := entry, inPos := |entry|)
  }

  /** Enter: the line is emitted and recorded as the newest entry, and editing restarts on an empty line. */
  function SendInput(s: State): (r: State)
    requires Valid(s)
    ensures Valid(r)
    ensures r.lines == s.lines + [s.inBuffer]
    ensures r.history == [s.inBuffer] + s.history
    ensures r.historyIndex == -1 && r.draft == None
    ensures r.inBuffer == [] && r.inPos == 0
    ensures r.logPos == LogPos(true, 1)
    ensures r == s.(lines := r.lines, history := r.history, historyIndex := -1, draft := None,
                    inBuffer := [], inPos := 0, logPos := r.logPos)
  {
    var line := s.inBuffer;
    assert (s.lines + [line])[..|s.lines|] == s.lines;
    s.(history := [line] + s.history, historyIndex := -1, draft := None,
       inBuffer := [], inPos := 0, logPos := LogPos(true, 1), lines := s.lines + [line])
  }

  /** The bytes strictly between `ESC [` and the last byte of `sq`. */
  function SequenceBody(sq: string): (b: string)
    ensures |sq| > 2 ==> b == sq[2..|sq| - 1]
    ensures |sq| <= 2 ==> b == []
  {
    if |sq| > 2 then sq[2..|sq| - 1] else []
  }

  /** The command a complete escape sequence stands for. */
  function Decode(sq: string): (cmd: Command)
    ensures cmd != Unknown ==>
      && |sq| >= 3 && sq[0] == Esc && sq[1] == '['
      && sq[|sq| - 1] in ['A', 'B', 'C', 'D', '~', 'H', 'F']
    ensures cmd.HistoryOlder? || cmd.HistoryNewer? || cmd.CursorRight? || cmd.CursorLeft? ==> cmd.count >= 1
    ensures cmd.DeleteForward? ==> Params.ParameterBytes(SequenceBody(sq)) == ['3']
  {
    if |sq| < 2 || sq[0] != Esc || sq[1] != '[' then Unknown
    else DecodeFinal(sq[|sq| - 1], Params.ParameterBytes(SequenceBody(sq)))
  }

  /** The `switch` on the final byte of an `ESC [` sequence with parameter string `paramStr`. */
  function DecodeFinal(final: char, paramStr: string): (cmd: Command)
    ensures cmd != Unknown ==> final in ['A', 'B', 'C', 'D', '~', 'H', 'F']
    ensures cmd.HistoryOlder? || cmd.HistoryNewer? || cmd.CursorRight? || cmd.CursorLeft? ==> cmd.count >= 1
    ensures cmd.DeleteForward? ==> final == '~' && paramStr == ['3']
    ensures cmd.HistoryOlder? <==> final == 'A'
    ensures cmd.HistoryNewer? <==> final == 'B'
    ensures cmd.CursorRight? <==> final == 'C'
    ensures cmd.CursorLeft? <==> final == 'D'
    ensures cmd == Home <==> final == 'H'
    ensures cmd == End <==> final == 'F'
    ensures final == '~' && paramStr == ['3'] ==> cmd == DeleteForward
    ensures cmd.HistoryOlder? || cmd.HistoryNewer? || cmd.CursorRight? || cmd.CursorLeft? ==>
      cmd.count == Params.Parameters(paramStr)[0]
    ensures cmd.CursorRight? || cmd.CursorLeft? ==> cmd.modifier == Params.Modifier(Params.Parameters(paramStr))
  {
    var ps := Params.Parameters(paramStr);
    match final
    case 'A' => HistoryOlder(ps[0])
    case 'B' => HistoryNewer(ps[0])
    case 'C' => CursorRight(ps[0], Params.Modifier(ps))
    case 'D' => CursorLeft(ps[0], Params.Modifier(ps))
    case '~' => if paramStr == ['3'] then DeleteForward else Unknown
    case 'H' => Home
    case 'F' => End
    case _ => Unknown
  }

  /** A complete sequence is carried out; an unrecognised one is only reported. */
  function CompleteEscapeSeq(s: State, sq: string): (r: State)
    requires Valid(s)
    ensures Valid(r)
    ensures Decode(sq) == Unknown ==> r == Log(s, UnknownPrefix + sq, true)
    ensures Decode(sq) != Unknown ==> r.logs == s.logs && r.logPos == s.logPos
    ensures r.escapeBuffer == s.escapeBuffer && r.lines == s.lines && r.history == s.history
    ensures r.pressedControlC == s.pressedControlC && r.terminated == s.terminated
    ensures r.controlRegexLastIndex == s.controlRegexLastIndex
    ensures Decode(sq).HistoryOlder? ==> r == HistoryUp(s, Decode(sq).count)
    ensures Decode(sq).HistoryNewer? ==> r == HistoryDown(s, Decode(sq).count)
    ensures Decode(sq).CursorRight? ==>
      r == s.(inPos := WordSeek.SeekRight(s.inBuffer, s.inPos, Decode(sq).count, Decode(sq).modifier))
    ensures Decode(sq).CursorLeft? ==>
      r == s.(inPos := WordSeek.SeekLeft(s.inBuffer, s.inPos, Decode(sq).count, Decode(sq).modifier))
    ensures Decode(sq) == DeleteForward ==> r == DeleteAt(s)
    ensures Decode(sq) == Home ==> r == s.(inPos := 0)
    ensures Decode(sq) == End ==> r == s.(inPos := |s.inBuffer|)
  {
    match Decode(sq)
    case HistoryOlder(n) => HistoryUp(s, n)
    case HistoryNewer(n) => HistoryDown(s, n)
    case CursorRight(n, m) => s.(inPos := WordSeek.SeekRight(s.inBuffer, s.inPos, n, m))
    case CursorLeft(n, m) => s.(inPos := WordSeek.SeekLeft(s.inBuffer, s.inPos, n, m))
    case DeleteForward => DeleteAt(s)
    case Home => s.(inPos := 0)
    case End => s.(inPos := |s.inBuffer|)
    case Unknown => Log(s, UnknownPrefix + sq, true)
  }

  /** Whether `c` extends the partial control sequence `eb` (never a final byte). */
  predicate ContinuesCsi(eb: string, c: char): (r: bool)
    ensures r ==> !IsFinalByte(c) && (IsParameterByte(c) || IsIntermediateByte(c))
    ensures |eb| > 2 && IsIntermediateByte(eb[|eb| - 1]) ==> (r <==> IsIntermediateByte(c))
  {
    && |eb| >= 2
    && if |eb| == 2 then IsParameterByte(c) || IsIntermediateByte(c)
       else
         || (IsParameterByte(eb[|eb| - 1]) && (IsParameterByte(c) || IsIntermediateByte(c)))
         || (IsIntermediateByte(eb[|eb| - 1]) && IsIntermediateByte(c))
  }

  /**
   * One character while an escape sequence is pending; the flag says whether
   * it was consumed. A completed sequence is carried out with the buffer
   * already emptied, which `CompleteEscapeSeqFrame` shows is the same as
   * emptying it afterwards. A character that breaks a control sequence is not
   * consumed: the partial sequence, which never names a command
   * (`AbortedSequenceIsUnknown`), is reported and the buffer emptied.
   */
  function EscapeSeqChar(s: State, c: char): (r: (State, bool))
    requires Valid(s) && s.escapeBuffer != []
    ensures Valid(r.0)
    ensures r.1 <==> s.escapeBuffer == [Esc] || IsFinalByte(c) || ContinuesCsi(s.escapeBuffer, c)
    ensures r.0.escapeBuffer ==
      if (s.escapeBuffer == [Esc] && c == '[') || ContinuesCsi(s.escapeBuffer, c)
      then s.escapeBuffer + [c] else []
    ensures r.1 && r.0.escapeBuffer == [] ==>
      r.0 == CompleteEscapeSeq(s.(escapeBuffer := []), s.escapeBuffer + [c])
    ensures !r.1 ==> r.0 == Log(s.(escapeBuffer := []), UnknownPrefix + s.escapeBuffer, true)
    ensures r.0.pressedControlC == s.pressedControlC && r.0.terminated == s.terminated
    ensures r.0.lines == s.lines
  {
    var eb := s.escapeBuffer;
    if eb == [Esc] && c == '[' then (s.(escapeBuffer := eb + [c]), true)
    else if ContinuesCsi(eb, c) then
      CsiBodyExtend(eb, c);
      (s.(escapeBuffer := eb + [c]), true)
    else if eb == [Esc] || IsFinalByte(c) then
      (CompleteEscapeSeq(s.(escapeBuffer := []), eb + [c]), true)
    else
      (Log(s.(escapeBuffer := []), UnknownPrefix + eb, true), false)
  }

  /** A partial sequence cut short ends in `[` or a parameter or intermediate byte, so it names no command. */
  lemma AbortedSequenceIsUnknown(eb: string)
    requires EscapeWellFormed(eb) && |eb| >= 2
    ensures Decode(eb) == Unknown
  {
    var last := eb[|eb| - 1];
    if |eb| > 2 {
      var body := eb[2..];
      assert body[|body| - 1] == last;
      assert IsParameterByte(last) || IsIntermediateByte(last);
    }
  }

  /** A byte extends a well-formed partial sequence exactly when it continues it. */
  lemma CsiBodyExtend(eb: string, c: char)
    requires |eb| >= 2
    ensures IsCsiBody((eb + [c])[2..]) <==> IsCsiBody(eb[2..]) && ContinuesCsi(eb, c)
  {
    var b := (eb + [c])[2..];
    assert b[..|b| - 1] == eb[2..];
    assert b[|b| - 1] == c;
    if |eb| > 2 {
      assert eb[2..][|eb| - 3] == eb[|eb| - 1];
    }
  }

  /** A character that reaches the `default` branch and is inserted. */
  predicate IsTyped(c: char) {
    c != CtrlC && c != Esc && c != '\r' && c != '\n' && c != Del && c != CtrlH && c != '\t'
  }

  /**
   * The `default` branch: a control character is echoed as `^X` when the
   * global regex matches it (its `lastIndex` is 0), and the character is inserted.
   */
  function TypeChar(s: State, c: char): (r: State)
    requires Valid(s)
    ensures Valid(r)
    ensures r.inBuffer == InsertChar(s, c).inBuffer && r.inPos == s.inPos + 1
    ensures r.logs == s.logs + (if IsControl(c) && s.controlRegexLastIndex == 0 then [CaretNotation(c)] else [])
    ensures r.controlRegexLastIndex == (if IsControl(c) && s.controlRegexLastIndex == 0 then 1 else 0)
    ensures r.logPos == (if IsControl(c) && s.controlRegexLastIndex == 0 then LogPos(true, 1) else s.logPos)
    ensures r == s.(inBuffer := r.inBuffer, inPos := r.inPos, controlRegexLastIndex := r.controlRegexLastIndex,
                    logs := r.logs, logPos := r.logPos)
  {
    var matched := IsControl(c) && s.controlRegexLastIndex == 0;
    var echoed := if matched then Log(s, CaretNotation(c), true) else s;
    InsertChar(echoed.(controlRegexLastIndex := if matched then 1 else 0), c)
  }

  /** A character handled outside an escape sequence. */
  function NormalChar(s: State, c: char): (r: State)
    requires Valid(s) && s.escapeBuffer == []
    ensures Valid(r)
    ensures r.pressedControlC <==> c == CtrlC
    ensures r.terminated <==> s.terminated || (c == CtrlC && s.pressedControlC)
    ensures r.escapeBuffer == if c == Esc then [Esc] else []
    ensures c != '\r' && c != '\n' ==> r.lines == s.lines
  {
    var s := if c != CtrlC then s.(pressedControlC := false) else s;
    if c == CtrlC then
      if s.pressedControlC then s.(terminated := true)
      else Log(s.(pressedControlC := true), "^C", true)
    else if c == Esc then s.(escapeBuffer := [Esc])
    else if c == '\r' || c == '\n' then SendInput(s)
    else if c == Del || c == CtrlH then DeleteBefore(s)
    else if c == '\t' then s
    else TypeChar(s, c)
  }

  /** One iteration of the `processString` loop. */
  function Step(s: State, c: char): (r: State)
    requires Valid(s)
    ensures Valid(r)
    ensures r.terminated <==> s.terminated || (c == CtrlC && s.pressedControlC)
    ensures r.pressedControlC ==> c == CtrlC
    ensures s.lines <= r.lines
  {
    var (next, consumed) := if s.escapeBuffer != [] then EscapeSeqChar(s, c) else (s, false);
    if consumed then next else NormalChar(next, c)
  }

  /** `processString(str)`: every character in turn, until the process exits. */
  function Feed(s: State, str: string): (r: State)
    requires Valid(s)
    ensures Valid(r)
    ensures s.lines <= r.lines
    ensures s.terminated ==> r == s
    decreases |str|
  {
    if str == [] || s.terminated then s else Feed(Step(s, str[0]), str[1..])
  }

  /** Carrying out a complete sequence neither reads nor writes the escape buffer. */
  lemma CompleteEscapeSeqFrame(s: State, sq: string)
    requires Valid(s) && s.escapeBuffer != []
    ensures CompleteEscapeSeq(s, sq).(escapeBuffer := []) == CompleteEscapeSeq(s.(escapeBuffer := []), sq)
  {
  }

  lemma FeedOne(s: State, c: char)
    requires Valid(s) && !s.terminated
    ensures Feed(s, [c]) == Step(s, c)
  {
    assert [c][1..] == [];
  }

  /** Feeding a character and then the rest. */
  lemma FeedCons(s: State, c: char, rest: string)
    requires Valid(s) && !s.terminated
    ensures Feed(s, [c] + rest) == Feed(Step(s, c), rest)
  {
    assert ([c] + rest)[1..] == rest;
  }

  /** Feeding `str` from index `i` on is one step on `str[i]`, then the rest. */
  lemma FeedAt(s: State, str: string, i: nat)
    requires Valid(s) && !s.terminated && i < |str|
    ensures Feed(s, str[i..]) == Feed(Step(s, str[i]), str[i + 1..])
  {
    assert str[i..] == [str[i]] + str[i + 1..];
    FeedCons(s, str[i], str[i + 1..]);
  }

  /** Feeding input in two pieces is feeding it at once. */
  lemma {:induction false} FeedAppend(s: State, a: string, b: string)
    requires Valid(s)
    ensures Feed(s, a + b) == Feed(Feed(s, a), b)
    decreases |a|
  {
    if a == [] {
      assert a + b == b;
    } else if !s.terminated {
      assert (a + b)[0] == a[0] && (a + b)[1..] == a[1..] + b;
      FeedAppend(Step(s, a[0]), a[1..], b);
    }
  }
}

/**
 * What the console promises about whole keystroke sequences: typing,
 * control sequences (complete, foreign and broken), undoing edits, history
 * recall, double Ctrl+C, and the log cursor.
 */
module ConsoleProperties {
  import opened Wrappers
  import opened CharClass
  import opened JsSemantics
  import Params
  import WordSeek
  import opened ConsoleModel

  /** Short sequence displays built by concatenation. */
  lemma Displays(a: char, b: char, c: char)
    ensures [a] + [b] == [a, b]
    ensures [a, b] + [c] == [a, b, c]
    ensures [a] + [b, c] == [a, b, c]
  {
  }

  /** The literal text of the edit scenario. */
  lemma ScenarioText()
    ensures "X" + "ab" == "Xab"
  {
  }

  /** Concatenation regrouped. */
  lemma Regroup(a: string, b: string, c: string)
    ensures a + (b + c) == a + b + c
  {
  }

  /** Two lines prepended in turn. */
  lemma Pair(a: string, b: string)
    ensures [a] + ([b] + []) == [a, b]
  {
  }

  /** A non-empty string is its first character and the rest. */
  lemma HeadTail(t: string)
    requires t != []
    ensures [t[0]] + t[1..] == t
  {
  }

  /** Inserting at the start of a line, or into an empty one. */
  lemma SpliceAtStart(b: string, t: string)
    ensures b[..0] + t + b[0..] == t + b
    ensures [][..0] + t + [][0..] == t
  {
  }

  /** One character that reaches the `default` branch is inserted at the cursor. */
  lemma TypedStep(s: State, c: char)
    requires Valid(s) && !s.terminated && s.escapeBuffer == [] && IsTyped(c)
    ensures Step(s, c) == TypeChar(s.(pressedControlC := false), c)
    ensures var r := Step(s, c);
      && r.inBuffer == s.inBuffer[..s.inPos] + [c] + s.inBuffer[s.inPos..]
      && r.inPos == s.inPos + 1
      && r.escapeBuffer == [] && !r.terminated
      && r.history == s.history && r.historyIndex == s.historyIndex && r.draft == s.draft
      && r.lines == s.lines
  {
    var r := Step(s, c);
    assert r == TypeChar(s.(pressedControlC := false), c);
    assert r.inBuffer == s.inBuffer[..s.inPos] + [c] + s.inBuffer[s.inPos..];
  }

  /** Every character of `t` reaches the `default` branch. */
  predicate AllTyped(t: string) {
    forall i :: 0 <= i < |t| ==> IsTyped(t[i])
  }

  /** The literal inputs of the scenarios below are typed text. */
  lemma ScenarioTextTyped()
    ensures AllTyped("hello") && AllTyped("ab") && AllTyped("X")
  {
  }

  /** Characters that reach the `default` branch are inserted at the cursor, in order, and the cursor follows them. */
  lemma {:induction false} TypingInserts(s: State, t: string)
    requires Valid(s) && !s.terminated && s.escapeBuffer == []
    requires AllTyped(t)
    ensures var r := Feed(s, t);
      && r.inBuffer == s.inBuffer[..s.inPos] + t + s.inBuffer[s.inPos..]
      && r.inPos == s.inPos + |t|
      && r.escapeBuffer == [] && !r.terminated
      && r.history == s.history && r.historyIndex == s.historyIndex && r.draft == s.draft
      && r.lines == s.lines
    decreases |t|
  {
    if t == [] {
      assert s.inBuffer[..s.inPos] + t + s.inBuffer[s.inPos..] == s.inBuffer;
    } else {
      var s1 := Step(s, t[0]);
      TypedStep(s, t[0]);
      TypingInserts(s1, t[1..]);
      SpliceExtends(s.inBuffer, s.inPos, t[0], t[1..]);
      HeadTail(t);
    }
  }

  /** Inserting `c` at `p` and then `t` just after it is inserting `[c] + t` at `p`. */
  lemma SpliceExtends(b: string, p: nat, c: char, t: string)
    requires p <= |b|
    ensures var b1 := b[..p] + [c] + b[p..];
      b1[..p + 1] + t + b1[p + 1..] == b[..p] + ([c] + t) + b[p..]
  {
    var b1 := b[..p] + [c] + b[p..];
    assert b1[..p + 1] == b[..p] + [c];
    assert b1[p + 1..] == b[p..];
  }

  /** On a fresh console, typed text is the buffer and the cursor is at its end. */
  lemma TypingFromInit(s: State, t: string)
    requires s == Init()
    requires AllTyped(t)
    ensures Feed(s, t).inBuffer == t && Feed(s, t).inPos == |t|
  {
    TypingInserts(s, t);
    assert s.inBuffer[..0] + t + s.inBuffer[0..] == t;
  }

  /** `ESC` outside a sequence only opens one. */
  lemma EscStep(s: State)
    requires Valid(s) && s.escapeBuffer == []
    ensures Step(s, Esc) == s.(pressedControlC := false, escapeBuffer := [Esc])
  {
  }

  /** `[` after a lone `ESC` makes it a control sequence introducer. */
  lemma BracketStep(s: State)
    requires Valid(s) && s.escapeBuffer == [Esc]
    ensures Step(s, '[') == s.(escapeBuffer := [Esc, '['])
  {
  }

  /** A parameter or intermediate byte in its place is only accumulated. */
  lemma CsiByteStep(s: State, c: char)
    requires Valid(s) && ContinuesCsi(s.escapeBuffer, c)
    ensures Step(s, c) == s.(escapeBuffer := s.escapeBuffer + [c])
  {
  }

  /**
   * A character that completes a sequence (anything after a lone `ESC`, or a
   * final byte after `ESC [`) carries it out on the state without the buffer.
   */
  lemma CompletingStep(s: State, c: char)
    requires Valid(s)
    requires (s.escapeBuffer == [Esc] && c != '[') || (|s.escapeBuffer| >= 2 && IsFinalByte(c))
    ensures Step(s, c) == CompleteEscapeSeq(s.(escapeBuffer := []), s.escapeBuffer + [c])
  {
    CompleteEscapeSeqFrame(s, s.escapeBuffer + [c]);
  }

  /** Parameter and intermediate bytes of a well-formed body are only accumulated. */
  lemma {:induction false} CsiBodyAccumulates(s: State, body: string)
    requires Valid(s) && !s.terminated && |s.escapeBuffer| >= 2
    requires IsCsiBody(s.escapeBuffer[2..] + body)
    ensures Feed(s, body) == s.(escapeBuffer := s.escapeBuffer + body)
    decreases |body|
  {
    if body == [] {
      assert s.escapeBuffer + body == s.escapeBuffer;
    } else {
      var init, c := body[..|body| - 1], body[|body| - 1];
      var mid := s.(escapeBuffer := s.escapeBuffer + init);
      Snoc(s.escapeBuffer, body);
      CsiBodyExtend(mid.escapeBuffer, c);
      CsiBodyAccumulates(s, init);
      FeedAppend(s, init, [c]);
      FeedOne(mid, c);
      CsiByteStep(mid, c);
    }
  }

  /** A body split into its last byte, appended to a buffer that starts with `ESC [`. */
  lemma Snoc(eb: string, body: string)
    requires |eb| >= 2 && body != []
    ensures var init, c := body[..|body| - 1], body[|body| - 1];
      && init + [c] == body
      && (eb + init)[2..] == eb[2..] + init
      && (eb + init + [c])[2..] == eb[2..] + body
      && eb + init + [c] == eb + body
  {
    var init, c := body[..|body| - 1], body[|body| - 1];
    assert init + [c] == body;
  }

  /** `ESC` outside a sequence only opens one. */
  lemma EscIntroducer(s: State, rest: string)
    requires Valid(s) && !s.terminated && s.escapeBuffer == []
    ensures Feed(s, [Esc] + rest) == Feed(s.(pressedControlC := false, escapeBuffer := [Esc]), rest)
  {
    EscStep(s);
    FeedCons(s, Esc, rest);
  }

  /** `ESC [` outside a sequence only opens a control sequence. */
  lemma CsiIntroducer(s: State, rest: string)
    requires Valid(s) && !s.terminated && s.escapeBuffer == []
    ensures Feed(s, [Esc, '['] + rest) == Feed(s.(pressedControlC := false, escapeBuffer := [Esc, '[']), rest)
  {
    var s1 := s.(pressedControlC := false, escapeBuffer := [Esc]);
    EscIntroducer(s, ['['] + rest);
    assert [Esc] + (['['] + rest) == [Esc, '['] + rest;
    BracketStep(s1);
    FeedCons(s1, '[', rest);
  }

  /**
   * A complete control sequence is consumed whole: after `ESC [`, a
   * well-formed body and a final byte reach neither the buffer nor the
   * history, and the result is exactly the sequence carried out on the state
   * without the escape buffer.
   */
  lemma CsiBodyThenFinal(s: State, body: string, final: char)
    requires Valid(s) && !s.terminated && s.escapeBuffer == [Esc, '[']
    requires IsCsiBody(body) && IsFinalByte(final)
    ensures Feed(s, body + [final]) == CompleteEscapeSeq(s.(escapeBuffer := []), [Esc, '['] + body + [final])
  {
    FeedAppend(s, body, [final]);
    assert s.escapeBuffer[2..] + body == body;
    CsiBodyAccumulates(s, body);
    var s3 := s.(escapeBuffer := [Esc, '['] + body);
    FeedOne(s3, final);
    CompletingStep(s3, final);
  }

  /**
   * From the idle state, every character of `ESC [ body final` is consumed:
   * the result is the sequence carried out on the state the `ESC` left.
   */
  lemma CsiSequenceConsumed(s: State, body: string, final: char)
    requires Valid(s) && !s.terminated && s.escapeBuffer == []
    requires IsCsiBody(body) && IsFinalByte(final)
    ensures Feed(s, [Esc, '['] + body + [final])
         == CompleteEscapeSeq(s.(pressedControlC := false), [Esc, '['] + body + [final])
  {
    Regroup([Esc, '['], body, [final]);
    CsiIntroducer(s, body + [final]);
    CsiBodyThenFinal(s.(pressedControlC := false, escapeBuffer := [Esc, '[']), body, final);
  }

  /** `ESC` followed by anything but `[` consumes both characters and only reports them. */
  lemma ForeignEscapeConsumed(s: State, c: char)
    requires Valid(s) && !s.terminated && s.escapeBuffer == [] && c != '['
    ensures Feed(s, [Esc, c]) == Log(s.(pressedControlC := false), UnknownPrefix + [Esc, c], true)
  {
    var s1 := s.(pressedControlC := false, escapeBuffer := [Esc]);
    EscIntroducer(s, [c]);
    Displays(Esc, c, c);
    FeedOne(s1, c);
    CompletingStep(s1, c);
    assert Decode([Esc, c]) == Unknown;
  }

  /**
   * A byte that breaks a control sequence is not lost: the partial sequence is
   * reported, and the byte is then handled as a normal character.
   */
  lemma BrokenSequenceRefeedsByte(s: State, c: char)
    requires Valid(s) && |s.escapeBuffer| >= 2
    requires !IsFinalByte(c) && !ContinuesCsi(s.escapeBuffer, c)
    ensures Step(s, c) == NormalChar(Log(s.(escapeBuffer := []), UnknownPrefix + s.escapeBuffer, true), c)
  {
  }

  /** `ESC [` and then a typed character that cannot continue the sequence: the sequence is reported and the character typed. */
  lemma BrokenSequenceThenTyped(s: State, c: char)
    requires Valid(s) && !s.terminated && s.escapeBuffer == []
    requires IsTyped(c) && !IsControl(c) && !IsFinalByte(c) && !IsParameterByte(c) && !IsIntermediateByte(c)
    ensures var r := Feed(s, [Esc, '[', c]);
      && r.inBuffer == s.inBuffer[..s.inPos] + [c] + s.inBuffer[s.inPos..]
      && r.inPos == s.inPos + 1
      && r.escapeBuffer == [] && !r.terminated
      && r.logs == s.logs + [UnknownPrefix + [Esc, '[']]
  {
    var s2 := s.(pressedControlC := false, escapeBuffer := [Esc, '[']);
    var s3 := Log(s2.(escapeBuffer := []), UnknownPrefix + [Esc, '['], true);
    Displays(Esc, '[', c);
    CsiIntroducer(s, [c]);
    FeedOne(s2, c);
    BrokenSequenceRefeedsByte(s2, c);
    TypedStep(s3, c);
  }

  /** Backspace right after inserting a character restores the line and cursor. */
  lemma BackspaceUndoesInsert(s: State, c: char)
    requires Valid(s)
    ensures DeleteBefore(InsertChar(s, c)) == s
  {
    var r := InsertChar(s, c);
    assert r.inBuffer[..s.inPos] + r.inBuffer[s.inPos + 1..] == s.inBuffer;
  }

  /** Inserting, stepping back over the character and deleting forward restores the line. */
  lemma ForwardDeleteUndoesInsert(s: State, c: char)
    requires Valid(s)
    ensures DeleteAt(InsertChar(s, c).(inPos := s.inPos)) == s
  {
    var r := InsertChar(s, c);
    assert r.inBuffer[..s.inPos] + r.inBuffer[s.inPos + 1..] == s.inBuffer;
  }

  /** A character that is not a control character is inserted without an echo, and the regex is reset. */
  lemma PlainTypeChar(s: State, c: char)
    requires Valid(s) && !IsControl(c)
    ensures TypeChar(s, c) == InsertChar(s.(controlRegexLastIndex := 0), c)
  {
  }

  /** Backspace (`DEL` or Ctrl+H) outside a sequence disarms Ctrl+C and deletes before the cursor. */
  lemma BackspaceStep(s: State, c: char)
    requires Valid(s) && !s.terminated && s.escapeBuffer == []
    requires c == Del || c == CtrlH
    ensures Step(s, c) == DeleteBefore(s.(pressedControlC := false))
  {
  }

  /** Tab outside a sequence only disarms Ctrl+C. */
  lemma TabStep(s: State)
    requires Valid(s) && !s.terminated && s.escapeBuffer == []
    ensures Step(s, '\t') == s.(pressedControlC := false)
  {
  }

  /** Typing a printable character and then Backspace leaves the console as it was, with Ctrl+C disarmed. */
  lemma TypeThenBackspace(s: State, c: char)
    requires Valid(s) && !s.terminated && s.escapeBuffer == []
    requires IsTyped(c) && !IsControl(c)
    ensures Feed(s, [c, Del]) == s.(pressedControlC := false, controlRegexLastIndex := 0)
  {
    var s0 := s.(pressedControlC := false, controlRegexLastIndex := 0);
    var s1 := Step(s, c);
    TypedStep(s, c);
    PlainTypeChar(s.(pressedControlC := false), c);
    Displays(c, Del, Del);
    FeedCons(s, c, [Del]);
    FeedOne(s1, Del);
    BackspaceStep(s1, Del);
    BackspaceUndoesInsert(s0, c);
  }

  /** Going up `n` entries and down `n` again returns to the live line as it was. */
  lemma UpThenDownRestoresLiveLine(s: State, n: nat)
    requires Valid(s) && s.historyIndex == -1 && n >= 1
    ensures var r := HistoryDown(HistoryUp(s, n), n);
      r.historyIndex == -1 && r.inBuffer == s.inBuffer && r.inPos == |s.inBuffer|
  {
  }

  /** The line just submitted is the first one Up recalls, and Down then gives the empty draft. */
  lemma SubmittedLineRecalledFirst(s: State)
    requires Valid(s)
    ensures HistoryUp(SendInput(s), 1).inBuffer == s.inBuffer
    ensures HistoryDown(HistoryUp(SendInput(s), 1), 1).inBuffer == []
  {
  }

  /** Up with count `n` from the live line recalls the `n`-th most recent submission, or the oldest one. */
  lemma UpRecallsNthLatest(s: State, n: nat)
    requires Valid(s) && s.historyIndex == -1 && n >= 1 && |s.lines| > 0
    ensures HistoryUp(s, n).inBuffer == s.lines[|s.lines| - Min(n, |s.lines|)]
  {
  }

  /** The four arrow keys without parameters: count 1 and no modifier. */
  lemma PlainArrowsDecode()
    ensures Decode([Esc, '[', 'A']) == HistoryOlder(1)
    ensures Decode([Esc, '[', 'B']) == HistoryNewer(1)
    ensures Decode([Esc, '[', 'C']) == CursorRight(1, None)
    ensures Decode([Esc, '[', 'D']) == CursorLeft(1, None)
  {
    Params.ParametersOfEmpty();
    assert SequenceBody([Esc, '[', 'A']) == [];
    assert SequenceBody([Esc, '[', 'B']) == [];
    assert SequenceBody([Esc, '[', 'C']) == [];
    assert SequenceBody([Esc, '[', 'D']) == [];
  }

  /** A parameterless sequence `ESC [ final` is consumed and carried out. */
  lemma ShortSequenceConsumed(s: State, final: char)
    requires Valid(s) && !s.terminated && s.escapeBuffer == [] && IsFinalByte(final)
    ensures Feed(s, [Esc, '[', final]) == CompleteEscapeSeq(s.(pressedControlC := false), [Esc, '[', final])
  {
    var s2 := s.(pressedControlC := false, escapeBuffer := [Esc, '[']);
    Displays(Esc, '[', final);
    CsiIntroducer(s, [final]);
    FeedOne(s2, final);
    CompletingStep(s2, final);
  }

  /** Up recalls the previous entry. */
  lemma UpKey(s: State)
    requires Valid(s) && !s.terminated && s.escapeBuffer == []
    ensures Feed(s, [Esc, '[', 'A']) == HistoryUp(s.(pressedControlC := false), 1)
  {
    ShortSequenceConsumed(s, 'A');
    UpKeyEffect(s.(pressedControlC := false));
  }

  /** Down goes back towards the live line. */
  lemma DownKey(s: State)
    requires Valid(s) && !s.terminated && s.escapeBuffer == []
    ensures Feed(s, [Esc, '[', 'B']) == HistoryDown(s.(pressedControlC := false), 1)
  {
    ShortSequenceConsumed(s, 'B');
    DownKeyEffect(s.(pressedControlC := false));
  }

  /** Left moves the cursor one place, stopping at the start of the line. */
  lemma LeftKey(s: State)
    requires Valid(s) && !s.terminated && s.escapeBuffer == []
    ensures Feed(s, [Esc, '[', 'D']) == s.(pressedControlC := false, inPos := Max(0, s.inPos - 1))
  {
    ShortSequenceConsumed(s, 'D');
    LeftKeyEffect(s.(pressedControlC := false));
  }

  /** Right moves the cursor one place, stopping at the end of the line. */
  lemma RightKey(s: State)
    requires Valid(s) && !s.terminated && s.escapeBuffer == []
    ensures Feed(s, [Esc, '[', 'C']) == s.(pressedControlC := false, inPos := Min(|s.inBuffer|, s.inPos + 1))
  {
    ShortSequenceConsumed(s, 'C');
    RightKeyEffect(s.(pressedControlC := false));
  }

  /** `ESC [ A` carried out: one entry older. */
  lemma UpKeyEffect(s: State)
    requires Valid(s)
    ensures CompleteEscapeSeq(s, [Esc, '[', 'A']) == HistoryUp(s, 1)
  {
    PlainArrowsDecode();
  }

  /** `ESC [ B` carried out: one entry newer. */
  lemma DownKeyEffect(s: State)
    requires Valid(s)
    ensures CompleteEscapeSeq(s, [Esc, '[', 'B']) == HistoryDown(s, 1)
  {
    PlainArrowsDecode();
  }

  /** `ESC [ D` carried out: one place left, clamped at 0. */
  lemma LeftKeyEffect(s: State)
    requires Valid(s)
    ensures CompleteEscapeSeq(s, [Esc, '[', 'D']) == s.(inPos := Max(0, s.inPos - 1))
  {
    PlainArrowsDecode();
  }

  /** `ESC [ C` carried out: one place right, clamped at the end of the line. */
  lemma RightKeyEffect(s: State)
    requires Valid(s)
    ensures CompleteEscapeSeq(s, [Esc, '[', 'C']) == s.(inPos := Min(|s.inBuffer|, s.inPos + 1))
  {
    PlainArrowsDecode();
  }

  /** Enter (`\r` or `\n`) emits the line, records it as the newest entry and clears the buffer. */
  lemma EnterSubmits(s: State, c: char)
    requires Valid(s) && !s.terminated && s.escapeBuffer == []
    requires c == '\r' || c == '\n'
    ensures Feed(s, [c]) == SendInput(s.(pressedControlC := false))
  {
    FeedOne(s, c);
  }

  /** Typing a line on an empty prompt and pressing Enter submits exactly that line. */
  lemma TypeAndSubmit(s: State, t: string)
    requires Valid(s) && !s.terminated && s.escapeBuffer == [] && s.inBuffer == []
    requires AllTyped(t)
    ensures var r := Feed(s, t + ['\r']);
      && r.lines == s.lines + [t] && r.history == [t] + s.history
      && r.inBuffer == [] && r.inPos == 0 && r.historyIndex == -1 && r.draft == None
      && r.escapeBuffer == [] && !r.terminated
  {
    TypingInserts(s, t);
    SpliceAtStart(s.inBuffer, t);
    FeedAppend(s, t, ['\r']);
    EnterSubmits(Feed(s, t), '\r');
  }

  /** Type `hello`, press Enter: the line event carries `hello`; the buffer is empty and the cursor 0. */
  lemma HelloScenario(s: State)
    requires s == Init()
    ensures var r := Feed(s, "hello" + ['\r']);
      r.lines == ["hello"] && r.inBuffer == [] && r.inPos == 0 && r.history == ["hello"]
  {
    ScenarioTextTyped();
    TypeAndSubmit(s, "hello");
  }

  /**
   * After submitting `first` and then `second`: Up gives `second`, Up `first`,
   * Up stays on `first`, Down gives `second`, Down gives the empty draft.
   */
  lemma HistoryScenario(s: State, first: string, second: string)
    requires Valid(s) && !s.terminated && s.escapeBuffer == [] && s.inBuffer == [] && s.history == []
    requires AllTyped(first) && AllTyped(second)
    ensures
      var up := [Esc, '[', 'A'];
      var down := [Esc, '[', 'B'];
      var u0 := Feed(Feed(s, first + ['\r']), second + ['\r']);
      var u1 := Feed(u0, up);
      var u2 := Feed(u1, up);
      var u3 := Feed(u2, up);
      var d1 := Feed(u3, down);
      var d2 := Feed(d1, down);
      && u1.inBuffer == second && u2.inBuffer == first && u3.inBuffer == first
      && d1.inBuffer == second && d2.inBuffer == []
  {
    SubmitTwo(s, first, second);
    RecallTwo(Feed(Feed(s, first + ['\r']), second + ['\r']), first, second);
  }

  /** Submitting two lines in turn from an empty prompt records both, the latest first. */
  lemma SubmitTwo(s: State, first: string, second: string)
    requires Valid(s) && !s.terminated && s.escapeBuffer == [] && s.inBuffer == [] && s.history == []
    requires AllTyped(first) && AllTyped(second)
    ensures var r := Feed(Feed(s, first + ['\r']), second + ['\r']);
      && Valid(r) && !r.terminated && r.escapeBuffer == []
      && r.history == [second, first] && r.historyIndex == -1 && r.draft == None && r.inBuffer == []
  {
    TypeAndSubmit(s, first);
    TypeAndSubmit(Feed(s, first + ['\r']), second);
    Pair(second, first);
  }

  /** Up three times and Down twice from the live line over two entries. */
  lemma RecallTwo(s: State, first: string, second: string)
    requires Valid(s) && !s.terminated && s.escapeBuffer == []
    requires s.history == [second, first] && s.historyIndex == -1 && s.draft == None && s.inBuffer == []
    ensures
      var up := [Esc, '[', 'A'];
      var down := [Esc, '[', 'B'];
      var u1 := Feed(s, up);
      var u2 := Feed(u1, up);
      var u3 := Feed(u2, up);
      var d1 := Feed(u3, down);
      var d2 := Feed(d1, down);
      && u1.inBuffer == second && u2.inBuffer == first && u3.inBuffer == first
      && d1.inBuffer == second && d2.inBuffer == []
  {
    UpKey(s);
    var u1 := Feed(s, [Esc, '[', 'A']);
    UpKey(u1);
    var u2 := Feed(u1, [Esc, '[', 'A']);
    UpKey(u2);
    var u3 := Feed(u2, [Esc, '[', 'A']);
    DownKey(u3);
    DownKey(Feed(u3, [Esc, '[', 'B']));
  }

  /** Type `ab`, press Left twice, type `X`: the buffer is `Xab` and the cursor 1. */
  lemma EditBeforeScenario(s: State)
    requires s == Init()
    ensures
      var left := [Esc, '[', 'D'];
      var r := Feed(Feed(Feed(Feed(s, "ab"), left), left), "X");
      r.inBuffer == "Xab" && r.inPos == 1
  {
    ScenarioTextTyped();
    TypingInserts(s, "ab");
    SpliceAtStart(s.inBuffer, "ab");
    var a := Feed(s, "ab");
    LeftTwice(a);
    var c := Feed(Feed(a, [Esc, '[', 'D']), [Esc, '[', 'D']);
    TypingInserts(c, "X");
    SpliceAtStart(c.inBuffer, "X");
    ScenarioText();
  }

  /** Two presses of Left move the cursor two places back and change nothing else that typing reads. */
  lemma LeftTwice(s: State)
    requires Valid(s) && !s.terminated && s.escapeBuffer == [] && s.inPos >= 2
    ensures var r := Feed(Feed(s, [Esc, '[', 'D']), [Esc, '[', 'D']);
      && r.inBuffer == s.inBuffer && r.inPos == s.inPos - 2
      && r.escapeBuffer == [] && !r.terminated
  {
    LeftKey(s);
    LeftKey(Feed(s, [Esc, '[', 'D']));
  }

  /** Ctrl+C outside an escape sequence: the second in a row terminates, the first echoes `^C` and arms the flag. */
  lemma CtrlCStep(s: State)
    requires Valid(s) && s.escapeBuffer == []
    ensures s.pressedControlC ==> Step(s, CtrlC).terminated
    ensures !s.pressedControlC ==> Step(s, CtrlC) == Log(s.(pressedControlC := true), "^C", true)
  {
  }

  /** Two Ctrl+C presses in a row terminate. */
  lemma DoubleCtrlCTerminates(s: State)
    requires Valid(s) && !s.terminated && s.escapeBuffer == []
    ensures Feed(s, [CtrlC, CtrlC]).terminated
  {
    var s1 := Step(s, CtrlC);
    CtrlCStep(s);
    FeedCons(s, CtrlC, [CtrlC]);
    if !s1.terminated {
      CtrlCStep(s1);
      FeedOne(s1, CtrlC);
    }
  }

  /** The first Ctrl+C only echoes `^C` and arms the flag. */
  lemma FirstCtrlCEchoes(s: State)
    requires Valid(s) && !s.terminated && s.escapeBuffer == [] && !s.pressedControlC
    ensures var r := Feed(s, [CtrlC]);
      !r.terminated && r.pressedControlC && r.logs == s.logs + ["^C"]
  {
    CtrlCStep(s);
    FeedOne(s, CtrlC);
  }

  /** Whether `str` holds two Ctrl+C presses in a row. */
  predicate HasDoubleCtrlC(str: string) {
    exists i :: 0 <= i < |str| - 1 && str[i] == CtrlC && str[i + 1] == CtrlC
  }

  /**
   * Only two consecutive Ctrl+C presses terminate: input without them leaves
   * the console running, provided it does not start with Ctrl+C while the
   * flag is armed.
   */
  lemma {:induction false} RunsWithoutDoubleCtrlC(s: State, str: string)
    requires Valid(s) && !s.terminated
    requires s.pressedControlC && str != [] ==> str[0] != CtrlC
    requires !HasDoubleCtrlC(str)
    ensures !Feed(s, str).terminated
    decreases |str|
  {
    if str != [] {
      var s1 := Step(s, str[0]);
      FeedCons(s, str[0], str[1..]);
      assert [str[0]] + str[1..] == str;
      var rest := str[1..];
      assert !HasDoubleCtrlC(rest) by {
        forall i | 0 <= i < |rest| - 1 && rest[i] == CtrlC
          ensures rest[i + 1] != CtrlC
        {
          assert str[i + 1] == rest[i] && str[i + 2] == rest[i + 1];
        }
      }
      if s1.pressedControlC && rest != [] {
        assert str[0] == CtrlC && rest[0] == str[1];
      }
      RunsWithoutDoubleCtrlC(s1, rest);
    }
  }

  /** Any other character between two Ctrl+C presses disarms the flag: the second press does not terminate. */
  lemma InterruptedCtrlCKeepsRunning(s: State, x: char)
    requires Valid(s) && !s.terminated && !s.pressedControlC && x != CtrlC
    ensures !Feed(s, [CtrlC, x, CtrlC]).terminated
  {
    var str := [CtrlC, x, CtrlC];
    assert !HasDoubleCtrlC(str) by {
      forall i | 0 <= i < |str| - 1
        ensures !(str[i] == CtrlC && str[i + 1] == CtrlC)
      {
      }
    }
    RunsWithoutDoubleCtrlC(s, str);
  }

  /**
   * The global control-character regex keeps `lastIndex` after a match, so of
   * two control characters typed in a row only the first is echoed; both are inserted.
   */
  lemma ConsecutiveControlCharsEchoOnce(s: State, a: char, b: char)
    requires Valid(s) && !s.terminated && s.escapeBuffer == [] && s.controlRegexLastIndex == 0
    requires IsTyped(a) && IsTyped(b) && IsControl(a) && IsControl(b)
    ensures var r := Feed(s, [a, b]);
      && r.logs == s.logs + [CaretNotation(a)]
      && r.inBuffer == s.inBuffer[..s.inPos] + [a, b] + s.inBuffer[s.inPos..]
  {
    var s1 := Step(s, a);
    FeedCons(s, a, [b]);
    Displays(a, b, b);
    FeedOne(s1, b);
    TypedStep(s, a);
    TypedStep(s1, b);
    SpliceExtends(s.inBuffer, s.inPos, a, [b]);
  }

  /** The log cursor after successive `log(text, false)` calls. */
  function LogWithoutNewlines(s: State, texts: seq<string>): (r: State)
    requires Valid(s)
    ensures Valid(r)
    decreases |texts|
  {
    if texts == [] then s else LogWithoutNewlines(Log(s, texts[0], false), texts[1..])
  }

  /** The combined length of `texts`. */
  function TotalLength(texts: seq<string>): nat
    decreases |texts|
  {
    if texts == [] then 0 else |texts[0]| + TotalLength(texts[1..])
  }

  /** Text logged without newlines accumulates on one line: the column advances by its total length. */
  lemma {:induction false} LogColumnAccumulates(s: State, texts: seq<string>)
    requires Valid(s)
    ensures LogWithoutNewlines(s, texts).logPos.x == s.logPos.x + TotalLength(texts)
    ensures LogWithoutNewlines(s, texts).logs == s.logs + texts
    decreases |texts|
  {
    if texts != [] {
      LogColumnAccumulates(Log(s, texts[0], false), texts[1..]);
      assert s.logs + [texts[0]] + texts[1..] == s.logs + texts;
    } else {
      assert s.logs + texts == s.logs;
    }
  }

  /** `ESC [ 3 ~` is forward delete; with a modifier, `ESC [ 3 ; 5 ~`, it is only reported. */
  lemma DeleteKeySequences()
    ensures Decode([Esc, '[', '3', '~']) == DeleteForward
    ensures Decode([Esc, '[', '3', ';', '5', '~']) == Unknown
  {
    DeleteKeyBody();
    ModifiedDeleteBody();
  }

  /** The parameter string of `ESC [ 3 ~`. */
  lemma DeleteKeyBody()
    ensures Decode([Esc, '[', '3', '~']) == DecodeFinal('~', ['3'])
  {
    assert SequenceBody([Esc, '[', '3', '~']) == ['3'];
  }

  /** The parameter string of `ESC [ 3 ; 5 ~`. */
  lemma ModifiedDeleteBody()
    ensures Decode([Esc, '[', '3', ';', '5', '~']) == DecodeFinal('~', ['3', ';', '5'])
  {
    var body := ['3', ';', '5'];
    assert SequenceBody([Esc, '[', '3', ';', '5', '~']) == body;
    assert forall i :: 0 <= i < |body| ==> IsParameterByte(body[i]);
  }

  /** `ESC [ 1 ; 5 C` is a word motion to the right with count 1. */
  lemma CtrlRightSequence()
    ensures Decode([Esc, '[', '1', ';', '5', 'C']) == CursorRight(1, Some(5))
  {
    var sq, body := [Esc, '[', '1', ';', '5', 'C'], ['1', ';', '5'];
    assert SequenceBody(sq) == body;
    assert forall i :: 0 <= i < |body| ==> IsParameterByte(body[i]);
    Params.ParametersOfPair(1, 5);
    assert Params.DecimalString(1) + [';'] + Params.DecimalString(5) == ['1', ';', '5'];
  }

  /** A numeral is made of parameter bytes, so it is a control sequence body that keeps all its bytes. */
  lemma NumeralBody(d: string)
    requires forall i :: 0 <= i < |d| ==> IsDigit(d[i])
    ensures IsCsiBody(d) && Params.ParameterBytes(d) == d
  {
    assert forall i :: 0 <= i < |d| ==> IsParameterByte(d[i]);
  }

  /** `ESC [ body final` decodes by the final byte and the parameter bytes of `body`. */
  lemma FramedBody(body: string, final: char)
    ensures SequenceBody([Esc, '['] + body + [final]) == body
    ensures Decode([Esc, '['] + body + [final]) == DecodeFinal(final, Params.ParameterBytes(body))
  {
    var sq := [Esc, '['] + body + [final];
    assert sq[2..|sq| - 1] == body;
    assert sq[0] == Esc && sq[1] == '[' && sq[|sq| - 1] == final;
  }

  /** `ESC [ n A` to `ESC [ n D` carry the count `n` and no modifier, for every `n >= 1`. */
  lemma CountedArrowDecodes(n: nat, final: char)
    requires n >= 1
    ensures var cmd := Decode([Esc, '['] + Params.DecimalString(n) + [final]);
      && (final == 'A' ==> cmd == HistoryOlder(n))
      && (final == 'B' ==> cmd == HistoryNewer(n))
      && (final == 'C' ==> cmd == CursorRight(n, None))
      && (final == 'D' ==> cmd == CursorLeft(n, None))
  {
    var d := Params.DecimalString(n);
    NumeralBody(d);
    FramedBody(d, final);
    Params.ParametersOfSingle(n);
  }

  /** `ESC [ n ; m C` and `ESC [ n ; m D` carry the count `n` and the modifier `m`, for every `n, m >= 1`. */
  lemma ModifiedArrowDecodes(n: nat, m: nat, final: char)
    requires n >= 1 && m >= 1
    ensures var cmd := Decode([Esc, '['] + Params.DecimalString(n) + [';'] + Params.DecimalString(m) + [final]);
      && (final == 'C' ==> cmd == CursorRight(n, Some(m)))
      && (final == 'D' ==> cmd == CursorLeft(n, Some(m)))
  {
    var dn, dm := Params.DecimalString(n), Params.DecimalString(m);
    var body := dn + [';'] + dm;
    NumeralBody(dn);
    NumeralBody(dm);
    Params.ParameterBytesAppend(dn + [';'], dm);
    Params.ParameterBytesAppend(dn, [';']);
    assert Params.ParameterBytes([';']) == [';'];
    FramedBody(body, final);
    Reassociate(dn, dm, final);
    Params.ParametersOfPair(n, m);
  }

  /** The two ways of writing `ESC [ n ; m final` as one sequence. */
  lemma Reassociate(dn: string, dm: string, final: char)
    ensures [Esc, '['] + (dn + [';'] + dm) + [final] == [Esc, '['] + dn + [';'] + dm + [final]
  {
  }

  /** `ESC [ H` is Home and `ESC [ F` is End. */
  lemma HomeEndDecode()
    ensures Decode([Esc, '[', 'H']) == Home
    ensures Decode([Esc, '[', 'F']) == End
  {
    FramedBody([], 'H');
    FramedBody([], 'F');
  }

  /** Intermediate bytes are dropped from the parameter string: `ESC [ 3 $ ~` is still forward delete. */
  lemma DeleteWithIntermediate()
    ensures Decode([Esc, '[', '3', '$', '~']) == DeleteForward
  {
    FramedBody(['3', '$'], '~');
    Params.ParameterBytesAppend(['3'], ['$']);
    assert ['3'] + ['$'] == ['3', '$'];
    assert [Esc, '['] + ['3', '$'] + ['~'] == [Esc, '[', '3', '$', '~'];
  }

  /** `ESC [ n final` typed outside a sequence is consumed whole and carried out. */
  lemma CountedKeyConsumed(s: State, n: nat, final: char)
    requires Valid(s) && !s.terminated && s.escapeBuffer == [] && n >= 1 && IsFinalByte(final)
    ensures Feed(s, [Esc, '['] + Params.DecimalString(n) + [final])
         == CompleteEscapeSeq(s.(pressedControlC := false), [Esc, '['] + Params.DecimalString(n) + [final])
  {
    NumeralBody(Params.DecimalString(n));
    CsiSequenceConsumed(s, Params.DecimalString(n), final);
  }

  /** `ESC [ n A` for any count `n` recalls the entry `n` places older, stopping at the oldest. */
  lemma CountedUpKey(s: State, n: nat)
    requires Valid(s) && !s.terminated && s.escapeBuffer == [] && n >= 1
    ensures Feed(s, [Esc, '['] + Params.DecimalString(n) + ['A']) == HistoryUp(s.(pressedControlC := false), n)
  {
    CountedKeyConsumed(s, n, 'A');
    CountedArrowDecodes(n, 'A');
    ArrowEffect(s.(pressedControlC := false), [Esc, '['] + Params.DecimalString(n) + ['A'], n);
  }

  /** `ESC [ n B` for any count `n` goes `n` entries newer, stopping at the live line. */
  lemma CountedDownKey(s: State, n: nat)
    requires Valid(s) && !s.terminated && s.escapeBuffer == [] && n >= 1
    ensures Feed(s, [Esc, '['] + Params.DecimalString(n) + ['B']) == HistoryDown(s.(pressedControlC := false), n)
  {
    CountedKeyConsumed(s, n, 'B');
    CountedArrowDecodes(n, 'B');
    ArrowEffect(s.(pressedControlC := false), [Esc, '['] + Params.DecimalString(n) + ['B'], n);
  }

  /** `ESC [ n C` for any count `n` moves the cursor `n` places right, stopping at the end. */
  lemma CountedRightKey(s: State, n: nat)
    requires Valid(s) && !s.terminated && s.escapeBuffer == [] && n >= 1
    ensures Feed(s, [Esc, '['] + Params.DecimalString(n) + ['C']) == s.(pressedControlC := false, inPos := Min(|s.inBuffer|, s.inPos + n))
  {
    CountedKeyConsumed(s, n, 'C');
    CountedArrowDecodes(n, 'C');
    ArrowEffect(s.(pressedControlC := false), [Esc, '['] + Params.DecimalString(n) + ['C'], n);
  }

  /** `ESC [ n D` for any count `n` moves the cursor `n` places left, stopping at 0. */
  lemma CountedLeftKey(s: State, n: nat)
    requires Valid(s) && !s.terminated && s.escapeBuffer == [] && n >= 1
    ensures Feed(s, [Esc, '['] + Params.DecimalString(n) + ['D']) == s.(pressedControlC := false, inPos := Max(0, s.inPos - n))
  {
    CountedKeyConsumed(s, n, 'D');
    CountedArrowDecodes(n, 'D');
    ArrowEffect(s.(pressedControlC := false), [Esc, '['] + Params.DecimalString(n) + ['D'], n);
  }

  /** What an arrow key with count `n` and no modifier does to a state. */
  lemma ArrowEffect(s: State, sq: string, n: nat)
    requires Valid(s) && n >= 1
    ensures Decode(sq) == HistoryOlder(n) ==> CompleteEscapeSeq(s, sq) == HistoryUp(s, n)
    ensures Decode(sq) == HistoryNewer(n) ==> CompleteEscapeSeq(s, sq) == HistoryDown(s, n)
    ensures Decode(sq) == CursorRight(n, None) ==> CompleteEscapeSeq(s, sq) == s.(inPos := Min(|s.inBuffer|, s.inPos + n))
    ensures Decode(sq) == CursorLeft(n, None) ==> CompleteEscapeSeq(s, sq) == s.(inPos := Max(0, s.inPos - n))
  {
  }

  /** Ctrl+Left at the end of `foo bar` lands at the start of `bar`; Ctrl+Right from the start stops at the space. */
  lemma WordMotionExample()
    ensures WordSeek.SeekLeft("foo bar", 7, 1, Some(5)) == 4
    ensures WordSeek.SeekRight("foo bar", 0, 1, Some(5)) == 3
  {
    var buf := "foo bar";
    assert WordSeek.IsWordMotion(Some(5));
    assert WordSeek.IsBoundary(buf[3], 5);
    assert !WordSeek.IsBoundary(buf[1], 5) && !WordSeek.IsBoundary(buf[2], 5);
    assert !WordSeek.IsBoundary(buf[4], 5) && !WordSeek.IsBoundary(buf[5], 5);
  }
}

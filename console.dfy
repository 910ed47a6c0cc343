/**
 * The `Console` object itself: its fields are updated in place by one method
 * per handler, and each method is proved to leave the state that the
 * matching function of `ConsoleModel` describes. Terminal output is not
 * modelled; the emitted lines and the texts passed to `log` are kept in
 * ghost fields.
 */
module FlowConsole {
  import opened Wrappers
  import opened CharClass
  import opened JsSemantics
  import Params
  import WordSeek
  import ConsoleModel

  class Console {
    const promptLength: nat
    var inBuffer: string
    var inPos: int
    var pressedControlC: bool
    var logPos: ConsoleModel.LogPos
    var history: seq<string>
    var historyIndex: int
    var draft: Option<string>
    var escapeBuffer: string
    var controlRegexLastIndex: nat
    var terminated: bool
    ghost var lines: seq<string>
    ghost var logs: seq<string>

    ghost function Model(): ConsoleModel.State
      reads this
    {
      ConsoleModel.State(inBuffer, inPos, escapeBuffer, history, historyIndex, draft,
                         pressedControlC, controlRegexLastIndex, logPos, terminated, lines, logs)
    }

    ghost predicate Valid()
      reads this
    {
      ConsoleModel.Valid(Model())
    }

    /** `promptLength` is the visible width of the prompt, computed by the caller. */
    constructor (promptLength: nat)
      ensures Valid() && Model() == ConsoleModel.Init()
      ensures this.promptLength == promptLength
    {
      this.promptLength := promptLength;
      inBuffer := [];
      inPos := 0;
      pressedControlC := false;
      logPos := ConsoleModel.LogPos(true, 1);
      history := [];
      historyIndex := -1;
      draft := None;
      escapeBuffer := [];
      controlRegexLastIndex := 0;
      terminated := false;
      lines := [];
      logs := [];
    }

    /** The 1-based column `redisplay` and `repositionCursor` move the terminal cursor to. */
    function CursorColumn(): (col: int)
      reads this
      requires Valid()
      ensures promptLength + 1 <= col <= promptLength + |inBuffer| + 1
      ensures col - promptLength - 1 == inPos
    {
      promptLength + inPos + 1
    }

    method ProcessString(str: string)
      requires Valid()
      modifies this
      ensures Valid() && Model() == ConsoleModel.Feed(old(Model()), str)
    {
      ghost var start := Model();
      var i := 0;
      while i < |str| && !terminated
        invariant 0 <= i <= |str|
        invariant Valid()
        invariant ConsoleModel.Feed(Model(), str[i..]) == ConsoleModel.Feed(start, str)
      {
        ghost var before := Model();
        ProcessChar(str[i]);
        ConsoleModel.FeedAt(before, str, i);
        i := i + 1;
      }
      assert str[i..] == [] || terminated;
    }

    /** The body of the `for` loop of `processString`. */
    method ProcessChar(c: char)
      requires Valid()
      modifies this
      ensures Valid() && Model() == ConsoleModel.Step(old(Model()), c)
    {
      var consumed := false;
      if |escapeBuffer| > 0 {
        consumed := ProcessEscapeSeqChar(c);
      }
      if !consumed {
        ProcessNormalChar(c);
      }
    }

    method ProcessEscapeSeqChar(c: char) returns (consumed: bool)
      requires Valid() && |escapeBuffer| > 0
      modifies this
      ensures Valid()
      ensures (Model(), consumed) == ConsoleModel.EscapeSeqChar(old(Model()), c)
    {
      if |escapeBuffer| == 1 && escapeBuffer[0] == Esc {
        if c == '[' {
          escapeBuffer := escapeBuffer + [c];
          return true;
        } else {
          CompleteThenClear(escapeBuffer + [c]);
          return true;
        }
      }
      // Here the buffer starts with `ESC [`, so the source's abandon branch for
      // any other two-byte prefix cannot run and is not modelled.
      ConsoleModel.CsiBodyExtend(escapeBuffer, c);
      if IsFinalByte(c) {
        CompleteThenClear(escapeBuffer + [c]);
        return true;
      }
      if |escapeBuffer| == 2 {
        if IsParameterByte(c) || IsIntermediateByte(c) {
          escapeBuffer := escapeBuffer + [c];
          return true;
        } else {
          AbandonSequence();
          return false;
        }
      }
      var last := escapeBuffer[|escapeBuffer| - 1];
      if IsParameterByte(last) {
        if IsParameterByte(c) || IsIntermediateByte(c) {
          escapeBuffer := escapeBuffer + [c];
          return true;
        }
      }
      if IsIntermediateByte(last) {
        if IsIntermediateByte(c) {
          escapeBuffer := escapeBuffer + [c];
          return true;
        }
      }
      AbandonSequence();
      return false;
    }

    /** `processCompleteEscapeSeq(sq)` followed by `escapeBuffer = []`. */
    method CompleteThenClear(sq: string)
      requires Valid() && escapeBuffer != []
      modifies this
      ensures Valid() && Model() == ConsoleModel.CompleteEscapeSeq(old(Model()).(escapeBuffer := []), sq)
    {
      ConsoleModel.CompleteEscapeSeqFrame(Model(), sq);
      ProcessCompleteEscapeSeq(sq);
      escapeBuffer := [];
    }

    /** `processCompleteEscapeSeq(escapeBuffer)` on a sequence cut short, followed by `escapeBuffer = []`. */
    method AbandonSequence()
      requires Valid() && |escapeBuffer| >= 2
      modifies this
      ensures Valid()
      ensures Model() == ConsoleModel.Log(old(Model()).(escapeBuffer := []), ConsoleModel.UnknownPrefix + old(escapeBuffer), true)
    {
      ConsoleModel.AbortedSequenceIsUnknown(escapeBuffer);
      ProcessCompleteEscapeSeq(escapeBuffer);
      escapeBuffer := [];
    }

    method ProcessCompleteEscapeSeq(sq: string)
      requires Valid()
      modifies this
      ensures Valid() && Model() == ConsoleModel.CompleteEscapeSeq(old(Model()), sq)
    {
      if |sq| < 2 || sq[0] != Esc || sq[1] != '[' {
        Log(ConsoleModel.UnknownPrefix + sq);
        return;
      }
      var finalByte := sq[|sq| - 1];
      var paramBytes := CollectParameterBytes(sq);
      var ps := Params.Parameters(paramBytes);
      assert ConsoleModel.Decode(sq) == ConsoleModel.DecodeFinal(finalByte, paramBytes);
      match finalByte
      case 'A' =>
        HistoryUpKey(ps[0]);
      case 'B' =>
        HistoryDownKey(ps[0]);
      case 'C' =>
        inPos := WordSeek.SeekRight(inBuffer, inPos, ps[0], Params.Modifier(ps));
      case 'D' =>
        inPos := WordSeek.SeekLeft(inBuffer, inPos, ps[0], Params.Modifier(ps));
      case '~' =>
        if paramBytes == ['3'] {
          DeleteForward();
        } else {
          Log(ConsoleModel.UnknownPrefix + sq);
        }
      case 'H' =>
        inPos := 0;
      case 'F' =>
        inPos := |inBuffer|;
      case _ =>
        Log(ConsoleModel.UnknownPrefix + sq);
    }

    /** `ESC [ 3 ~`: delete the character under the cursor. */
    method DeleteForward()
      requires Valid()
      modifies this
      ensures Valid() && Model() == ConsoleModel.DeleteAt(old(Model()))
    {
      if inPos < |inBuffer| {
        inBuffer := inBuffer[..inPos] + inBuffer[inPos + 1..];
      }
    }

    /** `ESC [ n A` */
    method HistoryUpKey(n: nat)
      requires Valid() && n >= 1
      modifies this
      ensures Valid() && Model() == ConsoleModel.HistoryUp(old(Model()), n)
    {
      if historyIndex == -1 {
        draft := Some(inBuffer);
      }
      historyIndex := Min(|history| - 1, historyIndex + n);
      inBuffer := ConsoleModel.HistoryEntry(history, draft, historyIndex);
      inPos := |inBuffer|;
    }

    /** `ESC [ n B` */
    method HistoryDownKey(n: nat)
      requires Valid() && n >= 1
      modifies this
      ensures Valid() && Model() == ConsoleModel.HistoryDown(old(Model()), n)
    {
      historyIndex := Max(-1, historyIndex - n);
      inBuffer := ConsoleModel.HistoryEntry(history, draft, historyIndex);
      inPos := |inBuffer|;
    }

    /** The loop of `processCompleteEscapeSeq` that keeps the parameter bytes between `ESC [` and the final byte. */
    method CollectParameterBytes(sq: string) returns (paramBytes: string)
      ensures paramBytes == Params.ParameterBytes(ConsoleModel.SequenceBody(sq))
    {
      paramBytes := [];
      var i := 2;
      while i < |sq| - 1
        invariant 2 <= i <= Max(2, |sq| - 1)
        invariant |sq| <= 2 ==> paramBytes == []
        invariant |sq| > 2 ==> paramBytes == Params.ParameterBytes(sq[2..i])
      {
        if IsParameterByte(sq[i]) {
          paramBytes := paramBytes + [sq[i]];
        }
        assert sq[2..i + 1][..i - 2] == sq[2..i];
        i := i + 1;
      }
    }

    method ProcessNormalChar(c: char)
      requires Valid() && escapeBuffer == []
      modifies this
      ensures Valid() && Model() == ConsoleModel.NormalChar(old(Model()), c)
    {
      if c != CtrlC {
        pressedControlC := false;
      }
      if c == CtrlC {
        if pressedControlC {
          terminated := true;
          return;
        }
        pressedControlC := true;
        Log("^C");
      } else if c == Esc {
        escapeBuffer := [c];
      } else if c == '\r' || c == '\n' {
        ProcessSendInput();
      } else if c == Del || c == CtrlH {
        Backspace();
      } else if c == '\t' {
        // reserved for autocompletion, which does nothing
      } else {
        TypeChar(c);
      }
    }

    /** The backspace branch of `processNormalChar`. */
    method Backspace()
      requires Valid()
      modifies this
      ensures Valid() && Model() == ConsoleModel.DeleteBefore(old(Model()))
    {
      if inPos > 0 {
        inBuffer := inBuffer[..inPos - 1] + inBuffer[inPos..];
        inPos := inPos - 1;
      }
    }

    /** The `default` branch of `processNormalChar`: echo a control character, then insert. */
    method TypeChar(c: char)
      requires Valid()
      modifies this
      ensures Valid() && Model() == ConsoleModel.TypeChar(old(Model()), c)
    {
      var matched := controlRegexLastIndex == 0 && IsControl(c);
      controlRegexLastIndex := if matched then 1 else 0;
      if matched {
        Log(CaretNotation(c));
      }
      inBuffer := inBuffer[..inPos] + [c] + inBuffer[inPos..];
      inPos := inPos + 1;
    }

    method ProcessSendInput()
      requires Valid()
      modifies this
      ensures Valid() && Model() == ConsoleModel.SendInput(old(Model()))
    {
      var line := inBuffer;
      history := [inBuffer] + history;
      historyIndex := -1;
      draft := None;
      inBuffer := [];
      inPos := 0;
      logPos := ConsoleModel.LogPos(true, 1);
      lines := lines + [line];
    }

    /** `log(str, newline = true)`: only the bookkeeping of where the output cursor is left is modelled. */
    method Log(text: string, newline: bool := true)
      requires Valid()
      modifies this
      ensures Valid() && Model() == ConsoleModel.Log(old(Model()), text, newline)
    {
      logs := logs + [text];
      if newline {
        logPos := logPos.(x := 1);
      } else {
        logPos := logPos.(x := logPos.x + |text|);
      }
      logPos := logPos.(hadNewline := newline);
    }
  }
}

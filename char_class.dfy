/**
 * Character classes the console relies on: the byte ranges of a control
 * sequence (section 5.4 of ECMA-48), the special keys, and the classes
 * `\p{General_Category=Control}`, `\w` and `\s` of JavaScript regular
 * expressions. One character is one Unicode code point.
 */
module CharClass {
  const Esc: char := 0x1B as char
  const CtrlC: char := 0x03 as char
  const CtrlH: char := 0x08 as char
  const Del: char := 0x7F as char

  /** Final byte: terminates a control sequence. */
  predicate IsFinalByte(c: char) { 0x40 <= c as int <= 0x7E }

  /** Parameter byte: digits, `;` and the private markers `:<=>?`. */
  predicate IsParameterByte(c: char) { 0x30 <= c as int <= 0x3F }

  /** Intermediate byte: space and `!"#$%&'()*+,-./`. */
  predicate IsIntermediateByte(c: char) { 0x20 <= c as int <= 0x2F }

  /** Unicode general category Cc: C0 controls, DEL and C1 controls. */
  predicate IsControl(c: char) { c as int <= 0x1F || 0x7F <= c as int <= 0x9F }

  /** The regular-expression class `\w`, that is `[A-Za-z0-9_]`. */
  predicate IsWordChar(c: char) {
    ('a' <= c <= 'z') || ('A' <= c <= 'Z') || ('0' <= c <= '9') || c == '_'
  }

  /** The regular-expression class `\s`: ECMAScript white space and line terminators. */
  predicate IsWhitespace(c: char) {
    var k := c as int;
    (0x09 <= k <= 0x0D) || k == 0x20 || k == 0xA0 || k == 0x1680 || (0x2000 <= k <= 0x200A)
    || k == 0x2028 || k == 0x2029 || k == 0x202F || k == 0x205F || k == 0x3000 || k == 0xFEFF
  }

  predicate IsDigit(c: char) { '0' <= c <= '9' }

  /** The caret echo `^X` of a control character: its code point shifted up by 0x40. */
  function CaretNotation(c: char): (r: string)
    requires IsControl(c)
    ensures |r| == 2 && r[0] == '^' && !IsControl(r[1])
    ensures c as int <= 0x1F ==> '@' <= r[1] <= '_'
    ensures r[1] as int == c as int + 0x40
  {
    ['^', (c as int + 0x40) as char]
  }
}

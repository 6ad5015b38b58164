/** Source text and program output as JavaScript sees them: sequences of UTF-16 code units. */
module Text {

  type Unit = u: int | 0 <= u < 0x1_0000
  type Text = seq<Unit>

  const TAB: Unit := 9
  const LF: Unit := 10
  const CR: Unit := 13
  const SPACE: Unit := 32
  const DOUBLE_QUOTE: Unit := 34
  const HASH: Unit := 35
  const SINGLE_QUOTE: Unit := 39
  const STAR: Unit := 42
  const DOT: Unit := 46
  const SLASH: Unit := 47
  const BACKSLASH: Unit := 92
  const UNDERSCORE: Unit := 95

  /** The code units of a literal; every literal used here is ASCII. */
  function Units(s: string): (t: Text)
    ensures |t| == |s|
  {
    seq(|s|, i requires 0 <= i < |s| => if s[i] as int < 0x1_0000 then s[i] as int else 0xFFFD)
  }

  /** The class `\s`, which is also what `String.prototype.trim` removes. */
  predicate IsSpace(c: Unit) {
    9 <= c <= 13 || c == 32 || c == 0xA0 || c == 0x1680 || 0x2000 <= c <= 0x200A ||
    c == 0x2028 || c == 0x2029 || c == 0x202F || c == 0x205F || c == 0x3000 || c == 0xFEFF
  }

  /** The units that `.` does not match. */
  predicate IsLineTerminator(c: Unit) {
    c == LF || c == CR || c == 0x2028 || c == 0x2029
  }

  predicate IsDigit(c: Unit) {
    48 <= c <= 57
  }

  predicate IsWordStart(c: Unit) {
    65 <= c <= 90 || 97 <= c <= 122 || c == UNDERSCORE
  }

  predicate IsWordUnit(c: Unit) {
    IsWordStart(c) || IsDigit(c)
  }
}

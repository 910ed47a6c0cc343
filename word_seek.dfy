/**
 * Cursor motion for the arrow keys `ESC [ n C` and `ESC [ n D`. With a
 * second parameter of 5 or 6 the motion continues to a boundary: a character
 * outside `[A-Za-z0-9_]` for 5, a white-space character for 6. The boundary is
 * found with `findIndex` on a slice of the buffer (reversed when moving left).
 */
module WordSeek {
  import opened Wrappers
  import opened CharClass
  import opened JsSemantics

  /** The character a word motion stops at: `/\s/` for modifier 6, `/[^\w]/` otherwise. */
  predicate IsBoundary(c: char, modifier: nat): (r: bool)
    ensures modifier != 6 ==> (r <==> !IsWordChar(c))
    ensures modifier == 6 ==> (r <==> IsWhitespace(c))
  {
    if modifier == 6 then IsWhitespace(c) else !IsWordChar(c)
  }

  /** Every white-space character is also a boundary of a word motion with modifier 5. */
  lemma WhitespaceIsWordBoundary(c: char)
    requires IsWhitespace(c)
    ensures IsBoundary(c, 5)
  {
  }

  /** Modifiers 5 and 6 turn an arrow key into a word motion. */
  predicate IsWordMotion(modifier: Option<nat>): (r: bool)
    ensures r <==> modifier.Some? && (modifier.value == 5 || modifier.value == 6)
  {
    modifier == Some(5) || modifier == Some(6)
  }

  /** `s.findIndex(x => IsBoundary(x))`: the first boundary, or -1. */
  function FindBoundary(s: string, modifier: nat): (r: int)
    ensures -1 <= r < |s|
    ensures r >= 0 ==> IsBoundary(s[r], modifier)
    ensures forall j :: 0 <= j < |s| && (r == -1 || j < r) ==> !IsBoundary(s[j], modifier)
    decreases |s|
  {
    if s == [] then -1
    else if IsBoundary(s[0], modifier) then 0
    else
      var k := FindBoundary(s[1..], modifier);
      if k == -1 then -1 else k + 1
  }

  /**
   * Cursor right by `n`. A plain motion stops at the end of the buffer; a word
   * motion goes on from `pos + n` to the first boundary, which it lands on, or
   * to the end when there is none.
   */
  function SeekRight(buf: string, pos: nat, n: nat, modifier: Option<nat>): (r: nat)
    ensures r <= |buf|
    ensures !IsWordMotion(modifier) ==> r == Min(|buf|, pos + n)
    ensures IsWordMotion(modifier) ==>
      && Min(|buf|, pos + n) <= r
      && (r == |buf| || IsBoundary(buf[r], modifier.value))
      && forall j :: pos + n <= j < r ==> !IsBoundary(buf[j], modifier.value)
  {
    var target := pos + n;
    var moved :=
      if IsWordMotion(modifier) then
        var w := FindBoundary(SliceFrom(buf, target), modifier.value);
        if w == -1 then |buf| else target + w
      else target;
    Min(|buf|, moved)
  }

  /**
   * Cursor left by `n`. A plain motion stops at the start of the buffer; a word
   * motion goes on from `pos - n` to just after the nearest boundary before it,
   * or to the start when there is none.
   */
  function SeekLeft(buf: string, pos: nat, n: nat, modifier: Option<nat>): (r: nat)
    requires pos <= |buf|
    ensures r <= pos
    ensures !IsWordMotion(modifier) ==> r == Max(0, pos - n)
    ensures IsWordMotion(modifier) ==>
      && r <= Max(0, pos - n)
      && (r == 0 || IsBoundary(buf[r - 1], modifier.value))
      && forall j :: r <= j < pos - n ==> !IsBoundary(buf[j], modifier.value)
  {
    var target := pos - n;
    var moved :=
      if IsWordMotion(modifier) then
        var before := SliceTo(buf, target);
        BackwardScan(buf, target, modifier.value);
        var w := FindBoundary(Reversed(before), modifier.value);
        if w == -1 then 0 else target - w
      else target;
    Max(0, moved)
  }

  /** Reading `buf[..target]` reversed, index `i` is the character just `i` before `target`. */
  lemma BackwardScan(buf: string, target: int, modifier: nat)
    requires target <= |buf|
    ensures target >= 0 ==> var w := FindBoundary(Reversed(buf[..target]), modifier);
      && (w >= 0 ==> IsBoundary(buf[target - 1 - w], modifier))
      && forall j :: (if w == -1 then 0 else target - w) <= j < target ==> !IsBoundary(buf[j], modifier)
  {
    if target < 0 {
      return;
    }
    var rev := Reversed(buf[..target]);
    var w := FindBoundary(rev, modifier);
    forall j | (if w == -1 then 0 else target - w) <= j < target
      ensures !IsBoundary(buf[j], modifier)
    {
      ReversedPrefixAt(buf, target, j);
    }
    if w >= 0 {
      ReversedPrefixAt(buf, target, target - 1 - w);
    }
  }

  /** Index `target - 1 - j` of the reversed prefix `buf[..target]` holds `buf[j]`. */
  lemma ReversedPrefixAt(buf: string, target: int, j: int)
    requires 0 <= j < target <= |buf|
    ensures Reversed(buf[..target])[target - 1 - j] == buf[j]
  {
  }
}

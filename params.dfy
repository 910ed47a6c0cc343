/**
 * Parameter handling of a control sequence: only the parameter bytes are
 * kept, they are split on `;`, and each field is read as `parseInt(field) || 1`.
 */
module Params {
  import opened Wrappers
  import opened CharClass

  /** The parameter bytes of a sequence body, in order; intermediate and other bytes are dropped. */
  function ParameterBytes(body: string): (r: string)
    ensures |r| <= |body|
    ensures forall i :: 0 <= i < |r| ==> IsParameterByte(r[i])
    ensures (forall i :: 0 <= i < |body| ==> IsParameterByte(body[i])) ==> r == body
    ensures (forall i :: 0 <= i < |body| ==> !IsParameterByte(body[i])) ==> r == []
    decreases |body|
  {
    if body == [] then []
    else
      var last := body[|body| - 1];
      ParameterBytes(body[..|body| - 1]) + (if IsParameterByte(last) then [last] else [])
  }

  /** Taking the parameter bytes commutes with concatenation, so every parameter byte is kept, in order. */
  lemma {:induction false} ParameterBytesAppend(a: string, b: string)
    ensures ParameterBytes(a + b) == ParameterBytes(a) + ParameterBytes(b)
    decreases |b|
  {
    if b == [] {
      assert a + b == a;
    } else {
      var init := b[..|b| - 1];
      ParameterBytesAppend(a, init);
      assert (a + b)[..|a + b| - 1] == a + init;
      assert (a + b)[|a + b| - 1] == b[|b| - 1];
    }
  }

  /** `s.split(';')`: the fields between semicolons; there is always at least one. */
  function SplitFields(s: string): (r: seq<string>)
    ensures |r| >= 1
    ensures forall i :: 0 <= i < |r| ==> ';' !in r[i]
    decreases |s|
  {
    if s == [] then [[]]
    else
      var rest := SplitFields(s[1..]);
      if s[0] == ';' then [[]] + rest
      else [[s[0]] + rest[0]] + rest[1..]
  }

  /** `fields.join(';')` */
  function JoinFields(fields: seq<string>): string
    decreases |fields|
  {
    if fields == [] then []
    else if |fields| == 1 then fields[0]
    else fields[0] + [';'] + JoinFields(fields[1..])
  }

  /** Joining the fields of a split gives back the string. */
  lemma {:induction false} SplitThenJoin(s: string)
    ensures JoinFields(SplitFields(s)) == s
    decreases |s|
  {
    if s != [] {
      var rest := SplitFields(s[1..]);
      SplitThenJoin(s[1..]);
      if s[0] == ';' {
        assert SplitFields(s) == [[]] + rest;
        assert JoinFields(SplitFields(s)) == [] + [';'] + JoinFields(rest);
      } else {
        var r := SplitFields(s);
        assert r == [[s[0]] + rest[0]] + rest[1..];
        if |rest| == 1 {
          assert JoinFields(r) == [s[0]] + rest[0];
        } else {
          assert r[1..] == rest[1..];
          assert JoinFields(r) == [s[0]] + rest[0] + [';'] + JoinFields(rest[1..]);
          assert JoinFields(rest) == rest[0] + [';'] + JoinFields(rest[1..]);
        }
        assert s == [s[0]] + s[1..];
      }
    }
  }

  /** Splitting a field without `;` followed by more text extends the first field. */
  lemma {:induction false} SplitFieldPrefix(a: string, t: string)
    requires ';' !in a
    ensures SplitFields(a + t) == [a + SplitFields(t)[0]] + SplitFields(t)[1..]
    decreases |a|
  {
    if a != [] {
      assert (a + t)[1..] == a[1..] + t;
      assert a[0] != ';' by { assert a[0] in a; }
      SplitFieldPrefix(a[1..], t);
      var st := SplitFields(t);
      var rest := SplitFields(a[1..] + t);
      assert rest[0] == a[1..] + st[0] && rest[1..] == st[1..];
      assert SplitFields(a + t) == [[a[0]] + rest[0]] + rest[1..];
      assert [a[0]] + (a[1..] + st[0]) == a + st[0];
    } else {
      var r := SplitFields(t);
      assert a + t == t;
      assert [] + r[0] == r[0];
      assert r == [r[0]] + r[1..];
    }
  }

  /** Splitting joined fields that hold no `;` gives back the fields. */
  lemma {:induction false} JoinThenSplit(fields: seq<string>)
    requires |fields| >= 1
    requires forall i :: 0 <= i < |fields| ==> ';' !in fields[i]
    ensures SplitFields(JoinFields(fields)) == fields
    decreases |fields|
  {
    if |fields| == 1 {
      SplitFieldPrefix(fields[0], []);
      assert fields[0] + [] == fields[0];
    } else {
      var tail := JoinFields(fields[1..]);
      JoinThenSplit(fields[1..]);
      assert ';' !in fields[0];
      SplitFieldPrefix(fields[0], [';'] + tail);
      assert ([';'] + tail)[1..] == tail;
      var st := SplitFields([';'] + tail);
      assert st == [[]] + SplitFields(tail);
      assert st[0] == [] && st[1..] == fields[1..];
      assert fields[0] + st[0] == fields[0];
      assert JoinFields(fields) == fields[0] + [';'] + tail;
      assert fields[0] + [';'] + tail == fields[0] + ([';'] + tail);
      assert fields == [fields[0]] + fields[1..];
    }
  }

  /** The longest prefix of decimal digits. */
  function LeadingDigits(s: string): (r: string)
    ensures r <= s
    ensures forall i :: 0 <= i < |r| ==> IsDigit(r[i])
    ensures |r| < |s| ==> !IsDigit(s[|r|])
    decreases |s|
  {
    if s != [] && IsDigit(s[0]) then [s[0]] + LeadingDigits(s[1..]) else []
  }

  /** The number a string of decimal digits denotes. */
  function DecimalValue(digits: string): nat
    requires forall i :: 0 <= i < |digits| ==> IsDigit(digits[i])
    decreases |digits|
  {
    if digits == [] then 0
    else
      assert IsDigit(digits[|digits| - 1]);
      10 * DecimalValue(digits[..|digits| - 1]) + (digits[|digits| - 1] as int - '0' as int)
  }

  /** The decimal numeral of `n`, as a terminal writes a count. */
  function DecimalString(n: nat): (r: string)
    ensures |r| >= 1
    ensures forall i :: 0 <= i < |r| ==> IsDigit(r[i])
  {
    if n < 10 then [(n + '0' as int) as char]
    else DecimalString(n / 10) + [((n % 10) + '0' as int) as char]
  }

  /** Reading back the numeral of `n` gives `n`. */
  lemma {:induction false} DecimalRoundTrip(n: nat)
    ensures DecimalValue(DecimalString(n)) == n
  {
    if n >= 10 {
      DecimalRoundTrip(n / 10);
      var d := DecimalString(n);
      assert d[..|d| - 1] == DecimalString(n / 10);
    }
  }

  /** The leading digits of a numeral followed by a non-digit are the numeral. */
  lemma {:induction false} LeadingDigitsOfNumeral(d: string, rest: string)
    requires forall i :: 0 <= i < |d| ==> IsDigit(d[i])
    requires rest == [] || !IsDigit(rest[0])
    ensures LeadingDigits(d + rest) == d
    decreases |d|
  {
    if d == [] {
      assert d + rest == rest;
    } else {
      assert (d + rest)[1..] == d[1..] + rest;
      LeadingDigitsOfNumeral(d[1..], rest);
      assert d == [d[0]] + d[1..];
    }
  }

  /** One count: `parseInt(field) || 1`, so a missing, non-numeric or zero field reads as 1. */
  function Count(field: string): (n: nat)
    ensures n >= 1
    ensures n == DecimalValue(LeadingDigits(field)) || n == 1
    ensures DecimalValue(LeadingDigits(field)) >= 1 ==> n == DecimalValue(LeadingDigits(field))
  {
    var v := DecimalValue(LeadingDigits(field));
    if v == 0 then 1 else v
  }

  /** A field holding the numeral of a positive count, then anything that is not a digit, reads as that count. */
  lemma CountOfNumeral(n: nat, rest: string)
    requires n >= 1
    requires rest == [] || !IsDigit(rest[0])
    ensures Count(DecimalString(n) + rest) == n
  {
    LeadingDigitsOfNumeral(DecimalString(n), rest);
    DecimalRoundTrip(n);
  }

  /** `paramStr.split(';').map(x => parseInt(x) || 1)` */
  function Parameters(paramStr: string): (ps: seq<nat>)
    ensures |ps| == |SplitFields(paramStr)|
    ensures forall i :: 0 <= i < |ps| ==> ps[i] >= 1
    ensures forall i :: 0 <= i < |ps| ==> ps[i] == Count(SplitFields(paramStr)[i])
  {
    var fields := SplitFields(paramStr);
    seq(|fields|, i requires 0 <= i < |fields| => Count(fields[i]))
  }

  /** The second parameter, `undefined` when there is none. */
  function Modifier(ps: seq<nat>): (m: Option<nat>)
    ensures m.Some? <==> |ps| >= 2
    ensures m.Some? ==> m.value == ps[1]
  {
    if |ps| >= 2 then Some(ps[1]) else None
  }

  /** A numeral holds no `;`. */
  lemma NumeralHasNoSeparator(d: string)
    requires forall i :: 0 <= i < |d| ==> IsDigit(d[i])
    ensures ';' !in d
  {
    forall i | 0 <= i < |d| ensures d[i] != ';' {
      assert IsDigit(d[i]);
    }
  }

  /** `ESC [ n ; m X` carries exactly the counts `n` and `m`. */
  lemma ParametersOfPair(n: nat, m: nat)
    requires n >= 1 && m >= 1
    ensures Parameters(DecimalString(n) + [';'] + DecimalString(m)) == [n, m]
  {
    var dn, dm := DecimalString(n), DecimalString(m);
    NumeralHasNoSeparator(dn);
    NumeralHasNoSeparator(dm);
    assert JoinFields([dn, dm]) == dn + [';'] + dm;
    JoinThenSplit([dn, dm]);
    CountOfNumeral(n, []);
    CountOfNumeral(m, []);
    assert dn + [] == dn && dm + [] == dm;
  }

  /** Digits that are all `0` denote 0. */
  lemma {:induction false} ZerosValue(d: string)
    requires forall i :: 0 <= i < |d| ==> d[i] == '0'
    ensures DecimalValue(d) == 0
    decreases |d|
  {
    if d != [] {
      ZerosValue(d[..|d| - 1]);
    }
  }

  /** A field that does not start with a digit, or whose leading digits are all `0`, counts as 1. */
  lemma ZeroOrMissingCountsOne(field: string)
    requires forall i :: 0 <= i < |LeadingDigits(field)| ==> LeadingDigits(field)[i] == '0'
    ensures Count(field) == 1
  {
    ZerosValue(LeadingDigits(field));
  }

  /** A single numeral `n` reads as exactly `[n]`. */
  lemma ParametersOfSingle(n: nat)
    requires n >= 1
    ensures Parameters(DecimalString(n)) == [n]
  {
    var d := DecimalString(n);
    NumeralHasNoSeparator(d);
    JoinThenSplit([d]);
    CountOfNumeral(n, []);
    assert d + [] == d;
  }

  /** With no parameter bytes at all the single count is 1. */
  lemma ParametersOfEmpty()
    ensures Parameters([]) == [1]
  {
  }
}

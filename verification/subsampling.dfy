/**
 The chroma-subsampling argument of the comparator: a string such as
 "4:2:0" that must match `[0-9]:[0-9]:[0-9]` as a whole, and whose three
 ':'-separated fields are then converted to the numbers J, a and b.
 */
module Subsampling {
  import opened Common

  /** The J:a:b triple the command line supplies. */
  datatype Notation = Notation(j: nat, a: nat, b: nat)

  predicate IsDigit(c: char) {
    '0' <= c <= '9'
  }

  predicate AllDigits(s: string) {
    forall i :: 0 <= i < |s| ==> IsDigit(s[i])
  }

  function DigitValue(c: char): (d: nat)
    requires IsDigit(c)
    ensures d < 10
  {
    c as int - '0' as int
  }

  function DigitChar(d: nat): (c: char)
    requires d < 10
    ensures IsDigit(c) && DigitValue(c) == d
  {
    ('0' as int + d) as char
  }

  /** `stoi` on a non-empty run of decimal digits. */
  function DecimalValue(s: string): nat
    requires |s| > 0 && AllDigits(s)
  {
    if |s| == 1 then DigitValue(s[0])
    else 10 * DecimalValue(s[..|s| - 1]) + DigitValue(s[|s| - 1])
  }

  /** `regex_match(s, regex("[0-9]:[0-9]:[0-9]"))`: the whole string must match. */
  predicate MatchesPattern(s: string) {
    && |s| == 5
    && IsDigit(s[0]) && s[1] == ':'
    && IsDigit(s[2]) && s[3] == ':'
    && IsDigit(s[4])
  }

  /** The fields of `s` separated by `sep`, in order, as repeated
      `getline(iss, component, sep)` calls deliver them; `field` is the part
      of the current field already consumed. */
  function SplitFrom(s: string, sep: char, field: string): seq<string>
    decreases |s|
  {
    if |s| == 0 then [field]
    else if s[0] == sep then [field] + SplitFrom(s[1..], sep, [])
    else SplitFrom(s[1..], sep, field + [s[0]])
  }

  function Split(s: string, sep: char): seq<string> {
    SplitFrom(s, sep, [])
  }

  /** On a string of the accepted shape the three fields are the three digits. */
  lemma SplitPattern(s: string)
    requires MatchesPattern(s)
    ensures Split(s, ':') == [[s[0]], [s[2]], [s[4]]]
  {
    assert s[0] != ':' && s[2] != ':' && s[4] != ':';
    var t4 := s[4..];
    assert t4[0] == s[4] && t4[1..] == [];
    assert [] + [s[4]] == [s[4]];
    assert SplitFrom(t4, ':', []) == SplitFrom([], ':', [s[4]]) == [[s[4]]];
    var t3 := s[3..];
    assert t3[0] == ':' && t3[1..] == t4;
    assert SplitFrom(t3, ':', [s[2]]) == [[s[2]]] + [[s[4]]];
    var t2 := s[2..];
    assert t2[0] == s[2] && t2[1..] == t3;
    assert [] + [s[2]] == [s[2]];
    assert SplitFrom(t2, ':', []) == SplitFrom(t3, ':', [s[2]]);
    var t1 := s[1..];
    assert t1[0] == ':' && t1[1..] == t2;
    assert SplitFrom(t1, ':', [s[0]]) == [[s[0]]] + SplitFrom(t2, ':', []);
    assert s[1..] == t1;
    assert [] + [s[0]] == [s[0]];
    assert SplitFrom(s, ':', []) == SplitFrom(t1, ':', [s[0]]);
  }

  /** Parses the subsampling argument: `None` is the "invalid format" exit,
      otherwise J, a and b are the three digits in order. */
  function Parse(s: string): (r: Option<Notation>)
    ensures r.Some? <==> MatchesPattern(s)
    ensures r.Some? ==> r.value == Notation(DigitValue(s[0]), DigitValue(s[2]), DigitValue(s[4]))
  {
    if !MatchesPattern(s) then None
    else
      var fields := Split(s, ':');
      SplitPattern(s);
      Some(Notation(DecimalValue(fields[0]), DecimalValue(fields[1]), DecimalValue(fields[2])))
  }

  /** Single-digit triples: the only ones the pattern can produce. */
  predicate IsDigitNotation(n: Notation) {
    n.j < 10 && n.a < 10 && n.b < 10
  }

  /** Writes a single-digit triple the way the command line spells it. */
  function Format(n: Notation): (s: string)
    requires IsDigitNotation(n)
    ensures MatchesPattern(s)
  {
    [DigitChar(n.j), ':', DigitChar(n.a), ':', DigitChar(n.b)]
  }

  /** Every accepted string denotes a single-digit triple, and printing it
      back gives the same string. */
  lemma ParseThenFormat(s: string)
    requires Parse(s).Some?
    ensures IsDigitNotation(Parse(s).value)
    ensures Format(Parse(s).value) == s
  {
    var n := Parse(s).value;
    var f := Format(n);
    assert f[0] == s[0] && f[1] == s[1] && f[2] == s[2] && f[3] == s[3] && f[4] == s[4];
  }

  /** Every single-digit triple is accepted back from its spelling. */
  lemma FormatThenParse(n: Notation)
    requires IsDigitNotation(n)
    ensures Parse(Format(n)) == Some(n)
  {
  }
}

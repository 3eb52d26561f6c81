/** The small part of .NET text handling the core relies on: decimal
    rendering of integers (string interpolation), `int.Parse` and
    `String.Split(char)`. */
module Text {
  import opened Base

  predicate IsDigit(c: char) { '0' <= c <= '9' }

  predicate AllDigits(s: string) { forall i :: 0 <= i < |s| ==> IsDigit(s[i]) }

  function DigitValue(c: char): nat
    requires IsDigit(c)
  {
    c as int - '0' as int
  }

  function DigitChar(d: nat): (c: char)
    requires d < 10
    ensures IsDigit(c) && DigitValue(c) == d
  {
    ('0' as int + d) as char
  }

  /** Decimal rendering of a natural number, most significant digit first. */
  function NatToString(n: nat): (s: string)
    ensures |s| > 0 && AllDigits(s)
    decreases n
  {
    if n < 10 then [DigitChar(n)] else NatToString(n / 10) + [DigitChar(n % 10)]
  }

  /** The value of a run of decimal digits. */
  function DigitsValue(s: string): nat
    requires AllDigits(s)
  {
    if |s| == 0 then 0 else DigitsValue(s[..|s| - 1]) * 10 + DigitValue(s[|s| - 1])
  }

  lemma {:induction false} DigitsValueOfNatToString(n: nat)
    ensures DigitsValue(NatToString(n)) == n
    decreases n
  {
    if n >= 10 {
      var s := NatToString(n);
      assert s[..|s| - 1] == NatToString(n / 10);
      DigitsValueOfNatToString(n / 10);
    }
  }

  /** How C# renders an `int` in an interpolated string. */
  function IntToString(i: int): (s: string)
    ensures |s| > 0
    ensures IsDigit(s[|s| - 1])
    ensures s[0] == '-' <==> i < 0
    ensures forall k :: 0 <= k < |s| ==> IsDigit(s[k]) || (k == 0 && s[k] == '-')
  {
    if i < 0 then "-" + NatToString(-i) else NatToString(i)
  }

  const Int32Min: int := -0x8000_0000
  const Int32Max: int := 0x7FFF_FFFF

  datatype ParseError = FormatError | OverflowError

  /** The white space `NumberStyles.Integer` allows around a number:
      U+0009 to U+000D and the space. */
  predicate IsWhite(c: char)
  {
    c == ' ' || '\t' <= c <= '\r'
  }

  function TrimStart(s: string): (t: string)
    ensures |t| <= |s| && t == s[|s| - |t|..]
    ensures |t| > 0 ==> !IsWhite(t[0])
    ensures forall k :: 0 <= k < |s| - |t| ==> IsWhite(s[k])
    decreases |s|
  {
    if |s| > 0 && IsWhite(s[0]) then TrimStart(s[1..]) else s
  }

  function TrimEnd(s: string): (t: string)
    ensures |t| <= |s| && t == s[..|t|]
    ensures |t| > 0 ==> !IsWhite(t[|t| - 1])
    ensures forall k :: |t| <= k < |s| ==> IsWhite(s[k])
    decreases |s|
  {
    if |s| > 0 && IsWhite(s[|s| - 1]) then TrimEnd(s[..|s| - 1]) else s
  }

  /** The number once the surrounding white space is gone: an optional
      sign, then at least one decimal digit, denoting a 32-bit value. */
  function ParseTrimmed(s: string): (r: Result<int, ParseError>)
    ensures r.Ok? ==> Int32Min <= r.value <= Int32Max
    ensures r.Ok? ==> |s| > 0 && (IsDigit(s[0]) || s[0] == '-' || s[0] == '+')
  {
    var body := if |s| > 0 && (s[0] == '-' || s[0] == '+') then s[1..] else s;
    if |body| == 0 || !AllDigits(body) then Err(FormatError)
    else
      var v: int := if s[0] == '-' then -(DigitsValue(body) as int) else DigitsValue(body);
      if v < Int32Min || v > Int32Max then Err(OverflowError) else Ok(v)
  }

  /** C# `int.Parse(string)`: white space around the number is ignored. */
  function ParseInt(s: string): (r: Result<int, ParseError>)
    ensures r.Ok? ==> Int32Min <= r.value <= Int32Max
    ensures (forall k :: 0 <= k < |s| ==> IsWhite(s[k])) ==> r == Err(FormatError)
    ensures r.Ok? ==> exists k :: 0 <= k < |s| && (IsDigit(s[k]) || s[k] == '-' || s[k] == '+')
  {
    var t := TrimEnd(TrimStart(s));
    var r := ParseTrimmed(t);
    if r.Ok? then
      var u := TrimStart(s);
      assert t[0] == u[0] == s[|s| - |u|];
      r
    else r
  }

  /** Parsing the rendering of a 32-bit integer gives that integer back. */
  lemma ParseIntOfIntToString(i: int)
    requires Int32Min <= i <= Int32Max
    ensures ParseInt(IntToString(i)) == Ok(i)
  {
    RenderedIsTrimmed(i);
    ParseTrimmedOfIntToString(i);
  }

  /** A rendered integer has no white space to trim. */
  lemma RenderedIsTrimmed(i: int)
    ensures TrimStart(IntToString(i)) == IntToString(i)
    ensures TrimEnd(IntToString(i)) == IntToString(i)
  {
    var s := IntToString(i);
    assert !IsWhite(s[0]) by {
      assert IsDigit(s[0]) || s[0] == '-';
    }
    assert !IsWhite(s[|s| - 1]);
  }

  lemma ParseTrimmedOfIntToString(i: int)
    requires Int32Min <= i <= Int32Max
    ensures ParseTrimmed(IntToString(i)) == Ok(i)
  {
    var s := IntToString(i);
    if i < 0 {
      var body := NatToString(-i);
      assert s == "-" + body && s[1..] == body;
      DigitsValueOfNatToString(-i);
    } else {
      var body := NatToString(i);
      assert s == body && IsDigit(s[0]);
      DigitsValueOfNatToString(i);
    }
  }

  /** Position of the first occurrence of `c` in `s`. */
  function IndexOf(s: string, c: char): (i: nat)
    requires c in s
    ensures i < |s| && s[i] == c
    ensures forall k :: 0 <= k < i ==> s[k] != c
  {
    if s[0] == c then 0 else 1 + IndexOf(s[1..], c)
  }

  /** C# `String.Split(char)`: every occurrence of the separator cuts, and
      empty pieces are kept. */
  function Split(s: string, sep: char): (parts: seq<string>)
    ensures |parts| >= 1
    ensures forall k :: 0 <= k < |parts| ==> sep !in parts[k]
    decreases |s|
  {
    if sep !in s then [s]
    else
      var i := IndexOf(s, sep);
      assert sep !in s[..i];
      [s[..i]] + Split(s[i + 1..], sep)
  }

  /** C# `String.Join(char, parts)`, the inverse of `Split`. */
  function Join(parts: seq<string>, sep: char): string
    requires |parts| >= 1
  {
    if |parts| == 1 then parts[0] else parts[0] + [sep] + Join(parts[1..], sep)
  }

  /** Splitting stops at the first separator. */
  lemma SplitCons(a: string, sep: char, rest: string)
    requires sep !in a
    ensures Split(a + [sep] + rest, sep) == [a] + Split(rest, sep)
  {
    var s := a + [sep] + rest;
    assert s[|a|] == sep;
    assert forall k :: 0 <= k < |a| ==> s[k] == a[k];
    var i := IndexOf(s, sep);
    assert i == |a|;
    assert s[..i] == a;
    assert s[i + 1..] == rest;
  }

  /** Joining the pieces of a split restores the text. */
  lemma {:induction false} JoinSplit(s: string, sep: char)
    ensures Join(Split(s, sep), sep) == s
    decreases |s|
  {
    if sep in s {
      var i := IndexOf(s, sep);
      var rest := Split(s[i + 1..], sep);
      assert Split(s, sep) == [s[..i]] + rest;
      assert ([s[..i]] + rest)[1..] == rest;
      JoinSplit(s[i + 1..], sep);
      assert s == s[..i] + [sep] + s[i + 1..];
    }
  }

  /** Splitting a join of separator-free pieces gives the pieces back. */
  lemma {:induction false} SplitJoin(parts: seq<string>, sep: char)
    requires |parts| >= 1
    requires forall k :: 0 <= k < |parts| ==> sep !in parts[k]
    ensures Split(Join(parts, sep), sep) == parts
    decreases |parts|
  {
    if |parts| > 1 {
      SplitJoin(parts[1..], sep);
      SplitCons(parts[0], sep, Join(parts[1..], sep));
      assert parts == [parts[0]] + parts[1..];
    }
  }
}

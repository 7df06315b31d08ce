/** The few pieces of the Java platform the games lean on, written out: 32-bit int
    arithmetic, String.trim, Integer.parseInt / Integer.toString, String.split with a
    limit, and how BufferedReader.readLine cuts a text into lines. */
module JavaLang {

  /** A value that may be absent: a Java null, or a parse that threw. */
  datatype Option<T> = None | Some(value: T)

  // ---------------------------------------------------------------- int

  const INT_MIN: int := -0x8000_0000
  const INT_MAX: int := 0x7fff_ffff

  predicate IsInt(x: int) { INT_MIN <= x <= INT_MAX }

  /** Two's-complement wrap-around of a mathematical result into a Java int. */
  function Wrap(x: int): (r: int)
    ensures IsInt(r)
    ensures (r - x) % 0x1_0000_0000 == 0
    ensures IsInt(x) ==> r == x
  {
    (x - INT_MIN) % 0x1_0000_0000 + INT_MIN
  }

  /** Java's `/` on int: the quotient truncated toward zero (no overflow case is used here). */
  function Div(x: int, d: int): (q: int)
    requires d > 0
    ensures x >= 0 ==> q == x / d
    ensures x < 0 ==> q == -((-x) / d)
  {
    if x >= 0 then x / d else -((-x) / d)
  }

  /** Java's `%` on int: the remainder takes the sign of the dividend. */
  function Rem(x: int, d: int): (m: int)
    requires d > 0
    ensures Div(x, d) * d + m == x
    ensures x >= 0 ==> 0 <= m < d
    ensures x < 0 ==> -d < m <= 0
  {
    if x >= 0 then x % d else -((-x) % d)
  }

  /** Java's `/` truncates toward zero: the quotient is the largest multiple of d at or
      below a non-negative dividend, and the smallest at or above a negative one. */
  lemma DivTruncates(x: int, d: int)
    requires d > 0
    ensures var q := Div(x, d);
      (x >= 0 ==> 0 <= q && q * d <= x < q * d + d) && (x < 0 ==> q <= 0 && q * d - d < x <= q * d)
  {
    var q, m := Div(x, d), Rem(x, d);
    assert q * d + m == x;
  }

  // ---------------------------------------------------------------- String.trim

  /** String.trim treats every char up to U+0020 as space. */
  predicate IsSpace(c: char) { c <= ' ' }

  function TrimStart(s: string): (r: string)
    ensures |r| <= |s| && r == s[|s| - |r|..]
    ensures r != [] ==> !IsSpace(r[0])
    ensures forall i :: 0 <= i < |s| - |r| ==> IsSpace(s[i])
  {
    if s != [] && IsSpace(s[0]) then
      var r := TrimStart(s[1..]);
      assert forall i :: 1 <= i < |s| ==> s[1..][i - 1] == s[i];
      r
    else s
  }

  function TrimEnd(s: string): (r: string)
    ensures |r| <= |s| && r == s[..|r|]
    ensures r != [] ==> !IsSpace(r[|r| - 1])
    ensures forall i :: |r| <= i < |s| ==> IsSpace(s[i])
  {
    if s != [] && IsSpace(s[|s| - 1]) then TrimEnd(s[..|s| - 1]) else s
  }

  /** Number of space chars String.trim drops from the front of s. */
  function LeadingSpaces(s: string): (k: nat)
    ensures k <= |s| && TrimStart(s) == s[k..]
  {
    |s| - |TrimStart(s)|
  }

  /** String.trim: s without its leading and trailing chars up to U+0020. */
  function Trim(s: string): (r: string)
    ensures LeadingSpaces(s) + |r| <= |s| && r == s[LeadingSpaces(s)..LeadingSpaces(s) + |r|]
    ensures forall i :: 0 <= i < LeadingSpaces(s) ==> IsSpace(s[i])
    ensures forall i :: LeadingSpaces(s) + |r| <= i < |s| ==> IsSpace(s[i])
    ensures r != [] ==> !IsSpace(r[0]) && !IsSpace(r[|r| - 1])
  {
    var k := LeadingSpaces(s);
    var r := TrimEnd(s[k..]);
    SuffixPrefix(s, k, r);
    r
  }

  /** String.trim of a string that ends in a non-space char and has another at p keeps
      everything from p on. */
  lemma TrimKeepsFrom(s: string, p: nat)
    requires p < |s| && !IsSpace(s[p]) && !IsSpace(s[|s| - 1])
    ensures LeadingSpaces(s) <= p && Trim(s) == s[LeadingSpaces(s)..]
  {
  }

  /** A string that neither starts nor ends with a space is its own trim. */
  lemma TrimUnchanged(s: string)
    requires s != [] && !IsSpace(s[0]) && !IsSpace(s[|s| - 1])
    ensures Trim(s) == s
  {
    assert LeadingSpaces(s) == 0;
    assert |Trim(s)| == |s|;
  }

  /** The end-trim of the suffix s[k..] as a slice of s: its chars, and the spaces after it. */
  lemma SuffixPrefix(s: string, k: nat, r: string)
    requires k <= |s| && r == TrimEnd(s[k..])
    ensures k + |r| <= |s| && r == s[k..k + |r|]
    ensures forall i :: k + |r| <= i < |s| ==> IsSpace(s[i])
  {
    var t := s[k..];
    forall i | k + |r| <= i < |s| ensures IsSpace(s[i]) {
      assert s[i] == t[i - k];
    }
  }

  // ---------------------------------------------------------------- decimal digits

  predicate IsDigit(c: char) { '0' <= c <= '9' }

  predicate AllDigits(s: string) { forall i :: 0 <= i < |s| ==> IsDigit(s[i]) }

  function DigitChar(d: nat): (c: char)
    requires d < 10
    ensures IsDigit(c)
  {
    ['0', '1', '2', '3', '4', '5', '6', '7', '8', '9'][d]
  }

  function DigitValue(c: char): (d: nat)
    requires IsDigit(c)
    ensures d < 10 && DigitChar(d) == c
  {
    (c as int - '0' as int)
  }

  /** The number a string of decimal digits denotes, most significant digit first. */
  function DigitsValue(s: string): nat
    requires AllDigits(s)
  {
    if s == [] then 0 else DigitsValue(s[..|s| - 1]) * 10 + DigitValue(s[|s| - 1])
  }

  /** The decimal digits of n without leading zeros, as Integer.toString writes them. */
  function NatToString(n: nat): (s: string)
    ensures s != [] && AllDigits(s)
    ensures |s| > 1 ==> s[0] != '0'
  {
    if n < 10 then [DigitChar(n)] else NatToString(n / 10) + [DigitChar(n % 10)]
  }

  lemma {:induction false} NatToStringValue(n: nat)
    ensures DigitsValue(NatToString(n)) == n
  {
    if n >= 10 {
      var s := NatToString(n);
      NatToStringValue(n / 10);
      assert s[..|s| - 1] == NatToString(n / 10);
    }
  }

  /** Integer.toString. */
  function IntToString(n: int): (s: string)
    ensures s != [] && (s[0] == '-' <==> n < 0)
  {
    if n < 0 then "-" + NatToString(-n) else NatToString(n)
  }

  /** Integer.parseInt over ASCII digits: an optional sign, at least one digit, and a value
      that fits in an int; anything else throws NumberFormatException, here None. */
  function ParseInt(s: string): (r: Option<int>)
    ensures r.Some? ==> IsInt(r.value)
    ensures r.Some? ==> s != [] && (r.value < 0 ==> s[0] == '-')
  {
    if s == [] then None
    else if s[0] == '-' || s[0] == '+' then
      if |s| == 1 || !AllDigits(s[1..]) then None
      else
        var v: int := if s[0] == '-' then -(DigitsValue(s[1..]) as int) else DigitsValue(s[1..]);
        if IsInt(v) then Some(v) else None
    else if !AllDigits(s) then None
    else if DigitsValue(s) <= INT_MAX then Some(DigitsValue(s))
    else None
  }

  /** Integer.toString writes only a minus sign and decimal digits, ending in a digit. */
  lemma IntToStringChars(n: int)
    ensures forall i :: 0 <= i < |IntToString(n)| ==> IntToString(n)[i] == '-' || IsDigit(IntToString(n)[i])
    ensures IsDigit(IntToString(n)[|IntToString(n)| - 1])
  {
    if n < 0 {
      var t := NatToString(-n);
      assert forall i :: 1 <= i < |"-" + t| ==> ("-" + t)[i] == t[i - 1];
    }
  }

  /** Integer.parseInt reads back every int Integer.toString writes. */
  lemma ParseIntToString(n: int)
    requires IsInt(n)
    ensures ParseInt(IntToString(n)) == Some(n)
  {
    if n < 0 {
      ParseNegative(-n);
    } else {
      ParseNatural(n);
    }
  }

  lemma ParseNatural(n: nat)
    requires n <= INT_MAX
    ensures ParseInt(NatToString(n)) == Some(n)
  {
    var s := NatToString(n);
    assert IsDigit(s[0]);
    NatToStringValue(n);
  }

  lemma ParseNegative(n: nat)
    requires 0 < n <= -INT_MIN
    ensures ParseInt("-" + NatToString(n)) == Some(-(n as int))
  {
    var t := NatToString(n);
    var s := "-" + t;
    assert s[0] == '-' && s[1..] == t;
    NatToStringValue(n);
  }

  /** A parsed string carries no char at or below U+0020. */
  lemma ParsedHasNoSpace(s: string)
    requires ParseInt(s).Some?
    ensures forall i :: 0 <= i < |s| ==> !IsSpace(s[i])
  {
    if s[0] == '-' || s[0] == '+' {
      forall i | 1 <= i < |s| ensures !IsSpace(s[i]) {
        assert s[i] == s[1..][i - 1];
      }
    }
  }

  /** Integer.parseInt accepts only digits and a leading sign: a string holding any other
      char is refused. */
  lemma ParsedChars(s: string, i: nat)
    requires i < |s| && !IsDigit(s[i]) && s[i] != '-' && s[i] != '+'
    ensures ParseInt(s).None?
  {
    if 0 < i && |s| > 1 {
      assert s[i] == s[1..][i - 1];
    }
  }

  // ---------------------------------------------------------------- String.split(sep, 3)

  /** Index of the first occurrence of c in s, or |s| when there is none. */
  function IndexOf(s: string, c: char): (k: nat)
    ensures k <= |s|
    ensures k < |s| ==> s[k] == c
    ensures forall i :: 0 <= i < k ==> s[i] != c
  {
    if s == [] then 0 else if s[0] == c then 0 else 1 + IndexOf(s[1..], c)
  }

  /** s.split(String.valueOf(sep), 3) for a one-character separator that is not a regex
      metacharacter: cut at the first two separators, the rest stays in the last part,
      and empty parts (leading or trailing) are kept. */
  function Split3(s: string, sep: char): (parts: seq<string>)
    ensures 1 <= |parts| <= 3
    ensures forall i :: 0 <= i < |parts| - 1 ==> sep !in parts[i]
    ensures |parts| < 3 ==> forall i :: 0 <= i < |parts| ==> sep !in parts[i]
  {
    var i := IndexOf(s, sep);
    if i == |s| then [s]
    else
      var rest := s[i + 1..];
      var j := IndexOf(rest, sep);
      if j == |rest| then [s[..i], rest] else [s[..i], rest[..j], rest[j + 1..]]
  }

  /** Splitting a joined triple gives the triple back when its first two parts hold no
      separator; the third may hold anything. */
  lemma Split3Join(a: string, b: string, c: string, sep: char)
    requires sep !in a && sep !in b
    ensures Split3(a + [sep] + b + [sep] + c, sep) == [a, b, c]
  {
    var s := a + [sep] + b + [sep] + c;
    IndexOfPrefix(a, [sep] + b + [sep] + c, sep);
    assert s == a + ([sep] + b + [sep] + c);
    var rest := s[|a| + 1..];
    assert rest == b + ([sep] + c);
    IndexOfPrefix(b, [sep] + c, sep);
  }

  lemma IndexOfPrefix(a: string, t: string, c: char)
    requires c !in a && t != [] && t[0] == c
    ensures IndexOf(a + t, c) == |a|
  {
    assert (a + t)[|a|] == c;
  }

  // ---------------------------------------------------------------- lines

  predicate IsLineBreak(c: char) { c == '\n' || c == '\r' }

  /** Index of the first line break in s, or |s|. */
  function LineEnd(s: string): (k: nat)
    ensures k <= |s| && (k < |s| ==> IsLineBreak(s[k]))
    ensures forall i :: 0 <= i < k ==> !IsLineBreak(s[i])
  {
    if s == [] || IsLineBreak(s[0]) then 0 else 1 + LineEnd(s[1..])
  }

  /** The lines BufferedReader.readLine returns one after another until it returns null:
      a line ends at "\n", "\r" or "\r\n", and a last line without a terminator still
      counts when it is not empty. */
  function ReadLines(s: string): (lines: seq<string>)
    ensures forall i :: 0 <= i < |lines| ==> forall j :: 0 <= j < |lines[i]| ==> !IsLineBreak(lines[i][j])
    decreases |s|
  {
    if s == [] then []
    else
      var k := LineEnd(s);
      if k == |s| then [s]
      else if s[k] == '\r' && k + 1 < |s| && s[k + 1] == '\n' then [s[..k]] + ReadLines(s[k + 2..])
      else [s[..k]] + ReadLines(s[k + 1..])
  }

  /** What BufferedWriter.write(line) followed by newLine() produces, line after line. */
  function WriteLines(lines: seq<string>, newline: string): (s: string)
    ensures |s| >= |newline| * |lines|
  {
    if lines == [] then [] else lines[0] + newline + WriteLines(lines[1..], newline)
  }

  predicate IsNewline(newline: string) { newline == "\n" || newline == "\r\n" }

  predicate NoLineBreak(s: string) { forall j :: 0 <= j < |s| ==> !IsLineBreak(s[j]) }

  /** Reading back what was written gives the same lines, whichever of the two platform
      line separators newLine() used, as long as no line holds a line break itself. */
  lemma {:induction false} ReadWrittenLines(lines: seq<string>, newline: string)
    requires IsNewline(newline)
    requires forall i :: 0 <= i < |lines| ==> NoLineBreak(lines[i])
    ensures ReadLines(WriteLines(lines, newline)) == lines
  {
    if lines != [] {
      ReadLineThenRest(lines[0], newline, WriteLines(lines[1..], newline));
      ReadWrittenLines(lines[1..], newline);
    }
  }

  /** readLine returns a line written with its separator, and leaves what follows. */
  lemma ReadLineThenRest(line: string, newline: string, rest: string)
    requires IsNewline(newline) && NoLineBreak(line)
    ensures ReadLines(line + newline + rest) == [line] + ReadLines(rest)
  {
    var s := line + newline + rest;
    assert s == line + (newline + rest);
    LineEndPrefix(line, newline + rest);
    assert s[..|line|] == line;
    if newline == "\n" {
      assert s[|line| + 1..] == rest;
    } else {
      assert s[|line| + 1] == '\n';
      assert s[|line| + 2..] == rest;
    }
  }

  lemma LineEndPrefix(a: string, t: string)
    requires NoLineBreak(a) && t != [] && IsLineBreak(t[0])
    ensures LineEnd(a + t) == |a|
  {
    assert (a + t)[|a|] == t[0];
  }
}

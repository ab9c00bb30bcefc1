/** Text handling shared by the three scripts: Python 2's `str.split()`,
    `" ".join(...)`, the comment-or-blank test, `int()` on a token, `"%d"`
    formatting and the byte-wise ordering `sorted()` applies to strings. */
module Text {

  datatype Option<+T> = None | Some(value: T)

  /** Whitespace as Python 2 `str.split()` and the regex class `\s` see it:
      space, and tab through carriage return (9..13). */
  predicate IsSpace(c: char)
  {
    c == ' ' || '\t' <= c <= '\r'
  }

  /** What `str.split()` can produce: a non-empty run of non-whitespace. */
  predicate IsToken(s: string)
  {
    |s| > 0 && forall i :: 0 <= i < |s| ==> !IsSpace(s[i])
  }

  /** The longest whitespace-free prefix of `s`. */
  function Word(s: string): (w: string)
    ensures |w| <= |s| && w == s[..|w|]
    ensures forall i :: 0 <= i < |w| ==> !IsSpace(w[i])
    ensures |w| == |s| || IsSpace(s[|w|])
  {
    if |s| == 0 || IsSpace(s[0]) then [] else [s[0]] + Word(s[1..])
  }

  /** Python 2 `s.split()`: the maximal whitespace-free runs, in order. */
  function Split(s: string): (ts: seq<string>)
    ensures forall i :: 0 <= i < |ts| ==> IsToken(ts[i])
    decreases |s|
  {
    if |s| == 0 then []
    else if IsSpace(s[0]) then Split(s[1..])
    else
      var w := Word(s);
      [w] + Split(s[|w|..])
  }

  /** Python `" ".join(ts)`. */
  function Join(ts: seq<string>): string
  {
    if |ts| == 0 then ""
    else if |ts| == 1 then ts[0]
    else ts[0] + " " + Join(ts[1..])
  }

  predicate AllTokens(ts: seq<string>)
  {
    forall i :: 0 <= i < |ts| ==> IsToken(ts[i])
  }

  /** Splitting a token followed by nothing or by whitespace yields that token first. */
  lemma SplitTokenThen(t: string, rest: string)
    requires IsToken(t)
    requires |rest| == 0 || IsSpace(rest[0])
    ensures Split(t + rest) == [t] + Split(rest)
  {
    var s := t + rest;
    WordOfToken(t, rest);
    assert s[|t|..] == rest;
  }

  /** The first word of a token followed by nothing or by whitespace is
      that token. */
  lemma {:induction false} WordOfToken(t: string, rest: string)
    requires IsToken(t)
    requires |rest| == 0 || IsSpace(rest[0])
    ensures Word(t + rest) == t
    decreases |t|
  {
    var s := t + rest;
    assert s[0] == t[0];
    if |t| == 1 {
      assert s[1..] == rest;
    } else {
      assert s[1..] == t[1..] + rest;
      WordOfToken(t[1..], rest);
      assert [t[0]] + t[1..] == t;
    }
  }

  /** Leading whitespace does not change what `split()` returns. */
  lemma SplitSkipsSpace(c: char, rest: string)
    requires IsSpace(c)
    ensures Split([c] + rest) == Split(rest)
  {
    assert ([c] + rest)[1..] == rest;
  }

  /** `split()` undoes `" ".join(...)` whenever every piece is a token. */
  lemma {:induction false} SplitJoin(ts: seq<string>)
    requires AllTokens(ts)
    ensures Split(Join(ts)) == ts
    decreases |ts|
  {
    if |ts| == 0 {
    } else if |ts| == 1 {
      SplitTokenThen(ts[0], "");
      assert ts[0] + "" == ts[0];
    } else {
      var rest := Join(ts[1..]);
      assert Join(ts) == ts[0] + (" " + rest);
      SplitTokenThen(ts[0], " " + rest);
      SplitSkipsSpace(' ', rest);
      SplitJoin(ts[1..]);
      assert [ts[0]] + ts[1..] == ts;
    }
  }

  /** `s` without its leading whitespace. */
  function TrimStart(s: string): (t: string)
    decreases |s|
  {
    if |s| > 0 && IsSpace(s[0]) then TrimStart(s[1..]) else s
  }

  /** The test `re.match(r'\s*#', line) or not re.search(r'\S', line)`:
      the line is blank, or its first non-whitespace character is `#`. */
  predicate IsIgnored(line: string)
  {
    var t := TrimStart(line);
    |t| == 0 || t[0] == '#'
  }

  /** The comment-or-blank test in terms of tokens: no token at all, or a
      first token that starts with `#`. */
  lemma {:induction false} IgnoredByTokens(line: string)
    ensures IsIgnored(line) <==> (Split(line) == [] || Split(line)[0][0] == '#')
    decreases |line|
  {
    if |line| > 0 && IsSpace(line[0]) {
      IgnoredByTokens(line[1..]);
    }
  }

  predicate IsDigit(c: char)
  {
    '0' <= c <= '9'
  }

  /** One or more decimal digits: what the regex `\d+` matches. */
  predicate IsDigits(s: string)
  {
    |s| > 0 && forall i :: 0 <= i < |s| ==> IsDigit(s[i])
  }

  function DigitsValue(s: string): nat
    requires forall i :: 0 <= i < |s| ==> IsDigit(s[i])
  {
    if |s| == 0 then 0
    else 10 * DigitsValue(s[..|s| - 1]) + DigitValue(s[|s| - 1])
  }

  function DigitValue(c: char): nat
    requires IsDigit(c)
  {
    c as int - '0' as int
  }

  /** Python 2 `int(token)`: an optional sign followed by decimal digits;
      anything else raises, modelled as `None`. */
  function ParseInt(s: string): Option<int>
  {
    if |s| > 0 && (s[0] == '+' || s[0] == '-') then
      if IsDigits(s[1..]) then
        var magnitude: int := DigitsValue(s[1..]);
        Some(if s[0] == '-' then -magnitude else magnitude)
      else None
    else if IsDigits(s) then Some(DigitsValue(s))
    else None
  }

  function DigitChar(d: nat): char
    requires d < 10
  {
    ('0' as int + d) as char
  }

  /** Decimal digits of `n`, without leading zeros. */
  function NatToDecimal(n: nat): string
    decreases n
  {
    if n < 10 then [DigitChar(n)] else NatToDecimal(n / 10) + [DigitChar(n % 10)]
  }

  /** Python `"%d" % x`. */
  function IntToDecimal(x: int): string
  {
    if x < 0 then "-" + NatToDecimal(-x) else NatToDecimal(x)
  }

  lemma {:induction false} NatToDecimalRoundTrip(n: nat)
    ensures IsDigits(NatToDecimal(n))
    ensures DigitsValue(NatToDecimal(n)) == n
    decreases n
  {
    if n >= 10 {
      NatToDecimalRoundTrip(n / 10);
      var s := NatToDecimal(n);
      assert s[..|s| - 1] == NatToDecimal(n / 10);
    }
  }

  /** `int("%d" % x) == x`, and the formatted number is a single token that
      does not look like a comment. */
  lemma IntToDecimalRoundTrip(x: int)
    ensures IsToken(IntToDecimal(x))
    ensures IntToDecimal(x)[0] != '#'
    ensures ParseInt(IntToDecimal(x)) == Some(x)
  {
    if x < 0 {
      NatToDecimalRoundTrip(-x);
      assert IntToDecimal(x)[1..] == NatToDecimal(-x);
    } else {
      NatToDecimalRoundTrip(x);
    }
  }

  /** Python 2 `a < b` on byte strings: lexicographic by character code,
      a proper prefix coming first. */
  predicate LexLess(a: string, b: string)
  {
    if |a| == 0 then |b| > 0
    else if |b| == 0 then false
    else if a[0] != b[0] then a[0] < b[0]
    else LexLess(a[1..], b[1..])
  }

  lemma {:induction false} LexLessIrreflexive(a: string)
    ensures !LexLess(a, a)
    decreases |a|
  {
    if |a| > 0 {
      LexLessIrreflexive(a[1..]);
    }
  }

  lemma {:induction false} LexLessTransitive(a: string, b: string, c: string)
    requires LexLess(a, b) && LexLess(b, c)
    ensures LexLess(a, c)
    decreases |a|
  {
    if |a| > 0 && a[0] == b[0] && b[0] == c[0] {
      LexLessTransitive(a[1..], b[1..], c[1..]);
    }
  }

  lemma {:induction false} LexLessConnected(a: string, b: string)
    requires a != b
    ensures LexLess(a, b) || LexLess(b, a)
    decreases |a|
  {
    if |a| > 0 && |b| > 0 && a[0] == b[0] {
      assert a == [a[0]] + a[1..] && b == [b[0]] + b[1..];
      LexLessConnected(a[1..], b[1..]);
    }
  }
}

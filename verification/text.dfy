/**
 * The Python string operations the analyzers rely on: `str.split()` with no
 * separator, `str.split('\r\n')[0]`, `sep.join(...)` and the decimal rendering
 * of an integer in an f-string.
 */
module Text {
  import opened Collections

  /** `c.isspace()`: the characters CPython treats as whitespace in `str.split()`. */
  predicate IsSpace(c: char)
  {
    var n := c as int;
    || 0x09 <= n <= 0x0D || 0x1C <= n <= 0x20 || n == 0x85 || n == 0xA0 || n == 0x1680
    || 0x2000 <= n <= 0x200A || n == 0x2028 || n == 0x2029 || n == 0x202F || n == 0x205F
    || n == 0x3000
  }

  predicate NoSpace(s: string)
  {
    forall i :: 0 <= i < |s| ==> !IsSpace(s[i])
  }

  /** Number of leading characters of `s` before the first whitespace. */
  function WordLength(s: string): (n: nat)
    ensures n <= |s| && NoSpace(s[..n])
    ensures n < |s| ==> IsSpace(s[n])
  {
    if s == [] || IsSpace(s[0]) then 0 else 1 + WordLength(s[1..])
  }

  /** `s.split()`: the maximal runs of non-whitespace characters, in order. */
  function Tokens(s: string): (r: seq<string>)
    ensures forall i :: 0 <= i < |r| ==> r[i] != [] && NoSpace(r[i])
    decreases |s|
  {
    if s == [] then []
    else if IsSpace(s[0]) then Tokens(s[1..])
    else
      var n := WordLength(s);
      [s[..n]] + Tokens(s[n..])
  }

  function Concat(xs: seq<string>): string
  {
    if xs == [] then [] else xs[0] + Concat(xs[1..])
  }

  /** `s` with every whitespace character removed. */
  function Squeeze(s: string): string
  {
    if s == [] then [] else (if IsSpace(s[0]) then [] else [s[0]]) + Squeeze(s[1..])
  }

  lemma {:induction false} SqueezeAppend(a: string, b: string)
    ensures Squeeze(a + b) == Squeeze(a) + Squeeze(b)
  {
    if a != [] {
      assert (a + b)[0] == a[0] && (a + b)[1..] == a[1..] + b;
      SqueezeAppend(a[1..], b);
      var h := if IsSpace(a[0]) then [] else [a[0]];
      assert Squeeze(a + b) == h + Squeeze(a[1..] + b);
      assert Squeeze(a) == h + Squeeze(a[1..]);
    } else {
      assert a + b == b;
    }
  }

  lemma {:induction false} SqueezeNoSpace(w: string)
    requires NoSpace(w)
    ensures Squeeze(w) == w
  {
    if w != [] {
      SqueezeNoSpace(w[1..]);
    }
  }

  /** Splitting loses exactly the whitespace: the tokens put back together are the non-space characters. */
  lemma {:induction false} TokensConcat(s: string)
    ensures Concat(Tokens(s)) == Squeeze(s)
    decreases |s|
  {
    if s != [] {
      if IsSpace(s[0]) {
        TokensConcat(s[1..]);
      } else {
        var n := WordLength(s);
        TokensConcat(s[n..]);
        assert s == s[..n] + s[n..];
        SqueezeAppend(s[..n], s[n..]);
        SqueezeNoSpace(s[..n]);
        assert Tokens(s)[1..] == Tokens(s[n..]);
      }
    }
  }

  lemma {:induction false} WordLengthOfWord(w: string, c: char, rest: string)
    requires NoSpace(w) && IsSpace(c)
    ensures WordLength(w + [c] + rest) == |w|
  {
    if w != [] {
      assert (w + [c] + rest)[1..] == w[1..] + [c] + rest;
      WordLengthOfWord(w[1..], c, rest);
    }
  }

  /** Text after the first word, or after a word cut short by whitespace, does not change the word's length. */
  lemma {:induction false} WordLengthAppend(a: string, rest: string)
    requires WordLength(a) < |a| || (rest != [] && IsSpace(rest[0]))
    ensures WordLength(a + rest) == WordLength(a)
  {
    if a == [] {
      assert a + rest == rest;
    } else if !IsSpace(a[0]) {
      assert (a + rest)[1..] == a[1..] + rest;
      WordLengthAppend(a[1..], rest);
    }
  }

  /** `str.split()` splits at every whitespace character: the text on either side splits on its own. */
  lemma {:induction false} TokensAtSpace(a: string, c: char, b: string)
    requires IsSpace(c)
    ensures Tokens(a + [c] + b) == Tokens(a) + Tokens(b)
    decreases |a|
  {
    var s := a + [c] + b;
    if a == [] {
      assert s[1..] == b;
    } else if IsSpace(a[0]) {
      assert s[1..] == a[1..] + [c] + b;
      TokensAtSpace(a[1..], c, b);
    } else {
      TokensAtSpace(a[WordLength(a)..], c, b);
      TokensAfterWord(a, c, b);
    }
  }

  /** The step of `TokensAtSpace` for text that starts with a word. */
  lemma TokensAfterWord(a: string, c: char, b: string)
    requires a != [] && !IsSpace(a[0]) && IsSpace(c)
    requires Tokens(a[WordLength(a)..] + [c] + b) == Tokens(a[WordLength(a)..]) + Tokens(b)
    ensures Tokens(a + [c] + b) == Tokens(a) + Tokens(b)
  {
    var n := WordLength(a);
    assert Tokens(a + [c] + b) == [a[..n]] + Tokens(a[n..] + [c] + b) by {
      var s := a + [c] + b;
      assert s == a + ([c] + b) && s[0] == a[0];
      WordLengthAppend(a, [c] + b);
      assert s[..n] == a[..n] && s[n..] == a[n..] + [c] + b;
    }
  }

  /** A word followed by whitespace is the first token. */
  lemma TokensOfWord(w: string, c: char, rest: string)
    requires w != [] && NoSpace(w) && IsSpace(c)
    ensures Tokens(w + [c] + rest) == [w] + Tokens([c] + rest)
  {
    var s := w + [c] + rest;
    WordLengthOfWord(w, c, rest);
    assert s[..|w|] == w;
    assert s[|w|..] == [c] + rest;
  }

  lemma {:induction false} WordLengthCovers(w: string, rest: string)
    requires NoSpace(w)
    ensures WordLength(w + rest) >= |w|
  {
    if w != [] {
      assert (w + rest)[1..] == w[1..] + rest;
      WordLengthCovers(w[1..], rest);
    }
  }

  /** Text that starts with a run of non-space characters has a first token that starts with that run. */
  lemma FirstTokenExtends(w: string, rest: string)
    requires w != [] && NoSpace(w)
    ensures Tokens(w + rest) != [] && w <= Tokens(w + rest)[0]
  {
    var s := w + rest;
    WordLengthCovers(w, rest);
    assert s[..WordLength(s)][..|w|] == w;
  }

  /** A single word splits into itself. */
  lemma SingleToken(w: string)
    requires w != [] && NoSpace(w)
    ensures Tokens(w) == [w]
  {
    WordLengthCovers(w, []);
    assert w + [] == w;
    assert w[|w|..] == [];
  }

  /** Text that starts with a word, a space, and no carriage return before it: the word is the first token of its first line. */
  lemma FirstWordOfFirstLine(w: string, text: string)
    requires w != [] && NoSpace(w) && forall i :: 0 <= i < |w| ==> w[i] != '\r'
    requires w + " " <= text
    ensures Tokens(FirstLine(text)) != [] && Tokens(FirstLine(text))[0] == w
  {
    var rest := text[|w| + 1..];
    assert text == (w + [' ']) + rest;
    FirstLineOfPrefix(w + [' '], rest);
    TokensOfWord(w, ' ', FirstLine(rest));
  }

  /** Two words separated by a single space are the two tokens. */
  lemma TwoWords(b: string, c: string)
    requires b != [] && NoSpace(b) && c != [] && NoSpace(c)
    ensures Tokens(b + [' '] + c) == [b, c]
  {
    TokensOfWord(b, ' ', c);
    SingleToken(c);
  }

  /** Three words separated by single spaces are the three tokens. */
  lemma ThreeWords(a: string, b: string, c: string)
    requires a != [] && NoSpace(a) && b != [] && NoSpace(b) && c != [] && NoSpace(c)
    ensures Tokens(a + [' '] + (b + [' '] + c)) == [a, b, c]
  {
    TokensOfWord(a, ' ', b + [' '] + c);
    TwoWords(b, c);
  }

  /** Text without a carriage return is one line. */
  lemma WholeLine(s: string)
    requires forall i :: 0 <= i < |s| ==> s[i] != '\r'
    ensures FirstLine(s) == s
  {
    FirstLineOfPrefix(s, []);
    assert s + [] == s;
  }

  predicate NoCrlf(s: string)
  {
    forall i :: 0 <= i < |s| - 1 ==> !(s[i] == '\r' && s[i + 1] == '\n')
  }

  /** `s.split('\r\n')[0]`: the text before the first CRLF, or all of `s`. */
  function FirstLine(s: string): (r: string)
    ensures r <= s && NoCrlf(r)
    ensures |r| < |s| ==> |s| >= |r| + 2 && s[|r|] == '\r' && s[|r| + 1] == '\n'
  {
    if |s| < 2 then s
    else if s[0] == '\r' && s[1] == '\n' then []
    else
      var r := [s[0]] + FirstLine(s[1..]);
      assert s == [s[0]] + s[1..];
      r
  }

  /** A prefix with no carriage return stays on the first line. */
  lemma {:induction false} FirstLineOfPrefix(w: string, rest: string)
    requires forall i :: 0 <= i < |w| ==> w[i] != '\r'
    ensures FirstLine(w + rest) == w + FirstLine(rest)
  {
    var s := w + rest;
    if w == [] {
      assert s == rest;
    } else if |s| < 2 {
      assert w == s && rest == [];
    } else {
      assert s[0] == w[0] && s[1..] == w[1..] + rest;
      FirstLineOfPrefix(w[1..], rest);
      assert FirstLine(s) == [w[0]] + (w[1..] + FirstLine(rest));
      assert w == [w[0]] + w[1..];
    }
  }

  /** `sep.join(xs)`. */
  function Join(xs: seq<string>, sep: string): string
  {
    if xs == [] then []
    else if |xs| == 1 then xs[0]
    else xs[0] + sep + Join(xs[1..], sep)
  }

  /** The last element of a joined list is its last segment. */
  lemma {:induction false} JoinLast(xs: seq<string>, sep: string)
    requires |xs| >= 2
    ensures Join(xs, sep) == Join(xs[..|xs| - 1], sep) + sep + xs[|xs| - 1]
  {
    if |xs| > 2 {
      JoinLast(xs[1..], sep);
      assert xs[1..][..|xs| - 2] == xs[..|xs| - 1][1..];
    }
  }

  function DigitChar(d: int): (c: char)
    requires 0 <= d < 10
    ensures c as int == '0' as int + d
  {
    ['0', '1', '2', '3', '4', '5', '6', '7', '8', '9'][d]
  }

  function DigitValue(c: char): Option<int>
  {
    if '0' <= c <= '9' then Some(c as int - '0' as int) else None
  }

  function Digits(n: nat): (s: string)
    ensures s != [] && forall i :: 0 <= i < |s| ==> '0' <= s[i] <= '9'
    ensures s[0] == '0' <==> n == 0
    ensures n == 0 ==> s == "0"
  {
    if n < 10 then [DigitChar(n)] else Digits(n / 10) + [DigitChar(n % 10)]
  }

  /** `f"{n}"` for an integer. */
  function Decimal(n: int): string
  {
    if n < 0 then "-" + Digits(-n) else Digits(n)
  }

  /** A digit string without a redundant leading zero. */
  predicate CanonicalDigits(d: string)
  {
    d != [] && (forall i :: 0 <= i < |d| ==> '0' <= d[i] <= '9') && (d[0] == '0' ==> d == "0")
  }

  /** The form `str` gives an integer: no leading zero, and no minus sign before zero. */
  predicate Canonical(s: string)
  {
    if s != [] && s[0] == '-' then CanonicalDigits(s[1..]) && s[1] != '0' else CanonicalDigits(s)
  }

  function ParseDigits(s: string): Option<nat>
  {
    if s == [] then None
    else
      var d := DigitValue(s[|s| - 1]);
      if d.None? then None
      else if |s| == 1 then Some(d.value)
      else
        match ParseDigits(s[..|s| - 1])
        case None => None
        case Some(p) => Some(p * 10 + d.value)
  }

  /** `int(s)` restricted to an optional minus sign followed by digits. */
  function ParseDecimal(s: string): Option<int>
  {
    if s != [] && s[0] == '-' then
      match ParseDigits(s[1..])
      case None => None
      case Some(p) => Some(-(p as int))
    else
      match ParseDigits(s)
      case None => None
      case Some(p) => Some(p)
  }

  lemma {:induction false} ParseDigitsOf(n: nat)
    ensures ParseDigits(Digits(n)) == Some(n)
  {
    if n >= 10 {
      ParseDigitsOf(n / 10);
      var s := Digits(n);
      assert s[..|s| - 1] == Digits(n / 10);
    }
  }

  /** A digit string reads back as its value, and with a leading minus sign as the negated value. */
  lemma ParseSigned(d: string)
    requires d != [] && '0' <= d[0] <= '9' && ParseDigits(d).Some?
    ensures ParseDecimal(d) == Some(ParseDigits(d).value as int)
    ensures ParseDecimal("-" + d) == Some(-(ParseDigits(d).value as int))
  {
    assert ("-" + d)[1..] == d;
  }

  /** The decimal rendering of an integer reads back as that integer. */
  lemma DecimalRoundTrip(n: int)
    ensures ParseDecimal(Decimal(n)) == Some(n)
  {
    var m: nat := if n < 0 then -n else n;
    var d := Digits(m);
    ParseDigitsOf(m);
    ParseSigned(d);
    assert Decimal(n) == if n < 0 then "-" + d else d;
  }

  /** Every integer renders in canonical form. */
  lemma DecimalCanonical(n: int)
    ensures Canonical(Decimal(n))
  {
    if n < 0 {
      assert ("-" + Digits(-n))[1..] == Digits(-n);
    }
  }

  /** A canonical digit string is the rendering of the value it parses to. */
  lemma {:induction false} CanonicalDigitsParse(d: string)
    requires CanonicalDigits(d)
    ensures ParseDigits(d).Some? && Digits(ParseDigits(d).value) == d
    decreases |d|
  {
    if |d| == 1 {
      OneDigitParse(d[0]);
      assert d == [d[0]];
    } else {
      var front := d[..|d| - 1];
      assert CanonicalDigits(front) by {
        assert front[0] == d[0] && front != "0";
      }
      CanonicalDigitsParse(front);
      var p := ParseDigits(front).value;
      assert p != 0 by {
        assert Digits(p)[0] == d[0] != '0';
      }
      DigitAppended(d, p);
    }
  }

  /** One digit parses to its value and renders back as itself. */
  lemma OneDigitParse(c: char)
    requires '0' <= c <= '9'
    ensures ParseDigits([c]) == Some(c as int - '0' as int)
    ensures Digits(c as int - '0' as int) == [c]
  {
  }

  /** A digit after the rendering of a positive number: the whole parses to a value that renders back as it. */
  lemma DigitAppended(d: string, p: nat)
    requires |d| > 1 && '0' <= d[|d| - 1] <= '9'
    requires p > 0 && Digits(p) == d[..|d| - 1] && ParseDigits(d[..|d| - 1]) == Some(p)
    ensures ParseDigits(d).Some? && Digits(ParseDigits(d).value) == d
  {
    var c := d[|d| - 1];
    var last := c as int - '0' as int;
    assert ParseDigits(d) == Some(p * 10 + last);
    DigitsSnoc(p, last);
    assert DigitChar(last) == c;
    assert d == d[..|d| - 1] + [c];
  }

  /** Appending a digit to the rendering of a positive number renders ten times it plus the digit. */
  lemma DigitsSnoc(p: nat, last: int)
    requires p > 0 && 0 <= last < 10
    ensures Digits(p * 10 + last) == Digits(p) + [DigitChar(last)]
  {
    var v := p * 10 + last;
    assert v / 10 == p && v % 10 == last;
  }

  /** A canonical string is the one rendering of the integer it parses to. */
  lemma CanonicalUnique(s: string, n: int)
    requires Canonical(s) && ParseDecimal(s) == Some(n)
    ensures s == Decimal(n)
  {
    if s != [] && s[0] == '-' {
      CanonicalDigitsParse(s[1..]);
      assert s == "-" + s[1..];
    } else {
      CanonicalDigitsParse(s);
    }
  }
}

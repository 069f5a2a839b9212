/** String helpers of the renderer: joining source fragments, HTML escaping,
    newline stripping, the class-list view of a class attribute, and the
    decimal spelling JavaScript gives an integer prompt number. */
module Text {

  /** `lines.join("")`: the fragments concatenated in order. */
  function Concat(lines: seq<string>): string
  {
    if lines == [] then "" else lines[0] + Concat(lines[1..])
  }

  /** `xs.join(sep)`. */
  function JoinWith(sep: string, xs: seq<string>): string
  {
    if xs == [] then ""
    else if |xs| == 1 then xs[0]
    else xs[0] + sep + JoinWith(sep, xs[1..])
  }

  // ---------------------------------------------------------------------
  // Character replacement and HTML escaping

  /** `s.replace(/c/g, rep)`: every occurrence of `c` is replaced by `rep`,
      every other character is kept. */
  function ReplaceAll(s: string, c: char, rep: string): (r: string)
    ensures forall i :: 0 <= i < |r| ==> (r[i] in s && r[i] != c) || r[i] in rep
  {
    if s == [] then ""
    else (if s[0] == c then rep else [s[0]]) + ReplaceAll(s[1..], c, rep)
  }

  lemma {:induction false} ReplaceAllAppend(a: string, b: string, c: char, rep: string)
    ensures ReplaceAll(a + b, c, rep) == ReplaceAll(a, c, rep) + ReplaceAll(b, c, rep)
  {
    if a == [] {
      assert a + b == b;
    } else {
      assert (a + b)[0] == a[0] && (a + b)[1..] == a[1..] + b;
      ReplaceAllAppend(a[1..], b, c, rep);
    }
  }

  /** Replacing a character that does not occur changes nothing. */
  lemma {:induction false} ReplaceAllAbsent(s: string, c: char, rep: string)
    requires c !in s
    ensures ReplaceAll(s, c, rep) == s
  {
    if s != [] {
      assert s[0] != c && c !in s[1..];
      ReplaceAllAbsent(s[1..], c, rep);
    }
  }

  /** The escape of one character. */
  function EscapeChar(ch: char): string
  {
    if ch == '<' then "&lt;" else if ch == '>' then "&gt;" else [ch]
  }

  /** Character-by-character reference definition of escaping. */
  function EscapeEach(s: string): string
  {
    if s == [] then "" else EscapeChar(s[0]) + EscapeEach(s[1..])
  }

  /** `escapeHTML`: first every `<` becomes `&lt;`, then every `>` becomes
      `&gt;`. No angle bracket survives. */
  function EscapeHtml(raw: string): (r: string)
    ensures '<' !in r && '>' !in r
  {
    ReplaceAll(ReplaceAll(raw, '<', "&lt;"), '>', "&gt;")
  }

  /** The two regular-expression passes amount to escaping each character on
      its own: every character other than `<` and `>` is kept, in order. */
  lemma EscapeHtmlOfChar(ch: char)
    ensures EscapeHtml([ch]) == EscapeChar(ch)
  {
    assert [ch][1..] == "";
    if ch == '<' {
      assert ReplaceAll([ch], '<', "&lt;") == "&lt;";
      ReplaceAllAbsent("&lt;", '>', "&gt;");
    } else {
      assert ReplaceAll([ch], '<', "&lt;") == [ch] + ReplaceAll("", '<', "&lt;") == [ch];
      assert ReplaceAll([ch], '>', "&gt;") == EscapeChar(ch) + ReplaceAll("", '>', "&gt;");
    }
  }

  /** The two regular-expression passes amount to escaping each character on
      its own: every character other than `<` and `>` is kept, in order. */
  lemma {:induction false} EscapeHtmlIsPerCharacter(s: string)
    ensures EscapeHtml(s) == EscapeEach(s)
  {
    if s != [] {
      var head, tail := s[..1], s[1..];
      assert s == head + tail && head == [s[0]];
      ReplaceAllAppend(head, tail, '<', "&lt;");
      ReplaceAllAppend(ReplaceAll(head, '<', "&lt;"), ReplaceAll(tail, '<', "&lt;"), '>', "&gt;");
      assert EscapeHtml(s) == EscapeHtml(head) + EscapeHtml(tail);
      EscapeHtmlOfChar(s[0]);
      EscapeHtmlIsPerCharacter(tail);
    }
  }

  /** Text without angle brackets is left as it is. */
  lemma EscapeHtmlOfPlain(s: string)
    requires '<' !in s && '>' !in s
    ensures EscapeHtml(s) == s
  {
    ReplaceAllAbsent(s, '<', "&lt;");
    ReplaceAllAbsent(s, '>', "&gt;");
  }

  /** Escaping twice is the same as escaping once. */
  lemma EscapeHtmlIdempotent(s: string)
    ensures EscapeHtml(EscapeHtml(s)) == EscapeHtml(s)
  {
    EscapeHtmlOfPlain(EscapeHtml(s));
  }

  /** Decoding of the two entities that escaping introduces. */
  function UnescapeHtml(s: string): string
    decreases |s|
  {
    if |s| >= 4 && s[..4] == "&lt;" then "<" + UnescapeHtml(s[4..])
    else if |s| >= 4 && s[..4] == "&gt;" then ">" + UnescapeHtml(s[4..])
    else if s == [] then ""
    else [s[0]] + UnescapeHtml(s[1..])
  }

  lemma {:induction false} UnescapeEscapeEach(s: string)
    requires '&' !in s
    ensures UnescapeHtml(EscapeEach(s)) == s
  {
    if s != [] {
      var rest := EscapeEach(s[1..]);
      var e := EscapeChar(s[0]) + rest;
      assert EscapeEach(s) == e;
      if s[0] == '<' || s[0] == '>' {
        assert e[..4] == EscapeChar(s[0]) && e[4..] == rest;
      } else {
        assert e == [s[0]] + rest && e[0] == s[0] != '&';
        assert e[1..] == rest;
      }
      UnescapeEscapeEach(s[1..]);
      assert s == [s[0]] + s[1..];
    }
  }

  /** Escaping leaves `&` as it is, so text that already spells an entity
      escapes to the same markup as the character the entity stands for. */
  lemma EscapedEntityLooksLikeAngle()
    ensures EscapeHtml("&lt;") == EscapeHtml("<")
  {
    EscapeHtmlOfPlain("&lt;");
    EscapeHtmlOfChar('<');
  }

  /** For text without `&`, escaping loses nothing: decoding the entities
      gives the original text back. */
  lemma UnescapeEscapeHtml(s: string)
    requires '&' !in s
    ensures UnescapeHtml(EscapeHtml(s)) == s
  {
    EscapeHtmlIsPerCharacter(s);
    UnescapeEscapeEach(s);
  }

  /** `data.replace(/\n/g, "")`. */
  function RemoveNewlines(s: string): (r: string)
    ensures '\n' !in r
    ensures forall i :: 0 <= i < |r| ==> r[i] in s
  {
    ReplaceAll(s, '\n', "")
  }

  lemma RemoveNewlinesOfFlat(s: string)
    requires '\n' !in s
    ensures RemoveNewlines(s) == s
  {
    ReplaceAllAbsent(s, '\n', "");
  }

  /** Removing newlines works piece by piece: on two pieces it is the
      removal from each, in order, and a single character is kept unless it
      is a newline. Together these say every other character is kept, in
      order. */
  lemma RemoveNewlinesAppend(a: string, b: string)
    ensures RemoveNewlines(a + b) == RemoveNewlines(a) + RemoveNewlines(b)
  {
    ReplaceAllAppend(a, b, '\n', "");
  }

  lemma RemoveNewlinesOfChar(c: char)
    ensures RemoveNewlines([c]) == if c == '\n' then "" else [c]
  {
    assert [c][1..] == "";
    assert ReplaceAll([c], '\n', "") == (if c == '\n' then "" else [c]) + ReplaceAll("", '\n', "");
  }

  /** A payload wrapped into lines with newlines reads, once the newlines
      are removed, as its lines concatenated. */
  lemma {:induction false} RemoveNewlinesOfLines(lines: seq<string>)
    requires forall i :: 0 <= i < |lines| ==> '\n' !in lines[i]
    ensures RemoveNewlines(JoinWith("\n", lines)) == Concat(lines)
  {
    if |lines| == 1 {
      RemoveNewlinesOfFlat(lines[0]);
      assert Concat(lines) == lines[0] + Concat([]);
    } else if |lines| > 1 {
      var head, rest := lines[0], JoinWith("\n", lines[1..]);
      assert JoinWith("\n", lines) == head + ("\n" + rest);
      assert RemoveNewlines(rest) == Concat(lines[1..]) by {
        RemoveNewlinesOfLines(lines[1..]);
      }
      assert RemoveNewlines("\n" + rest) == RemoveNewlines(rest) by {
        RemoveNewlinesAppend("\n", rest);
        RemoveNewlinesOfChar('\n');
      }
      assert RemoveNewlines(head + ("\n" + rest)) == head + RemoveNewlines("\n" + rest) by {
        RemoveNewlinesAppend(head, "\n" + rest);
        RemoveNewlinesOfFlat(head);
      }
    }
  }

  // ---------------------------------------------------------------------
  // The class list of a class attribute

  /** The leading run of non-space characters of `s`. */
  function Word(s: string): (w: string)
    ensures w <= s && ' ' !in w
    ensures s != [] && s[0] != ' ' ==> |w| >= 1
  {
    if s == [] || s[0] == ' ' then "" else [s[0]] + Word(s[1..])
  }

  /** The class list a document host reads from a class attribute: the
      maximal runs of non-space characters, in order. */
  function Tokens(s: string): seq<string>
    decreases |s|
  {
    if s == [] then []
    else if s[0] == ' ' then Tokens(s[1..])
    else [Word(s)] + Tokens(s[|Word(s)|..])
  }

  lemma {:induction false} WordOfPrefix(x: string, t: string)
    requires ' ' !in x
    requires t == [] || t[0] == ' '
    ensures Word(x + t) == x
  {
    if x != [] {
      assert (x + t)[0] == x[0] && (x + t)[1..] == x[1..] + t;
      WordOfPrefix(x[1..], t);
    } else {
      assert x + t == t;
    }
  }

  /** Joining space-free, non-empty words with single spaces and reading
      the class list back gives the words, in order. */
  lemma {:induction false} TokensOfJoin(xs: seq<string>)
    requires forall i :: 0 <= i < |xs| ==> xs[i] != "" && ' ' !in xs[i]
    ensures Tokens(JoinWith(" ", xs)) == xs
  {
    if |xs| == 1 {
      var x := xs[0];
      WordOfPrefix(x, "");
      assert x + "" == x && x[|x|..] == "";
    } else if |xs| > 1 {
      var x, j := xs[0], JoinWith(" ", xs[1..]);
      var s := x + " " + j;
      assert JoinWith(" ", xs) == s;
      WordOfPrefix(x, " " + j);
      assert x + (" " + j) == s;
      assert s[|x|..] == " " + j && (" " + j)[1..] == j;
      TokensOfJoin(xs[1..]);
    }
  }

  // ---------------------------------------------------------------------
  // Decimal spelling of integers

  function DigitChar(d: nat): (c: char)
    requires d < 10
    ensures '0' <= c <= '9'
  {
    ('0' as int + d) as char
  }

  predicate IsDigits(s: string)
  {
    forall i :: 0 <= i < |s| ==> '0' <= s[i] <= '9'
  }

  /** `String(n)` for a natural number: its decimal digits, most
      significant first, without leading zeros. */
  function NatToDecimal(n: nat): (r: string)
    ensures |r| >= 1 && IsDigits(r)
    ensures r[0] == '0' ==> n == 0
  {
    if n < 10 then [DigitChar(n)] else NatToDecimal(n / 10) + [DigitChar(n % 10)]
  }

  /** The number a string of decimal digits denotes. */
  function DecimalValue(s: string): nat
    requires IsDigits(s)
  {
    if s == [] then 0
    else 10 * DecimalValue(s[..|s| - 1]) + (s[|s| - 1] as int - '0' as int)
  }

  /** The digits denote the number they were made from. */
  lemma {:induction false} DecimalRoundTrip(n: nat)
    ensures DecimalValue(NatToDecimal(n)) == n
  {
    var r := NatToDecimal(n);
    if n >= 10 {
      assert r[..|r| - 1] == NatToDecimal(n / 10);
      DecimalRoundTrip(n / 10);
    }
  }

  /** `String(n)` for an integer below 10^21 in magnitude that a double
      holds exactly; larger numbers are spelt differently by JavaScript. */
  function IntToDecimal(n: int): string
  {
    if n < 0 then "-" + NatToDecimal(-n) else NatToDecimal(n)
  }

  /** The integer an optionally signed string of decimal digits denotes. */
  function SignedDecimalValue(s: string): int
    requires s != [] && (s[0] == '-' ==> IsDigits(s[1..])) && (s[0] != '-' ==> IsDigits(s))
  {
    if s[0] == '-' then -(DecimalValue(s[1..]) as int) else DecimalValue(s) as int
  }

  /** The spelling of an integer denotes that integer, so different prompt
      numbers are spelt differently. */
  lemma IntToDecimalRoundTrip(n: int)
    ensures var s := IntToDecimal(n);
      s != [] && (s[0] == '-' ==> IsDigits(s[1..])) && (s[0] != '-' ==> IsDigits(s)) &&
      SignedDecimalValue(s) == n
  {
    var s := IntToDecimal(n);
    if n < 0 {
      assert s[1..] == NatToDecimal(-n);
      DecimalRoundTrip(-n);
    } else {
      DecimalRoundTrip(n);
    }
  }
}

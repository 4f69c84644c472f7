/**
 * PHP's `htmlspecialchars`: `&`, `<` and `>` always become entities; the double
 * and the single quote do so only when the flags ask for quotes (`ENT_QUOTES`,
 * which is also the default since PHP 8.1), the single quote as `&#039;`. With
 * `ENT_XML1` alone no quote flag is set and both quotes pass through. The
 * replacements are made on the original string in one pass, so an `&` already
 * in the input is escaped again (`double_encode`). `htmlspecialchars_decode`
 * with `ENT_QUOTES` is the inverse used to state the round trip.
 */
module Escape {
  import opened Text

  /** Whether the quote characters are converted. */
  datatype QuoteStyle = NoQuotes | BothQuotes

  /** The entity a single character becomes, or the character itself. */
  function EscapeChar(c: char, quotes: QuoteStyle): string {
    if c == '&' then "&amp;"
    else if c == '<' then "&lt;"
    else if c == '>' then "&gt;"
    else if c == '"' && quotes == BothQuotes then "&quot;"
    else if c == '\'' && quotes == BothQuotes then "&#039;"
    else [c]
  }

  /** The characters whose entity `htmlspecialchars` writes under the given quote style. */
  predicate Special(c: char, quotes: QuoteStyle) {
    c == '&' || c == '<' || c == '>' || (quotes == BothQuotes && (c == '"' || c == '\''))
  }

  /** `htmlspecialchars($s, $flags)`. */
  function HtmlSpecialChars(s: string, quotes: QuoteStyle): (r: string)
    ensures |r| >= |s|
    ensures '<' !in r && '>' !in r
    ensures quotes == BothQuotes ==> '"' !in r && '\'' !in r
  {
    if s == [] then []
    else
      EscapeCharSafe(s[0], quotes);
      EscapeChar(s[0], quotes) + HtmlSpecialChars(s[1..], quotes)
  }

  lemma EscapeCharSafe(c: char, quotes: QuoteStyle)
    ensures |EscapeChar(c, quotes)| >= 1
    ensures '<' !in EscapeChar(c, quotes) && '>' !in EscapeChar(c, quotes)
    ensures quotes == BothQuotes ==> '"' !in EscapeChar(c, quotes) && '\'' !in EscapeChar(c, quotes)
  {
  }

  /** `htmlspecialchars_decode($s, ENT_QUOTES)`: the five entities back to their characters. */
  function SpecialCharsDecode(s: string): string
    decreases |s|
  {
    if s == [] then []
    else if s[0] != '&' then [s[0]] + SpecialCharsDecode(s[1..])
    else if StartsWith(s, "&amp;") then "&" + SpecialCharsDecode(s[5..])
    else if StartsWith(s, "&lt;") then "<" + SpecialCharsDecode(s[4..])
    else if StartsWith(s, "&gt;") then ">" + SpecialCharsDecode(s[4..])
    else if StartsWith(s, "&quot;") then "\"" + SpecialCharsDecode(s[6..])
    else if StartsWith(s, "&#039;") then "'" + SpecialCharsDecode(s[6..])
    else "&" + SpecialCharsDecode(s[1..])
  }

  /** Decoding undoes the escape of one character in front of any rest. */
  lemma DecodeEscapeChar(c: char, quotes: QuoteStyle, t: string)
    ensures SpecialCharsDecode(EscapeChar(c, quotes) + t) == [c] + SpecialCharsDecode(t)
  {
    if c == '&' {
      DecodeAmp(t);
    } else if c == '<' {
      DecodeLt(t);
    } else if c == '>' {
      DecodeGt(t);
    } else if c == '"' && quotes == BothQuotes {
      DecodeQuot(t);
    } else if c == '\'' && quotes == BothQuotes {
      DecodeApos(t);
    } else {
      assert ([c] + t)[1..] == t;
    }
  }

  lemma DecodeAmp(t: string)
    ensures SpecialCharsDecode("&amp;" + t) == "&" + SpecialCharsDecode(t)
  {
    var s := "&amp;" + t;
    assert s[..5] == "&amp;" && s[5..] == t;
  }

  lemma DecodeLt(t: string)
    ensures SpecialCharsDecode("&lt;" + t) == "<" + SpecialCharsDecode(t)
  {
    var s := "&lt;" + t;
    assert s[1] == 'l';
    assert s[..4] == "&lt;" && s[4..] == t;
  }

  lemma DecodeGt(t: string)
    ensures SpecialCharsDecode("&gt;" + t) == ">" + SpecialCharsDecode(t)
  {
    var s := "&gt;" + t;
    assert s[1] == 'g';
    assert s[..4] == "&gt;" && s[4..] == t;
  }

  lemma DecodeQuot(t: string)
    ensures SpecialCharsDecode("&quot;" + t) == "\"" + SpecialCharsDecode(t)
  {
    var s := "&quot;" + t;
    assert s[1] == 'q';
    assert s[..6] == "&quot;" && s[6..] == t;
  }

  lemma DecodeApos(t: string)
    ensures SpecialCharsDecode("&#039;" + t) == "'" + SpecialCharsDecode(t)
  {
    var s := "&#039;" + t;
    assert s[1] == '#';
    assert s[..6] == "&#039;" && s[6..] == t;
  }

  /** Escaping loses nothing: decoding the output gives back the input, under either quote style. */
  lemma {:induction false} DecodeEscape(s: string, quotes: QuoteStyle)
    ensures SpecialCharsDecode(HtmlSpecialChars(s, quotes)) == s
    decreases |s|
  {
    if s != [] {
      DecodeEscapeChar(s[0], quotes, HtmlSpecialChars(s[1..], quotes));
      DecodeEscape(s[1..], quotes);
      assert [s[0]] + s[1..] == s;
    }
  }

  /** Escaping a concatenation escapes each part. */
  lemma {:induction false} EscapeAppend(a: string, b: string, quotes: QuoteStyle)
    ensures HtmlSpecialChars(a + b, quotes) == HtmlSpecialChars(a, quotes) + HtmlSpecialChars(b, quotes)
    decreases |a|
  {
    if a != [] {
      assert (a + b)[0] == a[0] && (a + b)[1..] == a[1..] + b;
      EscapeAppend(a[1..], b, quotes);
    } else {
      assert a + b == b;
    }
  }

  /** A string without special characters is written as it is. */
  lemma {:induction false} EscapePlain(s: string, quotes: QuoteStyle)
    requires forall i :: 0 <= i < |s| ==> !Special(s[i], quotes)
    ensures HtmlSpecialChars(s, quotes) == s
    decreases |s|
  {
    if s != [] {
      EscapePlain(s[1..], quotes);
      assert [s[0]] + s[1..] == s;
    }
  }

  /** Only `&`, `<`, `>` and, when asked for, the quotes are rewritten: the output is as long as the input exactly when none occurs. */
  lemma {:induction false} EscapeLength(s: string, quotes: QuoteStyle)
    ensures |HtmlSpecialChars(s, quotes)| == |s| <==> forall i :: 0 <= i < |s| ==> !Special(s[i], quotes)
    decreases |s|
  {
    if s != [] {
      EscapeLength(s[1..], quotes);
      assert |EscapeChar(s[0], quotes)| == 1 <==> !Special(s[0], quotes);
      if forall i :: 0 <= i < |s[1..]| ==> !Special(s[1..][i], quotes) {
        if !Special(s[0], quotes) {
          forall i | 0 <= i < |s| ensures !Special(s[i], quotes) {
            if i > 0 { assert s[i] == s[1..][i - 1]; }
          }
        }
      } else {
        var i :| 0 <= i < |s[1..]| && Special(s[1..][i], quotes);
        assert Special(s[i + 1], quotes);
      }
    }
  }

  /** The characters the entities are written with. */
  predicate EntityChar(c: char) {
    c == '&' || c == ';' || c == '#' || IsLower(c) || IsDigit(c)
  }

  /** A character that no entity uses appears in the output only where it was in the input. */
  lemma {:induction false} EscapeKeepsOut(s: string, quotes: QuoteStyle, c: char)
    requires !EntityChar(c) && c !in s
    ensures c !in HtmlSpecialChars(s, quotes)
    decreases |s|
  {
    if s != [] {
      assert c !in s[1..];
      EscapeKeepsOut(s[1..], quotes, c);
      assert c !in EscapeChar(s[0], quotes);
    }
  }
}

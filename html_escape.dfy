/**
 * Text escaping as jQuery's `$('<div>').text(t).html()` performs it: the
 * "escaping a string" step of HTML fragment serialisation in text mode
 * (section 13.3 of the WHATWG HTML Living Standard) replaces `&` by `&amp;`,
 * U+00A0 by `&nbsp;`, `<` by `&lt;` and `>` by `&gt;`, and keeps every other
 * character. Unescape is its inverse, used to state what the escaping keeps.
 */
module HtmlEscape {

  /** U+00A0 NO-BREAK SPACE */
  const Nbsp: char := 160 as char

  predicate IsSpecial(c: char) {
    c == '&' || c == '<' || c == '>' || c == Nbsp
  }

  function EscapeChar(c: char): (r: string)
    ensures |r| >= 1
    ensures !IsSpecial(c) ==> r == [c]
  {
    if c == '&' then "&amp;"
    else if c == Nbsp then "&nbsp;"
    else if c == '<' then "&lt;"
    else if c == '>' then "&gt;"
    else [c]
  }

  /** No raw `<`, `>` or U+00A0 is left in r. */
  predicate NoRawMarkup(r: string) {
    forall i | 0 <= i < |r| :: r[i] != '<' && r[i] != '>' && r[i] != Nbsp
  }

  /** One of the four character references the escaping writes starts t. */
  predicate StartsWithEntity(t: string) {
    "&amp;" <= t || "&lt;" <= t || "&gt;" <= t || "&nbsp;" <= t
  }

  /** Every `&` in r begins a character reference. */
  predicate AmpersandsBeginEntities(r: string) {
    forall i | 0 <= i < |r| && r[i] == '&' :: StartsWithEntity(r[i..])
  }

  function Escape(s: string): (r: string)
    ensures NoRawMarkup(r)
    ensures |r| >= |s|
    ensures (forall i | 0 <= i < |s| :: !IsSpecial(s[i])) ==> r == s
    ensures ':' !in s ==> ':' !in r
    decreases |s|
  {
    if s == [] then [] else EscapeChar(s[0]) + Escape(s[1..])
  }

  /** Decodes the four character references and keeps everything else. */
  function Unescape(r: string): (s: string)
    decreases |r|
  {
    if r == [] then []
    else if "&amp;" <= r then ['&'] + Unescape(r[5..])
    else if "&nbsp;" <= r then [Nbsp] + Unescape(r[6..])
    else if "&lt;" <= r then ['<'] + Unescape(r[4..])
    else if "&gt;" <= r then ['>'] + Unescape(r[4..])
    else [r[0]] + Unescape(r[1..])
  }

  /** Decoding undoes the escape of one character in front of any text. */
  lemma UnescapeEscapeChar(c: char, rest: string)
    ensures Unescape(EscapeChar(c) + rest) == [c] + Unescape(rest)
  {
    var r := EscapeChar(c) + rest;
    if c == '&' {
      assert "&amp;" <= r && r[5..] == rest;
    } else if c == Nbsp {
      assert r[1] == 'n' && "&nbsp;" <= r && r[6..] == rest;
    } else if c == '<' {
      assert r[1] == 'l' && "&lt;" <= r && r[4..] == rest;
    } else if c == '>' {
      assert r[1] == 'g' && "&gt;" <= r && r[4..] == rest;
    } else {
      assert r[0] == c && r[1..] == rest;
    }
  }

  /** Escaping loses nothing: decoding the escaped text gives the text back. */
  lemma {:induction false} UnescapeEscape(s: string)
    ensures Unescape(Escape(s)) == s
    decreases |s|
  {
    if s != [] {
      UnescapeEscape(s[1..]);
      UnescapeEscapeChar(s[0], Escape(s[1..]));
      assert s == [s[0]] + s[1..];
    }
  }

  lemma AmpersandsConcat(a: string, b: string)
    requires AmpersandsBeginEntities(a) && AmpersandsBeginEntities(b)
    ensures AmpersandsBeginEntities(a + b)
  {
  }

  /** Every `&` in escaped text begins a character reference. */
  lemma {:induction false} EscapeEntities(s: string)
    ensures AmpersandsBeginEntities(Escape(s))
    decreases |s|
  {
    if s != [] {
      EscapeEntities(s[1..]);
      var e := EscapeChar(s[0]);
      assert AmpersandsBeginEntities(e) by {
        forall i | 0 <= i < |e| && e[i] == '&'
          ensures StartsWithEntity(e[i..])
        {
          assert i == 0 && e[0..] == e;
        }
      }
      AmpersandsConcat(e, Escape(s[1..]));
    }
  }
}

/**
 * HTML escaping for Telegram messages: `tg` replaces `&`, `<` and `>` by
 * their entities (in that order, so the `&` of an entity is never escaped
 * again), and `code` wraps the escaped text in a `<code>` element.
 */
module Escape {
  import opened Wrappers
  import opened Strings

  /** `tg`'s three replacements on a present text. */
  function EscapeText(s: string): (r: string)
    ensures '<' !in r && '>' !in r
  {
    ReplaceChar(ReplaceChar(ReplaceChar(s, '&', "&amp;"), '<', "&lt;"), '>', "&gt;")
  }

  /** `tg(text)`: a missing text counts as empty. */
  function Tg(text: Option<string>): (r: string)
    ensures text.None? ==> r == []
    ensures '<' !in r && '>' !in r
  {
    EscapeText(match text case None => [] case Some(s) => s)
  }

  /** `code(txt)`: the escaped text inside `<code>…</code>`. */
  function Code(txt: string): (r: string)
    ensures |r| >= 13 && r[..6] == "<code>" && r[|r| - 7..] == "</code>"
    ensures '<' !in r[6..|r| - 7] && '>' !in r[6..|r| - 7]
  {
    var inner := EscapeText(txt);
    var r := "<code>" + inner + "</code>";
    assert r[6..|r| - 7] == inner;
    r
  }

  // ---------------------------------------------------------------------
  // A per-character reference definition, and the inverse
  // ---------------------------------------------------------------------

  /** The entity written for one character. */
  function EntityOf(c: char): string {
    if c == '&' then "&amp;" else if c == '<' then "&lt;" else if c == '>' then "&gt;" else [c]
  }

  /** Every character replaced by its entity, independently of its neighbours. */
  function EscapeEach(s: string): string {
    if s == [] then [] else EntityOf(s[0]) + EscapeEach(s[1..])
  }

  lemma EscapeTextAppend(a: string, b: string)
    ensures EscapeText(a + b) == EscapeText(a) + EscapeText(b)
  {
    var x1, y1 := ReplaceChar(a, '&', "&amp;"), ReplaceChar(b, '&', "&amp;");
    var x2, y2 := ReplaceChar(x1, '<', "&lt;"), ReplaceChar(y1, '<', "&lt;");
    ReplaceCharAppend(a, b, '&', "&amp;");
    ReplaceCharAppend(x1, y1, '<', "&lt;");
    ReplaceCharAppend(x2, y2, '>', "&gt;");
  }

  lemma ReplaceCharOne(c: char, x: char, rep: string)
    ensures ReplaceChar([c], x, rep) == if c == x then rep else [c]
  {
    assert [c][1..] == [];
  }

  lemma EscapeTextChar(c: char)
    ensures EscapeText([c]) == EntityOf(c)
  {
    ReplaceCharOne(c, '&', "&amp;");
    var s1 := ReplaceChar([c], '&', "&amp;");
    if c == '&' {
      ReplaceCharAbsent(s1, '<', "&lt;");
      ReplaceCharAbsent(s1, '>', "&gt;");
    } else {
      ReplaceCharOne(c, '<', "&lt;");
      var s2 := ReplaceChar(s1, '<', "&lt;");
      if c == '<' {
        ReplaceCharAbsent(s2, '>', "&gt;");
      } else {
        ReplaceCharOne(c, '>', "&gt;");
      }
    }
  }

  /** The chained replacements escape each character on its own: no entity is escaped twice. */
  lemma {:induction false} EscapeTextIsPerChar(s: string)
    ensures EscapeText(s) == EscapeEach(s)
  {
    if s != [] {
      assert s == [s[0]] + s[1..];
      EscapeTextAppend([s[0]], s[1..]);
      EscapeTextChar(s[0]);
      EscapeTextIsPerChar(s[1..]);
    }
  }

  /** The HTML reading of escaped text: each entity back to its character. */
  function Unescape(t: string): string {
    if t == [] then []
    else if |t| >= 5 && t[..5] == "&amp;" then ['&'] + Unescape(t[5..])
    else if |t| >= 4 && t[..4] == "&lt;" then ['<'] + Unescape(t[4..])
    else if |t| >= 4 && t[..4] == "&gt;" then ['>'] + Unescape(t[4..])
    else [t[0]] + Unescape(t[1..])
  }

  lemma UnescapeAmp(rest: string)
    ensures Unescape("&amp;" + rest) == ['&'] + Unescape(rest)
  {
    var t := "&amp;" + rest;
    assert t[..5] == "&amp;" && t[5..] == rest;
  }

  /** `&lt;` and `&gt;` are read back by their second letter. */
  lemma UnescapeAngle(c: char, rest: string)
    requires c == '<' || c == '>'
    ensures Unescape(EntityOf(c) + rest) == [c] + Unescape(rest)
  {
    if c == '<' {
      var t := "&lt;" + rest;
      assert t[1] == 'l';
      assert t[..4] == "&lt;" && t[4..] == rest;
    } else {
      var t := "&gt;" + rest;
      assert t[1] == 'g';
      assert t[..4] == "&gt;" && t[4..] == rest;
    }
  }

  lemma UnescapePlain(c: char, rest: string)
    requires c != '&'
    ensures Unescape([c] + rest) == [c] + Unescape(rest)
  {
    var t := [c] + rest;
    assert t[0] == c && t[1..] == rest;
  }

  lemma UnescapeEntity(c: char, rest: string)
    ensures Unescape(EntityOf(c) + rest) == [c] + Unescape(rest)
  {
    if c == '&' {
      UnescapeAmp(rest);
    } else if c == '<' || c == '>' {
      UnescapeAngle(c, rest);
    } else {
      UnescapePlain(c, rest);
    }
  }

  /** Reading escaped text as HTML gives back exactly the original text. */
  lemma {:induction false} UnescapeEscapeEach(s: string)
    ensures Unescape(EscapeEach(s)) == s
  {
    if s != [] {
      UnescapeEntity(s[0], EscapeEach(s[1..]));
      UnescapeEscapeEach(s[1..]);
    }
  }

  /** `tg` loses nothing: the text shown is the text given. */
  lemma TgRoundTrip(s: string)
    ensures Unescape(Tg(Some(s))) == s
  {
    EscapeTextIsPerChar(s);
    UnescapeEscapeEach(s);
  }

  /** Inside `code(txt)` the reader sees exactly `txt`, and nothing in it can close the element. */
  lemma CodeRoundTrip(txt: string)
    ensures var r := Code(txt); Unescape(r[6..|r| - 7]) == txt
  {
    var r := Code(txt);
    assert r[6..|r| - 7] == EscapeText(txt);
    TgRoundTrip(txt);
  }
}

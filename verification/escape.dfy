/** `escapeHtml`: five global replacements applied one after the other, ampersand first. */
module Escape {
  import opened Replace

  /** The HTML-significant characters that are rewritten. */
  predicate Special(c: char) {
    c == '&' || c == '<' || c == '>' || c == '"' || c == '\''
  }

  /** The characters that cannot appear in escaped text (all but the ampersand). */
  predicate Markup(c: char) {
    c == '<' || c == '>' || c == '"' || c == '\''
  }

  /** `escapeHtml(text)`: the chain of replacements in the order the handler applies them. */
  function EscapeHtml(text: string): string {
    var amp := ReplaceAll(text, "&", "&amp;");
    var lt := ReplaceAll(amp, "<", "&lt;");
    var gt := ReplaceAll(lt, ">", "&gt;");
    var quot := ReplaceAll(gt, "\"", "&quot;");
    ReplaceAll(quot, "'", "&#39;")
  }

  /** The entity each character stands for after escaping. */
  function EscapeChar(c: char): (r: string)
    ensures |r| > 0
    ensures forall i :: 0 <= i < |r| ==> !Markup(r[i])
    ensures Special(c) <==> r[0] == '&'
  {
    if c == '&' then "&amp;"
    else if c == '<' then "&lt;"
    else if c == '>' then "&gt;"
    else if c == '"' then "&quot;"
    else if c == '\'' then "&#39;"
    else [c]
  }

  /** Reference reading of escaping: each character replaced by its entity on its own. */
  function EscapeEach(s: string): string
    decreases |s|
  {
    if |s| == 0 then "" else EscapeChar(s[0]) + EscapeEach(s[1..])
  }

  /** Decoding the five entities back to their characters; anything else is copied. */
  function Unescape(t: string): string
    decreases |t|
  {
    if |t| == 0 then ""
    else if |t| >= 5 && t[..5] == "&amp;" then "&" + Unescape(t[5..])
    else if |t| >= 4 && t[..4] == "&lt;" then "<" + Unescape(t[4..])
    else if |t| >= 4 && t[..4] == "&gt;" then ">" + Unescape(t[4..])
    else if |t| >= 6 && t[..6] == "&quot;" then "\"" + Unescape(t[6..])
    else if |t| >= 5 && t[..5] == "&#39;" then "'" + Unescape(t[5..])
    else [t[0]] + Unescape(t[1..])
  }

  /** One replacement step of the chain, on a single character. */
  lemma ReplaceOneChar(c: char, p: char, v: string)
    requires '$' !in v
    ensures ReplaceAll([c], [p], v) == if c == p then v else [c]
  {
    ReplaceAllIsScan([c], [p], v);
    ScanSingleCons(c, [], p, v);
    assert [c] + [] == [c];
  }

  /** A replacement step leaves text without its character unchanged. */
  lemma ReplaceNoChar(s: string, p: char, v: string)
    requires p !in s
    ensures ReplaceAll(s, [p], v) == s
  {
    forall i: nat
      ensures !OccursAt(s, [p], i)
    {
      if i + 1 <= |s| {
        assert s[i..i + 1] == [s[i]];
      }
    }
  }

  /** A replacement step distributes over concatenation. */
  lemma ReplaceCharAppend(a: string, b: string, p: char, v: string)
    requires '$' !in v
    ensures ReplaceAll(a + b, [p], v) == ReplaceAll(a, [p], v) + ReplaceAll(b, [p], v)
  {
    ReplaceAllIsScan(a + b, [p], v);
    ReplaceAllIsScan(a, [p], v);
    ReplaceAllIsScan(b, [p], v);
    ScanSingleAppend(a, b, p, v);
  }

  lemma EscapeAppend(a: string, b: string)
    ensures EscapeHtml(a + b) == EscapeHtml(a) + EscapeHtml(b)
  {
    var a1 := ReplaceAll(a, "&", "&amp;");
    var b1 := ReplaceAll(b, "&", "&amp;");
    ReplaceCharAppend(a, b, '&', "&amp;");
    var a2 := ReplaceAll(a1, "<", "&lt;");
    var b2 := ReplaceAll(b1, "<", "&lt;");
    ReplaceCharAppend(a1, b1, '<', "&lt;");
    var a3 := ReplaceAll(a2, ">", "&gt;");
    var b3 := ReplaceAll(b2, ">", "&gt;");
    ReplaceCharAppend(a2, b2, '>', "&gt;");
    var a4 := ReplaceAll(a3, "\"", "&quot;");
    var b4 := ReplaceAll(b3, "\"", "&quot;");
    ReplaceCharAppend(a3, b3, '"', "&quot;");
    ReplaceCharAppend(a4, b4, '\'', "&#39;");
  }

  /** The last four steps leave an entity of the first step alone. */
  lemma EscapeAmp()
    ensures EscapeHtml("&") == "&amp;"
  {
    ReplaceOneChar('&', '&', "&amp;");
    ReplaceNoChar("&amp;", '<', "&lt;");
    ReplaceNoChar("&amp;", '>', "&gt;");
    ReplaceNoChar("&amp;", '"', "&quot;");
    ReplaceNoChar("&amp;", '\'', "&#39;");
  }

  lemma EscapeLt()
    ensures EscapeHtml("<") == "&lt;"
  {
    ReplaceOneChar('<', '&', "&amp;");
    ReplaceOneChar('<', '<', "&lt;");
    ReplaceNoChar("&lt;", '>', "&gt;");
    ReplaceNoChar("&lt;", '"', "&quot;");
    ReplaceNoChar("&lt;", '\'', "&#39;");
  }

  lemma EscapeGt()
    ensures EscapeHtml(">") == "&gt;"
  {
    ReplaceOneChar('>', '&', "&amp;");
    ReplaceOneChar('>', '<', "&lt;");
    ReplaceOneChar('>', '>', "&gt;");
    ReplaceNoChar("&gt;", '"', "&quot;");
    ReplaceNoChar("&gt;", '\'', "&#39;");
  }

  lemma EscapeQuot()
    ensures EscapeHtml("\"") == "&quot;"
  {
    ReplaceOneChar('"', '&', "&amp;");
    ReplaceOneChar('"', '<', "&lt;");
    ReplaceOneChar('"', '>', "&gt;");
    ReplaceOneChar('"', '"', "&quot;");
    ReplaceNoChar("&quot;", '\'', "&#39;");
  }

  lemma EscapeApos()
    ensures EscapeHtml("'") == "&#39;"
  {
    ReplaceOneChar('\'', '&', "&amp;");
    ReplaceOneChar('\'', '<', "&lt;");
    ReplaceOneChar('\'', '>', "&gt;");
    ReplaceOneChar('\'', '"', "&quot;");
    ReplaceOneChar('\'', '\'', "&#39;");
  }

  lemma EscapeOther(c: char)
    requires !Special(c)
    ensures EscapeHtml([c]) == [c]
  {
    ReplaceOneChar(c, '&', "&amp;");
    ReplaceOneChar(c, '<', "&lt;");
    ReplaceOneChar(c, '>', "&gt;");
    ReplaceOneChar(c, '"', "&quot;");
    ReplaceOneChar(c, '\'', "&#39;");
  }

  /** The chain maps one character to its entity: the entities produced by one step
      contain none of the characters handled by the later ones. */
  lemma EscapeOneChar(c: char)
    ensures EscapeHtml([c]) == EscapeChar(c)
  {
    if c == '&' { EscapeAmp(); }
    else if c == '<' { EscapeLt(); }
    else if c == '>' { EscapeGt(); }
    else if c == '"' { EscapeQuot(); }
    else if c == '\'' { EscapeApos(); }
    else { EscapeOther(c); }
  }

  /** The sequential chain equals the per-character map: no character is escaped twice. */
  lemma {:induction false} EscapeIsCharMap(s: string)
    ensures EscapeHtml(s) == EscapeEach(s)
    decreases |s|
  {
    if |s| == 0 {
      assert s == [];
      ReplaceNoChar(s, '&', "&amp;");
      ReplaceNoChar(s, '<', "&lt;");
      ReplaceNoChar(s, '>', "&gt;");
      ReplaceNoChar(s, '"', "&quot;");
      ReplaceNoChar(s, '\'', "&#39;");
    } else {
      assert s == [s[0]] + s[1..];
      EscapeAppend([s[0]], s[1..]);
      EscapeOneChar(s[0]);
      EscapeIsCharMap(s[1..]);
    }
  }

  lemma {:induction false} EscapeEachNoMarkup(s: string)
    ensures forall i :: 0 <= i < |EscapeEach(s)| ==> !Markup(EscapeEach(s)[i])
    decreases |s|
  {
    if |s| > 0 {
      EscapeEachNoMarkup(s[1..]);
      var e := EscapeChar(s[0]);
      var r := EscapeEach(s[1..]);
      forall i | 0 <= i < |e + r|
        ensures !Markup((e + r)[i])
      {
        if i >= |e| {
          assert (e + r)[i] == r[i - |e|];
        }
      }
    }
  }

  /** Escaped text contains no `<`, `>`, `"` or `'`. */
  lemma EscapedHasNoMarkup(s: string)
    ensures forall i :: 0 <= i < |EscapeHtml(s)| ==> !Markup(EscapeHtml(s)[i])
  {
    EscapeIsCharMap(s);
    EscapeEachNoMarkup(s);
  }

  /** Text without special characters passes through unchanged. */
  lemma {:induction false} EscapePlainUnchanged(s: string)
    requires forall i :: 0 <= i < |s| ==> !Special(s[i])
    ensures EscapeHtml(s) == s
  {
    EscapeIsCharMap(s);
    EscapeEachPlain(s);
  }

  lemma {:induction false} EscapeEachPlain(s: string)
    requires forall i :: 0 <= i < |s| ==> !Special(s[i])
    ensures EscapeEach(s) == s
    decreases |s|
  {
    if |s| > 0 {
      EscapeEachPlain(s[1..]);
      assert s == [s[0]] + s[1..];
    }
  }

  /** Decoding one leading entity. */
  lemma UnescapeChar(c: char, u: string)
    ensures Unescape(EscapeChar(c) + u) == [c] + Unescape(u)
  {
    var t := EscapeChar(c) + u;
    if c == '&' {
      assert t[..5] == "&amp;" && t[5..] == u;
    } else if c == '<' {
      UnescapeLt(u);
    } else if c == '>' {
      UnescapeGt(u);
    } else if c == '"' {
      UnescapeQuot(u);
    } else if c == '\'' {
      UnescapeApos(u);
    } else {
      UnescapeOther(c, u);
    }
  }

  lemma UnescapeLt(u: string)
    ensures Unescape("&lt;" + u) == "<" + Unescape(u)
  {
    var t := "&lt;" + u;
    assert t[1] == 'l';
    assert t[..4] == "&lt;" && t[4..] == u;
  }

  lemma UnescapeGt(u: string)
    ensures Unescape("&gt;" + u) == ">" + Unescape(u)
  {
    var t := "&gt;" + u;
    assert t[1] == 'g';
    assert t[..4] != "&lt;" by { assert t[..4][1] == 'g'; }
    assert t[..4] == "&gt;" && t[4..] == u;
  }

  lemma UnescapeQuot(u: string)
    ensures Unescape("&quot;" + u) == "\"" + Unescape(u)
  {
    var t := "&quot;" + u;
    assert t[1] == 'q';
    assert t[..4] != "&lt;" && t[..4] != "&gt;" by { assert t[..4][1] == 'q'; }
    assert t[..6] == "&quot;" && t[6..] == u;
  }

  lemma UnescapeApos(u: string)
    ensures Unescape("&#39;" + u) == "'" + Unescape(u)
  {
    var t := "&#39;" + u;
    assert t[1] == '#';
    assert t[..4] != "&lt;" && t[..4] != "&gt;" by { assert t[..4][1] == '#'; }
    assert |t| >= 6 ==> t[..6] != "&quot;" by {
      if |t| >= 6 { assert t[..6][1] == '#'; }
    }
    assert t[..5] == "&#39;" && t[5..] == u;
  }

  lemma UnescapeOther(c: char, u: string)
    requires c != '&'
    ensures Unescape([c] + u) == [c] + Unescape(u)
  {
    var t := [c] + u;
    assert t[0] == c && t[1..] == u;
    assert |t| >= 4 ==> t[..4][0] == c;
    assert |t| >= 5 ==> t[..5][0] == c;
    assert |t| >= 6 ==> t[..6][0] == c;
  }

  lemma {:induction false} UnescapeEach(s: string)
    ensures Unescape(EscapeEach(s)) == s
    decreases |s|
  {
    if |s| > 0 {
      UnescapeChar(s[0], EscapeEach(s[1..]));
      UnescapeEach(s[1..]);
      assert s == [s[0]] + s[1..];
    }
  }

  /** Escaping loses nothing: decoding the entities gives back the original text. */
  lemma EscapeRoundTrip(s: string)
    ensures Unescape(EscapeHtml(s)) == s
  {
    EscapeIsCharMap(s);
    UnescapeEach(s);
  }

  /** An ampersand is escaped exactly once: never to `&amp;amp;`. */
  lemma EscapeAmpersandExample(s: string)
    requires s == "a&b"
    ensures EscapeHtml(s) == "a&amp;b"
  {
    EscapeIsCharMap(s);
    EachAmpersandExample(s);
  }

  lemma EachAmpersandExample(s: string)
    requires s == "a&b"
    ensures EscapeEach(s) == "a&amp;b"
  {
    var t := s[1..];
    var u := t[1..];
    assert EscapeEach(u) == "b" by {
      assert u == "b";
      assert EscapeEach(u) == EscapeChar('b') + EscapeEach(u[1..]);
    }
    assert EscapeEach(t) == "&amp;" + "b";
    assert EscapeEach(s) == "a" + ("&amp;" + "b");
  }

  /** A script tag becomes inert text. */
  lemma EscapeScriptExample(s: string)
    requires s == "<script>"
    ensures EscapeHtml(s) == "&lt;script&gt;"
  {
    EscapeIsCharMap(s);
    EachScriptExample(s);
  }

  lemma EachScriptExample(s: string)
    requires s == "<script>"
    ensures EscapeEach(s) == "&lt;script&gt;"
  {
    var word, gt := s[1..7], s[7..];
    assert gt == ">";
    EscapeEachPlain(word);
    assert EscapeEach(gt) == "&gt;" by {
      assert EscapeEach(gt) == EscapeChar('>') + EscapeEach(gt[1..]);
    }
    EscapeEachAppend(word, gt);
    assert s == [s[0]] + (word + gt);
  }

  lemma {:induction false} EscapeEachAppend(a: string, b: string)
    ensures EscapeEach(a + b) == EscapeEach(a) + EscapeEach(b)
    decreases |a|
  {
    if |a| == 0 {
      assert a + b == b;
    } else {
      assert (a + b)[1..] == a[1..] + b;
      EscapeEachAppend(a[1..], b);
    }
  }
}

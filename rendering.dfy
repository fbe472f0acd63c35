/**
  The pure rendering helpers of script.js: `escapeHtml`, the "pure code" split behind the copy
  button, and the language tag and escape decision for generated code.
 */
module Rendering {
  import opened Wrappers
  import opened JsStrings
  import CodeGen

  // ---------------------------------------------------------------- escapeHtml

  /** `s.replace(/c/g, repl)` for a one-character pattern. */
  function ReplaceAll(s: string, c: char, repl: string): (r: string)
    ensures c !in s ==> r == s
    ensures c !in repl ==> c !in r
  {
    if s == [] then [] else (if s[0] == c then repl else [s[0]]) + ReplaceAll(s[1..], c, repl)
  }

  /** A character missing from both the text and the replacement is missing from the result. */
  lemma {:induction false} ReplaceAllKeepsAbsent(s: string, c: char, repl: string, x: char)
    requires x !in s && x !in repl
    ensures x !in ReplaceAll(s, c, repl)
    decreases |s|
  {
    if s != [] {
      assert x !in s[1..] by { assert forall k :: 0 <= k < |s[1..]| ==> s[1..][k] == s[k + 1]; }
      ReplaceAllKeepsAbsent(s[1..], c, repl, x);
    }
  }

  /** A global replace works piece by piece. */
  lemma {:induction false} ReplaceAllAppend(a: string, b: string, c: char, repl: string)
    ensures ReplaceAll(a + b, c, repl) == ReplaceAll(a, c, repl) + ReplaceAll(b, c, repl)
    decreases |a|
  {
    if a == [] {
      assert a + b == b;
    } else {
      var h := if a[0] == c then repl else [a[0]];
      assert (a + b)[0] == a[0] && (a + b)[1..] == a[1..] + b;
      ReplaceAllAppend(a[1..], b, c, repl);
      calc {
        ReplaceAll(a + b, c, repl);
        h + ReplaceAll(a[1..] + b, c, repl);
        h + (ReplaceAll(a[1..], c, repl) + ReplaceAll(b, c, repl));
        (h + ReplaceAll(a[1..], c, repl)) + ReplaceAll(b, c, repl);
      }
    }
  }

  /** `escapeHtml(unsafe)`: the five chained global replaces, `&` first. The result never holds
      a raw `<`, `>`, `"` or `'`. */
  function EscapeHtml(s: string): (r: string)
    ensures '<' !in r && '>' !in r && '"' !in r && '\'' !in r
  {
    EntitiesPlain();
    var s1 := ReplaceAll(s, '&', "&amp;");
    var s2 := ReplaceAll(s1, '<', "&lt;");
    var s3 := ReplaceAll(s2, '>', "&gt;");
    ReplaceAllKeepsAbsent(s2, '>', "&gt;", '<');
    var s4 := ReplaceAll(s3, '"', "&quot;");
    ReplaceAllKeepsAbsent(s3, '"', "&quot;", '<');
    ReplaceAllKeepsAbsent(s3, '"', "&quot;", '>');
    ReplaceAllKeepsAbsent(s4, '\'', "&#039;", '<');
    ReplaceAllKeepsAbsent(s4, '\'', "&#039;", '>');
    ReplaceAllKeepsAbsent(s4, '\'', "&#039;", '"');
    ReplaceAll(s4, '\'', "&#039;")
  }

  /** None of the entities holds a raw `<`, `>`, `"` or `'`. */
  lemma EntitiesPlain()
    ensures '<' !in "&gt;" && '<' !in "&quot;" && '<' !in "&#039;"
    ensures '>' !in "&quot;" && '>' !in "&#039;" && '"' !in "&#039;"
    ensures '<' !in "&lt;" && '>' !in "&gt;" && '"' !in "&quot;" && '\'' !in "&#039;"
  {
    var lt, gt, quot, apos := "&lt;", "&gt;", "&quot;", "&#039;";
    assert lt == ['&', 'l', 't', ';'];
    assert gt == ['&', 'g', 't', ';'];
    assert quot == ['&', 'q', 'u', 'o', 't', ';'];
    assert apos == ['&', '#', '0', '3', '9', ';'];
  }

  /** The single-pass reference: each character on its own. */
  function EscapeChar(c: char): string
  {
    if c == '&' then "&amp;"
    else if c == '<' then "&lt;"
    else if c == '>' then "&gt;"
    else if c == '"' then "&quot;"
    else if c == '\'' then "&#039;"
    else [c]
  }

  function EscapeEach(s: string): string
  {
    if s == [] then [] else EscapeChar(s[0]) + EscapeEach(s[1..])
  }

  predicate IsSpecial(c: char)
  {
    c == '&' || c == '<' || c == '>' || c == '"' || c == '\''
  }

  /** A global replace on one character. */
  lemma ReplaceAllOne(c: char, x: char, repl: string)
    ensures ReplaceAll([c], x, repl) == (if c == x then repl else [c])
  {
    assert [c][1..] == [];
  }

  /** The chain on one character: the first replace that matches writes the entity, and the
      later ones find none of their characters in it. */
  lemma EscapeHtmlChar(c: char)
    ensures EscapeHtml([c]) == EscapeChar(c)
  {
    if !IsSpecial(c) {
      EscapePlainChar(c);
    } else {
      EscapeSpecialChar(c);
    }
  }

  lemma EscapePlainChar(c: char)
    requires !IsSpecial(c)
    ensures EscapeHtml([c]) == [c]
  {
    ReplaceAllOne(c, '&', "&amp;");
    ReplaceAllOne(c, '<', "&lt;");
    ReplaceAllOne(c, '>', "&gt;");
    ReplaceAllOne(c, '"', "&quot;");
    ReplaceAllOne(c, '\'', "&#039;");
  }

  lemma EscapeSpecialChar(c: char)
    requires IsSpecial(c)
    ensures EscapeHtml([c]) == EscapeChar(c)
  {
    if c == '&' {
      EscapeAmp();
    } else if c == '<' {
      EscapeLt();
    } else if c == '>' {
      EscapeGt();
    } else if c == '"' {
      EscapeQuot();
    } else {
      EscapeApos();
    }
  }

  lemma EscapeAmp()
    ensures EscapeHtml("&") == "&amp;"
  {
    assert ReplaceAll("&", '&', "&amp;") == "&amp;";
    assert '<' !in "&amp;" && '>' !in "&amp;" && '"' !in "&amp;" && '\'' !in "&amp;";
  }

  lemma EscapeLt()
    ensures EscapeHtml("<") == "&lt;"
  {
    assert ReplaceAll("<", '<', "&lt;") == "&lt;";
    assert '>' !in "&lt;" && '"' !in "&lt;" && '\'' !in "&lt;";
  }

  lemma EscapeGt()
    ensures EscapeHtml(">") == "&gt;"
  {
    assert ReplaceAll(">", '>', "&gt;") == "&gt;";
    assert '"' !in "&gt;" && '\'' !in "&gt;";
  }

  lemma EscapeQuot()
    ensures EscapeHtml("\"") == "&quot;"
  {
    assert ReplaceAll("\"", '"', "&quot;") == "&quot;";
    assert '\'' !in "&quot;";
  }

  lemma EscapeApos()
    ensures EscapeHtml("'") == "&#039;"
  {
    assert ReplaceAll("'", '\'', "&#039;") == "&#039;";
  }

  lemma EscapeHtmlAppend(a: string, b: string)
    ensures EscapeHtml(a + b) == EscapeHtml(a) + EscapeHtml(b)
  {
    var r1a, r1b := ReplaceAll(a, '&', "&amp;"), ReplaceAll(b, '&', "&amp;");
    ReplaceAllAppend(a, b, '&', "&amp;");
    var r2a, r2b := ReplaceAll(r1a, '<', "&lt;"), ReplaceAll(r1b, '<', "&lt;");
    ReplaceAllAppend(r1a, r1b, '<', "&lt;");
    var r3a, r3b := ReplaceAll(r2a, '>', "&gt;"), ReplaceAll(r2b, '>', "&gt;");
    ReplaceAllAppend(r2a, r2b, '>', "&gt;");
    var r4a, r4b := ReplaceAll(r3a, '"', "&quot;"), ReplaceAll(r3b, '"', "&quot;");
    ReplaceAllAppend(r3a, r3b, '"', "&quot;");
    ReplaceAllAppend(r4a, r4b, '\'', "&#039;");
  }

  /** Because `&` is replaced first, the chain equals the one-pass per-character map: no entity
      written by an earlier replace is touched by a later one. */
  lemma {:induction false} EscapeHtmlIsPerChar(s: string)
    ensures EscapeHtml(s) == EscapeEach(s)
    decreases |s|
  {
    if s != [] {
      assert s == [s[0]] + s[1..];
      EscapeHtmlAppend([s[0]], s[1..]);
      EscapeHtmlChar(s[0]);
      EscapeHtmlIsPerChar(s[1..]);
    }
  }

  /** Text without any of the five characters comes back unchanged. */
  lemma EscapeHtmlPlain(s: string)
    requires forall k :: 0 <= k < |s| ==> !IsSpecial(s[k])
    ensures EscapeHtml(s) == s
  {
    assert '&' !in s && '<' !in s && '>' !in s && '"' !in s && '\'' !in s;
  }

  /** Reading the five entities back as characters; the inverse of escaping. */
  function UnescapeHtml(s: string): string
    decreases |s|
  {
    if s == [] then []
    else if "&amp;" <= s then "&" + UnescapeHtml(s[5..])
    else if "&lt;" <= s then "<" + UnescapeHtml(s[4..])
    else if "&gt;" <= s then ">" + UnescapeHtml(s[4..])
    else if "&quot;" <= s then "\"" + UnescapeHtml(s[6..])
    else if "&#039;" <= s then "'" + UnescapeHtml(s[6..])
    else [s[0]] + UnescapeHtml(s[1..])
  }

  lemma UnescapeChar(c: char, t: string)
    ensures UnescapeHtml(EscapeChar(c) + t) == [c] + UnescapeHtml(t)
  {
    var e := EscapeChar(c) + t;
    if !IsSpecial(c) {
      assert e[0] == c && e[1..] == t;
    } else {
      var h := EscapeChar(c);
      assert e[..|h|] == h && e[|h|..] == t;
      assert e[1] == h[1];
      if c == '&' {
        assert "&amp;" <= e;
      } else if c == '<' || c == '>' {
        assert !("&amp;" <= e);
      } else {
        assert !("&amp;" <= e) && !("&lt;" <= e) && !("&gt;" <= e);
        assert e[2] == h[2];
      }
    }
  }

  /** Escaping loses nothing: the original text can always be read back. */
  lemma {:induction false} UnescapeEscapeHtml(s: string)
    ensures UnescapeHtml(EscapeHtml(s)) == s
    decreases |s|
  {
    EscapeHtmlIsPerChar(s);
    if s != [] {
      UnescapeChar(s[0], EscapeEach(s[1..]));
      UnescapeEscapeHtml(s[1..]);
      EscapeHtmlIsPerChar(s[1..]);
    }
  }

  // ---------------------------------------------------------------- copy content

  /** The text the copy button looks for, which `generateCode` writes before an explanation. */
  const CopyMarker: string := "\n\n/*\nExplanation:"

  /** The "pure code" handed to the copy button: when the explanation box is checked and the
      marker occurs, everything before its first occurrence; otherwise the whole result. */
  function CopyContent(result: string, explanationChecked: bool): (r: string)
    ensures r <= result
    ensures explanationChecked ==> !Includes(r, CopyMarker)
    ensures !Includes(result, CopyMarker) ==> r == result
    ensures !explanationChecked ==> r == result
    ensures explanationChecked && Includes(result, CopyMarker) ==> OccursAt(result, CopyMarker, |r|)
  {
    if explanationChecked && Includes(result, CopyMarker) then
      var r := SplitFirst(result, CopyMarker);
      assert forall k :: OccursAt(r, CopyMarker, k) ==> OccursAt(result, CopyMarker, k);
      r
    else result
  }

  /** No proper suffix of the marker is also a prefix of it, so an occurrence cannot start
      inside the code and run on into the appended block. */
  lemma CopyMarkerUnbordered(l: nat)
    requires 0 < l < |CopyMarker|
    ensures CopyMarker[l..] != CopyMarker[..|CopyMarker| - l]
  {
    var m := CopyMarker;
    assert m == ['\n', '\n', '/', '*', '\n', 'E', 'x', 'p', 'l', 'a', 'n', 'a', 't', 'i', 'o', 'n', ':'];
    if l == 1 || l == 4 {
      assert m[l..][1] == m[l + 1] != m[1] == m[..|m| - l][1];
    } else {
      assert m[l..][0] == m[l] != m[0] == m[..|m| - l][0];
    }
  }

  /** An occurrence of the marker cannot start inside `code` when `code` does not contain it
      and the marker follows it. */
  lemma NoMarkerInside(code: string, rest: string, k: nat)
    requires !Includes(code, CopyMarker) && CopyMarker <= rest && k < |code|
    ensures !OccursAt(code + rest, CopyMarker, k)
  {
    var s, m := code + rest, CopyMarker;
    if k + |m| <= |code| {
      assert s[k..k + |m|] == code[k..k + |m|];
      assert !OccursAt(code, m, k);
    } else if OccursAt(s, m, k) {
      var l := |code| - k;
      assert s[|code|..k + |m|] == rest[..|m| - l] == m[..|m| - l];
      assert s[k..k + |m|][l..] == s[|code|..k + |m|];
      CopyMarkerUnbordered(l);
    }
  }

  /** The marker written after `code` is the first one. */
  lemma MarkerFirstAfter(code: string, rest: string)
    requires !Includes(code, CopyMarker) && CopyMarker <= rest
    ensures IndexOf(code + rest, CopyMarker) == Some(|code|)
  {
    var s, m := code + rest, CopyMarker;
    assert s[|code|..|code| + |m|] == rest[..|m|] == m;
    assert OccursAt(s, m, |code|);
    forall k | 0 <= k < |code|
      ensures !OccursAt(s, m, k)
    {
      NoMarkerInside(code, rest, k);
    }
  }

  /** Copying the result built with an explanation gives exactly the code back, provided the
      code itself does not contain the marker. */
  lemma CopyInvertsExplanation(code: string, explanation: string)
    requires !Includes(code, CopyMarker)
    ensures CopyContent(CodeGen.WithExplanation(code, explanation), true) == code
  {
    var rest := CopyMarker + "\n" + explanation + "\n*/";
    assert CodeGen.WithExplanation(code, explanation) == code + rest;
    assert rest[..|CopyMarker|] == CopyMarker;
    MarkerFirstAfter(code, rest);
  }

  /** A result without the marker is copied whole. */
  lemma CopyPlainCode(result: string, explanationChecked: bool)
    requires !Includes(result, CopyMarker)
    ensures CopyContent(result, explanationChecked) == result
  {
  }

  // ---------------------------------------------------------------- language tag

  /** The language used for the code block's class: the combined web option becomes `html`.
      The adjusted language mentions `html` exactly when the selected one does. */
  function LanguageTag(language: string): (r: string)
    ensures Includes(language, "html_css_javascript") ==> r == "html"
    ensures !Includes(language, "html_css_javascript") ==> r == language
    ensures Includes(r, "html") <==> Includes(language, "html")
  {
    assert OccursAt("html", "html", 0);
    assert "html_css_javascript"[0..4] == "html";
    assert OccursAt("html_css_javascript", "html", 0);
    if Includes(language, "html_css_javascript") then
      IncludesTransitive(language, "html_css_javascript", "html");
      "html"
    else language
  }

  /** The markup the generator output is shown in: HTML-escaped exactly when the selected
      language mentions `html`, inside a code block tagged with the adjusted language. */
  function RenderGenerated(language: string, result: string): (r: string)
    ensures r == "<pre><code class=\"language-" + LanguageTag(language) + "\">"
      + (if Includes(language, "html") then EscapeHtml(result) else result) + "</code></pre>"
  {
    var tag := LanguageTag(language);
    "<pre><code class=\"language-" + tag + "\">"
      + (if Includes(tag, "html") then EscapeHtml(result) else result) + "</code></pre>"
  }
}

/**
 * `escapeHTML` of the planner page (app.js): each of `&`, `<`, `>`, `'` and `"` is replaced
 * by its character reference, every other character is kept.
 */
module Html {
  import opened Wrappers

  predicate IsMarkup(c: char) {
    c == '&' || c == '<' || c == '>' || c == '\'' || c == '"'
  }

  /** The replacement of one character. */
  function EscapeChar(c: char): (r: string)
    ensures |r| >= 1 && (r == [c] <==> !IsMarkup(c))
    ensures IsMarkup(c) ==> r[0] == '&' && r[|r| - 1] == ';'
  {
    match c
    case '&' => "&amp;"
    case '<' => "&lt;"
    case '>' => "&gt;"
    case '\'' => "&#39;"
    case '"' => "&quot;"
    case _ => [c]
  }

  /** `escapeHTML`. */
  function EscapeHtml(s: string): (r: string)
    ensures |r| >= |s|
  {
    if s == [] then [] else EscapeChar(s[0]) + EscapeHtml(s[1..])
  }

  /** The character a reference at the start of `s` stands for, and the reference's length. */
  function Reference(s: string): (r: Option<(char, nat)>)
    ensures r.Some? ==> 4 <= r.value.1 <= |s|
  {
    if |s| >= 5 && s[..5] == "&amp;" then Some(('&', 5))
    else if |s| >= 4 && s[..4] == "&lt;" then Some(('<', 4))
    else if |s| >= 4 && s[..4] == "&gt;" then Some(('>', 4))
    else if |s| >= 5 && s[..5] == "&#39;" then Some(('\'', 5))
    else if |s| >= 6 && s[..6] == "&quot;" then Some(('"', 6))
    else None
  }

  /** Reading the text back as a browser does for these five references. */
  function Unescape(s: string): (r: string)
    decreases |s|
  {
    if s == [] then []
    else match Reference(s)
      case Some((c, n)) => [c] + Unescape(s[n..])
      case None => [s[0]] + Unescape(s[1..])
  }

  lemma ReferenceOfEscape(c: char, rest: string)
    ensures IsMarkup(c) ==> Reference(EscapeChar(c) + rest) == Some((c, |EscapeChar(c)|))
    ensures !IsMarkup(c) ==> Reference(EscapeChar(c) + rest) == None
  {
    var t := EscapeChar(c) + rest;
    if c == '&' {
      assert t[..5] == "&amp;";
    } else if c == '<' {
      assert t[1] == 'l' && t[..4] == "&lt;";
    } else if c == '>' {
      assert t[1] == 'g' && t[..4] == "&gt;";
    } else if c == '\'' {
      assert t[1] == '#' && t[..5] == "&#39;";
    } else if c == '"' {
      assert t[1] == 'q' && t[..6] == "&quot;";
    } else {
      assert t[0] == c;
    }
  }

  lemma UnescapeStep(c: char, rest: string)
    ensures Unescape(EscapeChar(c) + rest) == [c] + Unescape(rest)
  {
    var t := EscapeChar(c) + rest;
    ReferenceOfEscape(c, rest);
    assert t[|EscapeChar(c)|..] == rest;
    if !IsMarkup(c) {
      assert t[0] == c;
    }
  }

  /** The browser shows exactly the text that was escaped. */
  lemma {:induction false} UnescapeEscapeHtml(s: string)
    ensures Unescape(EscapeHtml(s)) == s
  {
    if s != [] {
      UnescapeEscapeHtml(s[1..]);
      UnescapeStep(s[0], EscapeHtml(s[1..]));
    }
  }

  /** The escaped text holds no `<`, `>`, quote or apostrophe: it cannot open a tag or close an attribute. */
  lemma {:induction false} EscapedIsInert(s: string)
    ensures forall i :: 0 <= i < |EscapeHtml(s)| ==> !IsMarkup(EscapeHtml(s)[i]) || EscapeHtml(s)[i] == '&'
  {
    if s != [] {
      EscapedIsInert(s[1..]);
      var e := EscapeChar(s[0]);
      var r := EscapeHtml(s);
      forall i | 0 <= i < |r|
        ensures !IsMarkup(r[i]) || r[i] == '&'
      {
        if i >= |e| {
          assert r[i] == EscapeHtml(s[1..])[i - |e|];
        }
      }
    }
  }

  /** Escaping leaves a text alone exactly when it holds none of the five characters. */
  lemma {:induction false} EscapeKeepsPlainText(s: string)
    ensures EscapeHtml(s) == s <==> forall i :: 0 <= i < |s| ==> !IsMarkup(s[i])
  {
    if s != [] {
      EscapeKeepsPlainText(s[1..]);
      var r := EscapeHtml(s);
      if forall i :: 0 <= i < |s| ==> !IsMarkup(s[i]) {
        assert forall i :: 0 <= i < |s[1..]| ==> !IsMarkup(s[1..][i]) by {
          forall i | 0 <= i < |s[1..]| ensures !IsMarkup(s[1..][i]) {
            assert s[1..][i] == s[i + 1];
          }
        }
        assert s == [s[0]] + s[1..];
      }
      if IsMarkup(s[0]) {
        assert |r| > |s| by { assert |EscapeChar(s[0])| > 1; }
      }
      if r == s {
        assert !IsMarkup(s[0]);
        assert r[1..] == EscapeHtml(s[1..]);
        forall i | 0 <= i < |s| ensures !IsMarkup(s[i]) {
          if i > 0 {
            assert s[i] == s[1..][i - 1];
          }
        }
      }
    }
  }
}

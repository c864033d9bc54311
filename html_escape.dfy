/**
 * `escapeHtml` of the content script: the three global `replace` calls that
 * make backend-supplied text safe to splice into `innerHTML`, the reference
 * character-by-character definition it agrees with, and the decoding that
 * undoes it.
 */
module HtmlEscape {
  import opened Protocol

  /** `s.replace(/c/g, rep)` for a single-character pattern `c`. */
  function ReplaceAll(s: string, c: char, rep: string): (r: string)
    ensures c !in s ==> r == s
    ensures c !in rep ==> c !in r
    ensures |rep| >= 1 ==> |r| >= |s|
  {
    if s == [] then []
    else (if s[0] == c then rep else [s[0]]) + ReplaceAll(s[1..], c, rep)
  }

  /** The replace chain on `String(str)`: `&` first, then `<`, then `>`. */
  function EscapeText(s: string): (r: string)
    ensures '<' !in r && '>' !in r
    ensures |r| >= |s|
    ensures (forall i :: 0 <= i < |s| ==> !IsSpecial(s[i])) ==> r == s
  {
    var t := ReplaceAll(ReplaceAll(s, '&', "&amp;"), '<', "&lt;");
    ReplaceAllKeepsAbsent(t, '>', "&gt;", '<');
    ReplaceAll(t, '>', "&gt;")
  }

  /** A replace adds no character that is in neither the text nor the replacement. */
  lemma {:induction false} ReplaceAllKeepsAbsent(s: string, c: char, rep: string, d: char)
    requires d !in s && d !in rep
    ensures d !in ReplaceAll(s, c, rep)
  {
    if s != [] {
      assert d !in s[1..] by { assert forall k :: 0 <= k < |s[1..]| ==> s[1..][k] == s[k + 1]; }
      ReplaceAllKeepsAbsent(s[1..], c, rep, d);
    }
  }

  /** `escapeHtml(str)`: null and undefined give the empty string. */
  function EscapeHtml(v: Option<Value>): (r: string)
    ensures IsNullish(v) ==> r == ""
  {
    if IsNullish(v) then "" else EscapeText(JsString(v.value))
  }

  predicate IsSpecial(c: char) {
    c == '&' || c == '<' || c == '>'
  }

  /** Reference definition: the entity that stands for one character. */
  function EscapeChar(c: char): (r: string)
    ensures !IsSpecial(c) ==> r == [c]
    ensures |r| > 0 && (r[0] == c || r[0] == '&')
  {
    if c == '&' then "&amp;"
    else if c == '<' then "&lt;"
    else if c == '>' then "&gt;"
    else [c]
  }

  /** Reference definition: every character escaped on its own, left to right. */
  function EscapeEach(s: string): string {
    if s == [] then [] else EscapeChar(s[0]) + EscapeEach(s[1..])
  }

  /** Decoding of the three entities `escapeHtml` produces. */
  function Unescape(s: string): string {
    if s == [] then []
    else if |s| >= 5 && s[..5] == "&amp;" then "&" + Unescape(s[5..])
    else if |s| >= 4 && s[..4] == "&lt;" then "<" + Unescape(s[4..])
    else if |s| >= 4 && s[..4] == "&gt;" then ">" + Unescape(s[4..])
    else [s[0]] + Unescape(s[1..])
  }

  /** An entity `&amp;`, `&lt;` or `&gt;` starts at index i of r. */
  predicate EntityAt(r: string, i: int)
    requires 0 <= i
  {
    (i + 5 <= |r| && r[i..i + 5] == "&amp;") ||
    (i + 4 <= |r| && (r[i..i + 4] == "&lt;" || r[i..i + 4] == "&gt;"))
  }

  lemma {:induction false} ReplaceAllAppend(a: string, b: string, c: char, rep: string)
    ensures ReplaceAll(a + b, c, rep) == ReplaceAll(a, c, rep) + ReplaceAll(b, c, rep)
  {
    if a == [] {
      assert a + b == b;
    } else {
      assert (a + b)[1..] == a[1..] + b;
      ReplaceAllAppend(a[1..], b, c, rep);
    }
  }

  lemma {:induction false} ReplaceAllAbsent(s: string, c: char, rep: string)
    requires forall i :: 0 <= i < |s| ==> s[i] != c
    ensures ReplaceAll(s, c, rep) == s
  {
    if s != [] {
      ReplaceAllAbsent(s[1..], c, rep);
    }
  }

  /** Escaping a single character by the chain gives its entity. */
  lemma EscapeTextChar(c: char)
    ensures EscapeText([c]) == EscapeChar(c)
  {
    var s := [c];
    assert s[1..] == [];
    if c == '&' {
      assert ReplaceAll(s, '&', "&amp;") == "&amp;";
      ReplaceAllAbsent("&amp;", '<', "&lt;");
      ReplaceAllAbsent("&amp;", '>', "&gt;");
    } else if c == '<' {
      assert ReplaceAll(s, '&', "&amp;") == s;
      assert ReplaceAll(s, '<', "&lt;") == "&lt;";
      ReplaceAllAbsent("&lt;", '>', "&gt;");
    } else if c == '>' {
      assert ReplaceAll(s, '&', "&amp;") == s;
      assert ReplaceAll(s, '<', "&lt;") == s;
      assert ReplaceAll(s, '>', "&gt;") == "&gt;";
    } else {
      assert ReplaceAll(s, '&', "&amp;") == s;
      assert ReplaceAll(s, '<', "&lt;") == s;
      assert ReplaceAll(s, '>', "&gt;") == s;
    }
  }

  /** The chain of three global replaces equals the one-pass escaping. */
  lemma {:induction false} EscapeTextIsEscapeEach(s: string)
    ensures EscapeText(s) == EscapeEach(s)
  {
    if s != [] {
      var h, t := [s[0]], s[1..];
      assert s == h + t;
      var a1, a2 := ReplaceAll(h, '&', "&amp;"), ReplaceAll(t, '&', "&amp;");
      ReplaceAllAppend(h, t, '&', "&amp;");
      var b1, b2 := ReplaceAll(a1, '<', "&lt;"), ReplaceAll(a2, '<', "&lt;");
      ReplaceAllAppend(a1, a2, '<', "&lt;");
      ReplaceAllAppend(b1, b2, '>', "&gt;");
      assert EscapeText(s) == EscapeText(h) + EscapeText(t);
      EscapeTextChar(s[0]);
      EscapeTextIsEscapeEach(t);
    }
  }

  /** The escaped text holds no `<` and no `>`. */
  lemma {:induction false} EscapedHasNoAngleBrackets(s: string)
    ensures forall i :: 0 <= i < |EscapeText(s)| ==> EscapeText(s)[i] != '<' && EscapeText(s)[i] != '>'
  {
    EscapeTextIsEscapeEach(s);
    EscapeEachNoAngleBrackets(s);
  }

  lemma {:induction false} EscapeEachNoAngleBrackets(s: string)
    ensures forall i :: 0 <= i < |EscapeEach(s)| ==> EscapeEach(s)[i] != '<' && EscapeEach(s)[i] != '>'
  {
    if s != [] {
      EscapeEachNoAngleBrackets(s[1..]);
      var e, rest := EscapeChar(s[0]), EscapeEach(s[1..]);
      assert EscapeEach(s) == e + rest;
      forall i | 0 <= i < |e + rest|
        ensures (e + rest)[i] != '<' && (e + rest)[i] != '>'
      {
        if i >= |e| {
          assert (e + rest)[i] == rest[i - |e|];
        }
      }
    }
  }

  /** Every `&` in the escaped text begins one of the three entities. */
  lemma {:induction false} EscapedAmpersandsBeginEntities(s: string)
    ensures forall i :: 0 <= i < |EscapeText(s)| && EscapeText(s)[i] == '&' ==> EntityAt(EscapeText(s), i)
  {
    EscapeTextIsEscapeEach(s);
    EscapeEachAmpersands(s);
  }

  lemma EntityAtHead(c: char, rest: string)
    requires IsSpecial(c)
    ensures EntityAt(EscapeChar(c) + rest, 0)
  {
    var r := EscapeChar(c) + rest;
    if c == '&' {
      assert r[0..5] == EscapeChar(c);
    } else {
      assert r[0..4] == EscapeChar(c);
    }
  }

  lemma EntityAtShift(e: string, rest: string, j: nat)
    requires EntityAt(rest, j)
    ensures EntityAt(e + rest, |e| + j)
  {
    var r, i := e + rest, |e| + j;
    if j + 5 <= |rest| && rest[j..j + 5] == "&amp;" {
      assert r[i..i + 5] == rest[j..j + 5];
    } else {
      assert r[i..i + 4] == rest[j..j + 4];
    }
  }

  lemma {:induction false} EscapeEachAmpersands(s: string)
    ensures forall i :: 0 <= i < |EscapeEach(s)| && EscapeEach(s)[i] == '&' ==> EntityAt(EscapeEach(s), i)
  {
    if s != [] {
      EscapeEachAmpersands(s[1..]);
      var e, rest := EscapeChar(s[0]), EscapeEach(s[1..]);
      var r := e + rest;
      assert EscapeEach(s) == r;
      forall i | 0 <= i < |r| && r[i] == '&'
        ensures EntityAt(r, i)
      {
        if i < |e| {
          // inside the entity for s[0]: only its first character is '&'
          assert i == 0 && IsSpecial(s[0]);
          EntityAtHead(s[0], rest);
        } else {
          assert rest[i - |e|] == '&';
          EntityAtShift(e, rest, i - |e|);
        }
      }
    }
  }

  /** Length grows by 4 per `&` and by 3 per `<` or `>`. */
  lemma {:induction false} EscapedLength(s: string)
    ensures |EscapeText(s)| ==
      |s| + 4 * multiset(s)['&'] + 3 * multiset(s)['<'] + 3 * multiset(s)['>']
  {
    EscapeTextIsEscapeEach(s);
    EscapeEachLength(s);
  }

  lemma {:induction false} EscapeEachLength(s: string)
    ensures |EscapeEach(s)| ==
      |s| + 4 * multiset(s)['&'] + 3 * multiset(s)['<'] + 3 * multiset(s)['>']
  {
    if s != [] {
      assert s == [s[0]] + s[1..];
      assert multiset(s) == multiset([s[0]]) + multiset(s[1..]);
      EscapeEachLength(s[1..]);
    }
  }

  /** Text without `&`, `<` and `>` (quotes included) passes unchanged, and only such text. */
  lemma EscapeFixesExactlyPlainText(s: string)
    ensures EscapeText(s) == s <==> forall i :: 0 <= i < |s| ==> !IsSpecial(s[i])
  {
    EscapedLength(s);
    if forall i :: 0 <= i < |s| ==> !IsSpecial(s[i]) {
      EscapeTextIsEscapeEach(s);
      EscapeEachPlain(s);
    } else {
      var i :| 0 <= i < |s| && IsSpecial(s[i]);
      assert s[i] in multiset(s);
    }
  }

  lemma {:induction false} EscapeEachPlain(s: string)
    requires forall i :: 0 <= i < |s| ==> !IsSpecial(s[i])
    ensures EscapeEach(s) == s
  {
    if s != [] {
      EscapeEachPlain(s[1..]);
    }
  }

  /** Decoding the entities gives back the original text: escaping loses nothing. */
  lemma {:induction false} UnescapeEscapeText(s: string)
    ensures Unescape(EscapeText(s)) == s
  {
    EscapeTextIsEscapeEach(s);
    UnescapeEscapeEach(s);
  }

  lemma UnescapeAmp(rest: string)
    ensures Unescape("&amp;" + rest) == "&" + Unescape(rest)
  {
    var r := "&amp;" + rest;
    assert r[..5] == "&amp;" && r[5..] == rest;
  }

  lemma UnescapeLt(rest: string)
    ensures Unescape("&lt;" + rest) == "<" + Unescape(rest)
  {
    var r := "&lt;" + rest;
    assert !(|r| >= 5 && r[..5] == "&amp;") by { assert r[1] == 'l'; }
    assert r[..4] == "&lt;" && r[4..] == rest;
  }

  lemma UnescapeGt(rest: string)
    ensures Unescape("&gt;" + rest) == ">" + Unescape(rest)
  {
    var r := "&gt;" + rest;
    assert !(|r| >= 5 && r[..5] == "&amp;") by { assert r[1] == 'g'; }
    assert !(|r| >= 4 && r[..4] == "&lt;") by { assert r[1] == 'g'; }
    assert r[..4] == "&gt;" && r[4..] == rest;
  }

  lemma UnescapePlain(c: char, rest: string)
    requires c != '&'
    ensures Unescape([c] + rest) == [c] + Unescape(rest)
  {
    var r := [c] + rest;
    assert r[0] == c && r[1..] == rest;
  }

  /** Decoding the escaping of one character and then the rest. */
  lemma UnescapeEscapeChar(c: char, rest: string)
    ensures Unescape(EscapeChar(c) + rest) == [c] + Unescape(rest)
  {
    if c == '&' {
      UnescapeAmp(rest);
    } else if c == '<' {
      UnescapeLt(rest);
    } else if c == '>' {
      UnescapeGt(rest);
    } else {
      UnescapePlain(c, rest);
    }
  }

  lemma {:induction false} UnescapeEscapeEach(s: string)
    ensures Unescape(EscapeEach(s)) == s
  {
    if s != [] {
      UnescapeEscapeEach(s[1..]);
      UnescapeEscapeChar(s[0], EscapeEach(s[1..]));
    }
  }

  /** Two texts with the same escaping are the same text. */
  lemma EscapeTextInjective(s: string, t: string)
    requires EscapeText(s) == EscapeText(t)
    ensures s == t
  {
    UnescapeEscapeText(s);
    UnescapeEscapeText(t);
  }
}

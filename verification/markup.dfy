/** The transcript's markup escaper (src/index.ts, `escape`): three global
    replacements, `&` first, then `<`, then `>`. */
module Markup {
  import opened Strings

  /** `s.replace(/c/g, rep)` for a one-character pattern: every `c` becomes `rep`. */
  function ReplaceAll(s: string, c: char, rep: string): string
  {
    if |s| == 0 then [] else (if s[0] == c then rep else [s[0]]) + ReplaceAll(s[1..], c, rep)
  }

  /** The entity each markup-significant character is escaped to; other characters stay. */
  function EscapeChar(c: char): string
  {
    if c == '&' then "&amp;"
    else if c == '<' then "&lt;"
    else if c == '>' then "&gt;"
    else [c]
  }

  /** The reference meaning of escaping: substitute every character on its own. */
  function EscapeEach(s: string): string
  {
    if |s| == 0 then [] else EscapeChar(s[0]) + EscapeEach(s[1..])
  }

  /** `escape(s)` as the source writes it. Because `&` is replaced first, the
      entities the later passes introduce are not escaped again, and the three
      passes amount to the per-character substitution. */
  function Escape(s: string): (r: string)
    ensures r == EscapeEach(s)
  {
    EscapeIsPerCharacter(s);
    ReplaceAll(ReplaceAll(ReplaceAll(s, '&', "&amp;"), '<', "&lt;"), '>', "&gt;")
  }

  lemma {:induction false} ReplaceAllConcat(a: string, b: string, c: char, rep: string)
    ensures ReplaceAll(a + b, c, rep) == ReplaceAll(a, c, rep) + ReplaceAll(b, c, rep)
    decreases |a|
  {
    if |a| == 0 {
      assert a + b == b;
    } else {
      assert (a + b)[1..] == a[1..] + b;
      ReplaceAllConcat(a[1..], b, c, rep);
    }
  }

  lemma {:induction false} ReplaceAllAbsent(s: string, c: char, rep: string)
    requires c !in s
    ensures ReplaceAll(s, c, rep) == s
    decreases |s|
  {
    if |s| > 0 {
      ReplaceAllAbsent(s[1..], c, rep);
    }
  }

  lemma ReplaceAllSingle(c: char, x: char, rep: string)
    ensures ReplaceAll([c], x, rep) == if c == x then rep else [c]
  {
    assert [c][1..] == [];
    assert ReplaceAll([c], x, rep) == (if c == x then rep else [c]) + ReplaceAll([], x, rep);
  }

  /** The three passes, applied to a one-character string, give its entity. */
  lemma PassesOnChar(c: char)
    ensures ReplaceAll(ReplaceAll(ReplaceAll([c], '&', "&amp;"), '<', "&lt;"), '>', "&gt;") == EscapeChar(c)
  {
    if c == '&' {
      PassesOnAmpersand(c);
    } else if c == '<' {
      PassesOnLess();
    } else {
      PassesOnOther(c);
    }
  }

  lemma PassesOnAmpersand(c: char)
    requires c == '&'
    ensures ReplaceAll(ReplaceAll(ReplaceAll([c], '&', "&amp;"), '<', "&lt;"), '>', "&gt;") == EscapeChar(c)
  {
    ReplaceAllSingle(c, '&', "&amp;");
    LaterPassesKeep(ReplaceAll([c], '&', "&amp;"));
  }

  /** Text without angle brackets goes through the second and third passes unchanged. */
  lemma LaterPassesKeep(e: string)
    requires '<' !in e && '>' !in e
    ensures ReplaceAll(ReplaceAll(e, '<', "&lt;"), '>', "&gt;") == e
  {
    ReplaceAllAbsent(e, '<', "&lt;");
    ReplaceAllAbsent(e, '>', "&gt;");
  }

  lemma PassesOnLess()
    ensures ReplaceAll(ReplaceAll(ReplaceAll("<", '&', "&amp;"), '<', "&lt;"), '>', "&gt;") == "&lt;"
  {
    ReplaceAllSingle('<', '&', "&amp;");
    ReplaceAllSingle('<', '<', "&lt;");
    ReplaceAllAbsent("&lt;", '>', "&gt;");
  }

  lemma PassesOnOther(c: char)
    requires c != '&' && c != '<'
    ensures ReplaceAll(ReplaceAll(ReplaceAll([c], '&', "&amp;"), '<', "&lt;"), '>', "&gt;") == EscapeChar(c)
  {
    ReplaceAllSingle(c, '&', "&amp;");
    ReplaceAllSingle(c, '<', "&lt;");
    ReplaceAllSingle(c, '>', "&gt;");
  }

  lemma {:induction false} EscapeIsPerCharacter(s: string)
    ensures ReplaceAll(ReplaceAll(ReplaceAll(s, '&', "&amp;"), '<', "&lt;"), '>', "&gt;") == EscapeEach(s)
    decreases |s|
  {
    if |s| > 0 {
      var c, t := s[0], s[1..];
      assert s == [c] + t;
      ReplaceAllConcat([c], t, '&', "&amp;");
      var a1, a2 := ReplaceAll([c], '&', "&amp;"), ReplaceAll(t, '&', "&amp;");
      ReplaceAllConcat(a1, a2, '<', "&lt;");
      var b1, b2 := ReplaceAll(a1, '<', "&lt;"), ReplaceAll(a2, '<', "&lt;");
      ReplaceAllConcat(b1, b2, '>', "&gt;");
      PassesOnChar(c);
      EscapeIsPerCharacter(t);
    }
  }

  lemma {:induction false} EscapeEachConcat(a: string, b: string)
    ensures EscapeEach(a + b) == EscapeEach(a) + EscapeEach(b)
    decreases |a|
  {
    if |a| == 0 {
      assert a + b == b;
    } else {
      assert (a + b)[1..] == a[1..] + b;
      EscapeEachConcat(a[1..], b);
    }
  }

  /** Wherever `url` occurs in a text, its escaped form occurs in the escaped text:
      the string the rewrite would have to look for is `Escape(url)`. */
  lemma EscapedUrlOccurs(text: string, url: string, i: int)
    requires OccursAt(text, url, i)
    ensures Occurs(Escape(text), Escape(url))
  {
    var a, c := text[..i], text[i + |url|..];
    assert text == a + url + c;
    EscapeEachConcat(a + url, c);
    EscapeEachConcat(a, url);
    var e := Escape(text);
    assert e == Escape(a) + Escape(url) + Escape(c);
    var k := |Escape(a)|;
    assert e[k..k + |Escape(url)|] == Escape(url);
    assert OccursAt(e, Escape(url), k);
  }

  /** Escaped text contains no `<` and no `>`. */
  lemma EscapeHasNoAngleBrackets(s: string)
    ensures '<' !in Escape(s) && '>' !in Escape(s)
  {
    EachHasNoAngleBrackets(s);
  }

  lemma {:induction false} EachHasNoAngleBrackets(s: string)
    ensures '<' !in EscapeEach(s) && '>' !in EscapeEach(s)
    decreases |s|
  {
    if |s| > 0 {
      EachHasNoAngleBrackets(s[1..]);
      assert EscapeEach(s) == EscapeChar(s[0]) + EscapeEach(s[1..]);
    }
  }

  /** The characters the escaper writes itself. */
  const EntityAlphabet: string := "&;<>aglmpt"

  /** A character outside the entity alphabet occurs in the escaped text exactly
      when it occurs in the input. */
  lemma {:induction false} EscapeKeepsOtherCharacters(s: string, c: char)
    requires c !in EntityAlphabet
    ensures c in Escape(s) <==> c in s
    decreases |s|
  {
    if |s| > 0 {
      EscapeKeepsOtherCharacters(s[1..], c);
      assert s == [s[0]] + s[1..];
      assert Escape(s) == EscapeChar(s[0]) + Escape(s[1..]);
      assert c in EscapeChar(s[0]) <==> c == s[0];
    }
  }

  /** An entity written by the escaper starts at index `i` of `r`. */
  predicate EntityAt(r: string, i: int)
  {
    0 <= i &&
    ((i + 5 <= |r| && r[i..i + 5] == "&amp;") ||
     (i + 4 <= |r| && r[i..i + 4] == "&lt;") ||
     (i + 4 <= |r| && r[i..i + 4] == "&gt;"))
  }

  lemma EntityAtShift(p: string, r: string, i: int)
    requires EntityAt(r, i)
    ensures EntityAt(p + r, |p| + i)
  {
    var w := if i + 5 <= |r| && r[i..i + 5] == "&amp;" then 5 else 4;
    assert (p + r)[|p| + i..|p| + i + w] == r[i..i + w];
  }

  /** Every `&` in escaped text begins one of the three entities. */
  lemma {:induction false} EscapeAmpersandsBeginEntities(s: string)
    ensures forall i :: 0 <= i < |Escape(s)| && Escape(s)[i] == '&' ==> EntityAt(Escape(s), i)
    decreases |s|
  {
    if |s| > 0 {
      var head, rest := EscapeChar(s[0]), Escape(s[1..]);
      EscapeAmpersandsBeginEntities(s[1..]);
      assert Escape(s) == head + rest;
      forall i | 0 <= i < |head + rest| && (head + rest)[i] == '&'
        ensures EntityAt(head + rest, i)
      {
        if i < |head| {
          assert i == 0;
          assert (head + rest)[..|head|] == head;
        } else {
          assert rest[i - |head|] == '&';
          EntityAtShift(head, rest, i - |head|);
        }
      }
    }
  }

  /** The inverse of escaping: decodes the three entities. */
  function Unescape(s: string): string
    decreases |s|
  {
    if |s| == 0 then []
    else if |s| >= 5 && s[..5] == "&amp;" then "&" + Unescape(s[5..])
    else if |s| >= 4 && s[..4] == "&lt;" then "<" + Unescape(s[4..])
    else if |s| >= 4 && s[..4] == "&gt;" then ">" + Unescape(s[4..])
    else [s[0]] + Unescape(s[1..])
  }

  /** Escaping loses nothing: unescaping the escaped text gives the input back,
      so two different texts never render the same. */
  lemma {:induction false} UnescapeEscape(s: string)
    ensures Unescape(Escape(s)) == s
    decreases |s|
  {
    if |s| > 0 {
      var c, t := s[0], s[1..];
      assert s == [c] + t;
      assert Escape(s) == EscapeChar(c) + Escape(t);
      UnescapeAfterEntity(c, Escape(t));
      UnescapeEscape(t);
    }
  }

  lemma UnescapeAfterEntity(c: char, rest: string)
    ensures Unescape(EscapeChar(c) + rest) == [c] + Unescape(rest)
  {
    if c == '&' {
      UnescapeAmp(rest);
    } else if c == '<' {
      UnescapeLt(rest);
    } else if c == '>' {
      UnescapeGt(rest);
    } else {
      UnescapePlain(c, rest);
    }
  }

  lemma UnescapeAmp(rest: string)
    ensures Unescape("&amp;" + rest) == "&" + Unescape(rest)
  {
    var e := "&amp;" + rest;
    assert e[..5] == "&amp;" && e[5..] == rest;
  }

  lemma UnescapeLt(rest: string)
    ensures Unescape("&lt;" + rest) == "<" + Unescape(rest)
  {
    var e := "&lt;" + rest;
    assert e[1] == 'l';
    assert e[..4] == "&lt;" && e[4..] == rest;
  }

  lemma UnescapeGt(rest: string)
    ensures Unescape("&gt;" + rest) == ">" + Unescape(rest)
  {
    var e := "&gt;" + rest;
    assert e[1] == 'g';
    assert e[..4] == "&gt;" && e[4..] == rest;
  }

  lemma UnescapePlain(c: char, rest: string)
    requires c != '&'
    ensures Unescape([c] + rest) == [c] + Unescape(rest)
  {
    var e := [c] + rest;
    assert e[0] == c && e[1..] == rest;
  }

  /** A URL in which some `&` is followed by a character other than `a`, `l` or `g`
      (a query string such as `?ex=1&is=2`) is never found in escaped text. */
  lemma UrlWithQueryNotInEscapedText(s: string, url: string, p: int)
    requires 0 <= p < |url| - 1 && url[p] == '&' && url[p + 1] !in "alg"
    ensures !Occurs(Escape(s), url)
  {
    var e := Escape(s);
    EscapeAmpersandsBeginEntities(s);
    forall i | 0 <= i
      ensures !OccursAt(e, url, i)
    {
      if OccursAt(e, url, i) {
        assert e[i + p] == url[p];
        assert e[i + p + 1] == url[p + 1];
        EntityContinues(e, i + p);
      }
    }
  }

  lemma EntityContinues(r: string, k: int)
    requires EntityAt(r, k)
    ensures k + 1 < |r| && r[k + 1] in "alg"
  {
    if k + 5 <= |r| && r[k..k + 5] == "&amp;" {
      assert r[k + 1] == r[k..k + 5][1];
    } else {
      assert r[k + 1] == r[k..k + 4][1];
    }
  }
}

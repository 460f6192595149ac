/**
 * XML text escaping: `escape_xml` of crates/genegis-analysis/src/export.rs, four whole-string
 * replacements in a row (XML 1.0, sections 2.4 and 4.6).
 */
module XmlEscape {
  import opened Common

  /** Replace every occurrence of one character. */
  function Replace(s: string, from: char, to: string): string {
    if s == [] then [] else (if s[0] == from then to else [s[0]]) + Replace(s[1..], from, to)
  }

  function Escape(s: string): string {
    Replace(Replace(Replace(Replace(s, '&', "&amp;"), '<', "&lt;"), '>', "&gt;"), '"', "&quot;")
  }

  /** The reference: each character on its own. */
  function Entity(c: char): string {
    if c == '&' then "&amp;"
    else if c == '<' then "&lt;"
    else if c == '>' then "&gt;"
    else if c == '"' then "&quot;"
    else [c]
  }

  function SinglePass(s: string): string {
    if s == [] then [] else Entity(s[0]) + SinglePass(s[1..])
  }

  lemma {:induction false} ReplaceSplit(a: string, b: string, from: char, to: string)
    ensures Replace(a + b, from, to) == Replace(a, from, to) + Replace(b, from, to)
    decreases |a|
  {
    if a == [] {
      assert a + b == b;
    } else {
      ReplaceSplit(a[1..], b, from, to);
      HeadAndTail(a, b);
      AppendAssociates(if a[0] == from then to else [a[0]], Replace(a[1..], from, to), Replace(b, from, to));
    }
  }

  lemma {:induction false} ReplaceAbsent(s: string, from: char, to: string)
    requires from !in s
    ensures Replace(s, from, to) == s
    decreases |s|
  {
    if s != [] {
      ReplaceAbsent(s[1..], from, to);
    }
  }

  lemma ReplaceOne(c: char, from: char, to: string)
    ensures Replace([c], from, to) == if c == from then to else [c]
  {
    assert [c][1..] == [];
  }

  /** An entity written early is left alone by a later replacement. */
  lemma EntityUntouched(e: string, from: char, to: string)
    requires e in {"&amp;", "&lt;", "&gt;"} && from in {'<', '>', '"'}
    ensures Replace(e, from, to) == e
  {
    ReplaceAbsent(e, from, to);
  }

  /** The ampersand goes first, so no later replacement touches an entity it did not write. */
  lemma EscapeOne(c: char)
    ensures Escape([c]) == Entity(c)
  {
    hide Replace;
    ReplaceOne(c, '&', "&amp;");
    ReplaceOne(c, '<', "&lt;");
    ReplaceOne(c, '>', "&gt;");
    ReplaceOne(c, '"', "&quot;");
    EntityUntouched("&amp;", '<', "&lt;");
    EntityUntouched("&amp;", '>', "&gt;");
    EntityUntouched("&amp;", '"', "&quot;");
    EntityUntouched("&lt;", '>', "&gt;");
    EntityUntouched("&lt;", '"', "&quot;");
    EntityUntouched("&gt;", '"', "&quot;");
  }

  lemma EscapeSplit(a: string, b: string)
    ensures Escape(a + b) == Escape(a) + Escape(b)
  {
    hide Replace;
    ReplaceSplit(a, b, '&', "&amp;");
    var a1, b1 := Replace(a, '&', "&amp;"), Replace(b, '&', "&amp;");
    ReplaceSplit(a1, b1, '<', "&lt;");
    var a2, b2 := Replace(a1, '<', "&lt;"), Replace(b1, '<', "&lt;");
    ReplaceSplit(a2, b2, '>', "&gt;");
    ReplaceSplit(Replace(a2, '>', "&gt;"), Replace(b2, '>', "&gt;"), '"', "&quot;");
  }

  /** The four characters of markup are written as their entities, every other one as itself. */
  lemma {:induction false} EscapedCharacters(c: char)
    ensures Escape("&") == "&amp;" && Escape("<") == "&lt;" && Escape(">") == "&gt;" && Escape("\"") == "&quot;"
    ensures c !in "&<>\"" ==> Escape([c]) == [c]
  {
    hide Escape;
    EscapeOne('&');
    EscapeOne('<');
    EscapeOne('>');
    EscapeOne('"');
    EscapeOne(c);
    assert "&<>\""[0] == '&' && "&<>\""[1] == '<' && "&<>\""[2] == '>' && "&<>\""[3] == '"';
  }

  /** Four passes over the string equal one pass over its characters. */
  lemma {:induction false} EscapeIsSinglePass(s: string)
    ensures Escape(s) == SinglePass(s)
    decreases |s|
  {
    if s != [] {
      hide Escape;
      EscapeSplit([s[0]], s[1..]);
      assert [s[0]] + s[1..] == s;
      EscapeOne(s[0]);
      EscapeIsSinglePass(s[1..]);
    }
  }

  predicate IsPrefix(p: string, s: string) {
    |p| <= |s| && s[..|p|] == p
  }

  predicate StartsEntity(s: string) {
    IsPrefix("&amp;", s) || IsPrefix("&lt;", s) || IsPrefix("&gt;", s) || IsPrefix("&quot;", s)
  }

  /** Nothing in the text can open markup, and every ampersand begins an entity. */
  predicate SafeText(t: string) {
    forall i :: 0 <= i < |t| ==>
      t[i] != '<' && t[i] != '>' && t[i] != '"' && (t[i] == '&' ==> StartsEntity(t[i..]))
  }

  lemma SafeAppend(c: char, t: string)
    requires SafeText(t)
    ensures SafeText(Entity(c) + t)
  {
    var e := Entity(c);
    forall i | 0 <= i < |e + t|
      ensures (e + t)[i] != '<' && (e + t)[i] != '>' && (e + t)[i] != '"'
      ensures (e + t)[i] == '&' ==> StartsEntity((e + t)[i..])
    {
      if i >= |e| {
        assert (e + t)[i..] == t[i - |e|..];
      } else if (e + t)[i] == '&' {
        assert i == 0;
        assert IsPrefix(e, (e + t)[0..]);
      }
    }
  }

  lemma {:induction false} EscapeIsSafe(s: string)
    ensures SafeText(Escape(s))
    decreases |s|
  {
    EscapeIsSinglePass(s);
    if s != [] {
      hide Escape;
      EscapeIsSinglePass(s[1..]);
      EscapeIsSafe(s[1..]);
      SafeAppend(s[0], SinglePass(s[1..]));
    }
  }

  /** What an XML reader makes of the four entities. */
  function Unescape(t: string): string {
    if t == [] then []
    else if IsPrefix("&amp;", t) then ['&'] + Unescape(t[5..])
    else if IsPrefix("&lt;", t) then ['<'] + Unescape(t[4..])
    else if IsPrefix("&gt;", t) then ['>'] + Unescape(t[4..])
    else if IsPrefix("&quot;", t) then ['"'] + Unescape(t[6..])
    else [t[0]] + Unescape(t[1..])
  }

  lemma NoPrefix(p: string, s: string, k: nat)
    requires k < |p| && k < |s| && s[k] != p[k]
    ensures !IsPrefix(p, s)
  {}

  lemma {:induction false} UnescapeEntity(c: char, t: string)
    ensures Unescape(Entity(c) + t) == [c] + Unescape(t)
  {
    var e := Entity(c);
    var s := e + t;
    assert s[..|e|] == e && s[|e|..] == t && s[0] == e[0];
    assert IsPrefix(e, s);
    hide IsPrefix;
    if c == '&' {
    } else if c == '<' || c == '>' || c == '"' {
      assert s[1] == e[1];
      NoPrefix("&amp;", s, 1);
      if c != '<' { NoPrefix("&lt;", s, 1); }
      if c == '"' { NoPrefix("&gt;", s, 1); }
    } else {
      NoPrefix("&amp;", s, 0);
      NoPrefix("&lt;", s, 0);
      NoPrefix("&gt;", s, 0);
      NoPrefix("&quot;", s, 0);
    }
  }

  /** Reading the escaped text back gives the original string. */
  lemma {:induction false} EscapeRoundTrip(s: string)
    ensures Unescape(Escape(s)) == s
    decreases |s|
  {
    EscapeIsSinglePass(s);
    if s != [] {
      hide Escape, Unescape;
      EscapeIsSinglePass(s[1..]);
      EscapeRoundTrip(s[1..]);
      UnescapeEntity(s[0], SinglePass(s[1..]));
    } else {
      assert Unescape([]) == [];
    }
  }
}

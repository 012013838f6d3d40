/**
 * The `escape` routine that every generated module defines and that `=`
 * directives call on their value, taken here on string values.
 */
module HtmlEscape {
  import opened Text

  /** The source text of the routine, appended to every generated module. */
  const EscapeFunctionSource: string :=
    "function escape(str){\n" +
    "  return str && str.replace(/&/g, '&amp;').replace(/</g, '&lt;').replace(/>/g, '&gt;').replace(/\"/g, '&quot;');\n" +
    "}\n"

  /** The characters that the routine rewrites. */
  predicate Special(c: char)
  {
    c == '&' || c == '<' || c == '>' || c == '"'
  }

  /**
   * `str && str.replace(...)...` on a string: the empty string is falsy and
   * comes back as it is; otherwise `&`, `<`, `>` and `"` are replaced, `&` first.
   * The result holds no raw `<`, `>` or `"`, so it cannot open or close markup
   * or an attribute value.
   */
  function Escape(str: string): (r: string)
    ensures forall c :: c in r ==> c != '<' && c != '>' && c != '"'
  {
    if str == "" then str
    else
      var s1 := ReplaceAll(str, {'&'}, "&amp;");
      var s2 := ReplaceAll(s1, {'<'}, "&lt;");
      var s3 := ReplaceAll(s2, {'>'}, "&gt;");
      ReplaceAllChars(s1, {'<'}, "&lt;");
      ReplaceAllChars(s2, {'>'}, "&gt;");
      ReplaceAllChars(s3, {'"'}, "&quot;");
      ReplaceAll(s3, {'"'}, "&quot;")
  }

  /** The entity for one character, as a single pass would write it. */
  function EntityOf(c: char): string
  {
    if c == '&' then "&amp;"
    else if c == '<' then "&lt;"
    else if c == '>' then "&gt;"
    else if c == '"' then "&quot;"
    else [c]
  }

  /** The single-pass reference: each character replaced by its entity. */
  function EntityEach(s: string): string
  {
    if s == [] then [] else EntityOf(s[0]) + EntityEach(s[1..])
  }

  /** Reading entities back, left to right; any other `&` stands for itself. */
  function Unescape(t: string): string
    decreases |t|
  {
    if t == [] then []
    else if "&amp;" <= t then "&" + Unescape(t[5..])
    else if "&lt;" <= t then "<" + Unescape(t[4..])
    else if "&gt;" <= t then ">" + Unescape(t[4..])
    else if "&quot;" <= t then "\"" + Unescape(t[6..])
    else [t[0]] + Unescape(t[1..])
  }

  /** The replace chain (without the falsy test) distributes over concatenation. */
  lemma ChainConcat(a: string, b: string)
    requires a != [] && b != []
    ensures Escape(a + b) == Escape(a) + Escape(b)
  {
    var a1, b1 := ReplaceAll(a, {'&'}, "&amp;"), ReplaceAll(b, {'&'}, "&amp;");
    ReplaceAllConcat(a, b, {'&'}, "&amp;");
    var a2, b2 := ReplaceAll(a1, {'<'}, "&lt;"), ReplaceAll(b1, {'<'}, "&lt;");
    ReplaceAllConcat(a1, b1, {'<'}, "&lt;");
    var a3, b3 := ReplaceAll(a2, {'>'}, "&gt;"), ReplaceAll(b2, {'>'}, "&gt;");
    ReplaceAllConcat(a2, b2, {'>'}, "&gt;");
    ReplaceAllConcat(a3, b3, {'"'}, "&quot;");
  }

  /** On one character the chain gives that character's entity: `&amp;` is not rewritten again. */
  lemma ChainOnChar(c: char)
    ensures Escape([c]) == EntityOf(c)
  {
    if c == '&' { EscapeAmp(); }
    else if c == '<' { EscapeLt(); }
    else if c == '>' { EscapeGt(); }
    else if c == '"' { EscapeQuot(); }
    else { EscapeOther(c); }
  }

  /** Unfolds the routine on a non-empty string once its first replace step is known. */
  lemma EscapeSteps(str: string, s1: string, t: string)
    requires str != ""
    requires ReplaceAll(str, {'&'}, "&amp;") == s1
    requires ReplaceAll(ReplaceAll(ReplaceAll(s1, {'<'}, "&lt;"), {'>'}, "&gt;"), {'"'}, "&quot;") == t
    ensures Escape(str) == t
  {
  }

  lemma EscapeAmp()
    ensures Escape("&") == "&amp;"
  {
    ReplaceAllSingle('&', {'&'}, "&amp;");
    AmpEntityInert();
    EscapeSteps("&", "&amp;", "&amp;");
  }

  /** The later steps of the chain leave `&amp;` alone. */
  lemma AmpEntityInert()
    ensures ReplaceAll("&amp;", {'<'}, "&lt;") == "&amp;"
    ensures ReplaceAll("&amp;", {'>'}, "&gt;") == "&amp;"
    ensures ReplaceAll("&amp;", {'"'}, "&quot;") == "&amp;"
  {
    ReplaceAllNoop("&amp;", {'<'}, "&lt;");
    ReplaceAllNoop("&amp;", {'>'}, "&gt;");
    ReplaceAllNoop("&amp;", {'"'}, "&quot;");
  }

  lemma EscapeLt()
    ensures Escape("<") == "&lt;"
  {
    ReplaceAllSingle('<', {'&'}, "&amp;");
    ReplaceAllSingle('<', {'<'}, "&lt;");
    ReplaceAllNoop("&lt;", {'>'}, "&gt;");
    ReplaceAllNoop("&lt;", {'"'}, "&quot;");
    EscapeSteps("<", "<", "&lt;");
  }

  lemma EscapeGt()
    ensures Escape(">") == "&gt;"
  {
    ReplaceAllSingle('>', {'&'}, "&amp;");
    ReplaceAllSingle('>', {'<'}, "&lt;");
    ReplaceAllSingle('>', {'>'}, "&gt;");
    ReplaceAllNoop("&gt;", {'"'}, "&quot;");
    EscapeSteps(">", ">", "&gt;");
  }

  lemma EscapeQuot()
    ensures Escape("\"") == "&quot;"
  {
    ReplaceAllSingle('"', {'&'}, "&amp;");
    ReplaceAllSingle('"', {'<'}, "&lt;");
    ReplaceAllSingle('"', {'>'}, "&gt;");
    ReplaceAllSingle('"', {'"'}, "&quot;");
    EscapeSteps("\"", "\"", "&quot;");
  }

  lemma EscapeOther(c: char)
    requires !Special(c)
    ensures Escape([c]) == [c]
  {
    ReplaceAllSingle(c, {'&'}, "&amp;");
    ReplaceAllSingle(c, {'<'}, "&lt;");
    ReplaceAllSingle(c, {'>'}, "&gt;");
    ReplaceAllSingle(c, {'"'}, "&quot;");
  }

  /** Replacing `&` first means no entity is escaped twice: the chain is the single pass. */
  lemma {:induction false} EscapeIsSinglePass(s: string)
    ensures Escape(s) == EntityEach(s)
  {
    if s != [] {
      ChainOnChar(s[0]);
      if |s| > 1 {
        assert s == [s[0]] + s[1..];
        ChainConcat([s[0]], s[1..]);
        EscapeIsSinglePass(s[1..]);
      } else {
        assert s == [s[0]];
      }
    }
  }

  /** Reading back one entity in front of the rest. */
  lemma UnescapeEntity(c: char, rest: string)
    ensures Unescape(EntityOf(c) + rest) == [c] + Unescape(rest)
  {
    if c == '&' { UnescapeAmp(rest); }
    else if c == '<' { UnescapeLt(rest); }
    else if c == '>' { UnescapeGt(rest); }
    else if c == '"' { UnescapeQuot(rest); }
    else {
      var t := EntityOf(c) + rest;
      assert t[0] == c && t[1..] == rest;
    }
  }

  lemma UnescapeAmp(rest: string)
    ensures Unescape("&amp;" + rest) == "&" + Unescape(rest)
  {
    var t := "&amp;" + rest;
    assert "&amp;" <= t && t[5..] == rest;
  }

  lemma UnescapeLt(rest: string)
    ensures Unescape("&lt;" + rest) == "<" + Unescape(rest)
  {
    var t := "&lt;" + rest;
    assert t[1] == 'l' && "&lt;" <= t && t[4..] == rest;
  }

  lemma UnescapeGt(rest: string)
    ensures Unescape("&gt;" + rest) == ">" + Unescape(rest)
  {
    var t := "&gt;" + rest;
    assert t[1] == 'g' && "&gt;" <= t && t[4..] == rest;
  }

  lemma UnescapeQuot(rest: string)
    ensures Unescape("&quot;" + rest) == "\"" + Unescape(rest)
  {
    var t := "&quot;" + rest;
    assert t[1] == 'q' && "&quot;" <= t && t[6..] == rest;
  }

  lemma {:induction false} EntityEachRoundTrip(s: string)
    ensures Unescape(EntityEach(s)) == s
  {
    if s != [] {
      UnescapeEntity(s[0], EntityEach(s[1..]));
      EntityEachRoundTrip(s[1..]);
    }
  }

  /** Un-escaping the routine's output recovers its input. */
  lemma {:induction false} EscapeRoundTrip(s: string)
    ensures Unescape(Escape(s)) == s
  {
    EscapeIsSinglePass(s);
    EntityEachRoundTrip(s);
  }

  /** Every `&` in the routine's output begins one of the four entities. */
  lemma AmpersandsStartEntities(s: string, k: int)
    requires 0 <= k < |Escape(s)| && Escape(s)[k] == '&'
    ensures var t := Escape(s)[k..];
            "&amp;" <= t || "&lt;" <= t || "&gt;" <= t || "&quot;" <= t
  {
    EscapeIsSinglePass(s);
    EachAmpersandStartsEntity(s, k);
  }

  /** Every `&` in the single-pass output begins one of the four entities. */
  lemma {:induction false} EachAmpersandStartsEntity(s: string, k: int)
    requires 0 <= k < |EntityEach(s)| && EntityEach(s)[k] == '&'
    ensures var t := EntityEach(s)[k..];
            "&amp;" <= t || "&lt;" <= t || "&gt;" <= t || "&quot;" <= t
  {
    var e := EntityOf(s[0]);
    assert EntityEach(s) == e + EntityEach(s[1..]);
    if k < |e| {
      assert k == 0;
      assert EntityEach(s)[k..] == e + EntityEach(s[1..]);
    } else {
      assert EntityEach(s)[k..] == EntityEach(s[1..])[k - |e|..];
      EachAmpersandStartsEntity(s[1..], k - |e|);
    }
  }

  /** A string with none of the four special characters is returned unchanged. */
  lemma {:induction false} EscapeUnchanged(s: string)
    requires forall c :: c in s ==> !Special(c)
    ensures Escape(s) == s
  {
    EscapeIsSinglePass(s);
    EntityEachUnchanged(s);
  }

  lemma {:induction false} EntityEachUnchanged(s: string)
    requires forall c :: c in s ==> !Special(c)
    ensures EntityEach(s) == s
  {
    if s != [] {
      assert s[0] in s;
      assert forall c :: c in s[1..] ==> c in s;
      EntityEachUnchanged(s[1..]);
    }
  }

  /** The case the tests check: every special character at once. */
  lemma EscapeAllSpecials(s: string)
    requires s == "&<>\""
    ensures Escape(s) == "&amp;&lt;&gt;&quot;"
  {
    EscapeIsSinglePass(s);
    EntityEachCons('&', "<>\"");
    EntityEachCons('<', ">\"");
    EntityEachCons('>', "\"");
    EntityEachCons('"', "");
  }

  lemma EntityEachCons(c: char, s: string)
    ensures EntityEach([c] + s) == EntityOf(c) + EntityEach(s)
  {
    assert ([c] + s)[1..] == s;
  }
}

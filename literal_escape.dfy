/**
 * How `parse` turns a literal span of the template into the body of a
 * single-quoted JavaScript string literal, and what that literal means when
 * the generated code is read back.
 */
module LiteralEscape {
  import opened Wrappers
  import opened Text

  /**
   * The replace chain applied to every literal span: backslash doubled,
   * single quote escaped, tab turned into two spaces, carriage return
   * deleted, line feed turned into the escape `\n`, in this order. The
   * result holds no raw line feed, carriage return or tab, so the generated
   * statement stays on one line.
   */
  function EscapeLiteral(s: string): (t: string)
    ensures forall c :: c in t ==> c != '\n' && c != '\r' && c != '\t'
  {
    var s1 := ReplaceAll(s, {'\\'}, "\\\\");
    var s2 := ReplaceAll(s1, {'\''}, "\\'");
    var s3 := ReplaceAll(s2, {'\t'}, "  ");
    var s4 := ReplaceAll(s3, {'\r'}, "");
    ReplaceAllChars(s2, {'\t'}, "  ");
    ReplaceAllChars(s3, {'\r'}, "");
    ReplaceAllChars(s4, {'\n'}, "\\n");
    ReplaceAll(s4, {'\n'}, "\\n")
  }

  /** What the chain does to one character, seen as a single pass. */
  function EscapeChar(c: char): string
  {
    if c == '\\' then "\\\\"
    else if c == '\'' then "\\'"
    else if c == '\t' then "  "
    else if c == '\r' then ""
    else if c == '\n' then "\\n"
    else [c]
  }

  /** The single-pass reference for the chain: each character escaped on its own. */
  function EscapeEach(s: string): string
  {
    if s == [] then [] else EscapeChar(s[0]) + EscapeEach(s[1..])
  }

  /** The text a literal span contributes to the rendered output: tabs widened to two spaces, carriage returns dropped. */
  function Normalize(s: string): (t: string)
    ensures forall c :: c in t ==> c != '\t' && c != '\r'
  {
    if s == [] then []
    else (if s[0] == '\t' then "  " else if s[0] == '\r' then "" else [s[0]]) + Normalize(s[1..])
  }

  /**
   * The value of a JavaScript single-quoted string literal with body `t`, for
   * the escapes `\\`, `\'` and `\n`; None when `t` could not stand between two
   * single quotes (a bare quote, a line break, a dangling backslash) or uses
   * another escape.
   */
  function DecodeJsString(t: string): Option<string>
    decreases |t|
  {
    if t == [] then Some([])
    else if t[0] == '\\' then
      if |t| < 2 then None
      else
        var c := if t[1] == '\\' then Some('\\') else if t[1] == '\'' then Some('\'')
                 else if t[1] == 'n' then Some('\n') else None;
        match (c, DecodeJsString(t[2..]))
        case (Some(d), Some(rest)) => Some([d] + rest)
        case _ => None
    else if t[0] == '\'' || t[0] == '\n' || t[0] == '\r' then None
    else
      match DecodeJsString(t[1..])
      case Some(rest) => Some([t[0]] + rest)
      case None => None
  }

  /** The replace chain distributes over concatenation, since each step does. */
  lemma EscapeLiteralConcat(a: string, b: string)
    ensures EscapeLiteral(a + b) == EscapeLiteral(a) + EscapeLiteral(b)
  {
    var a1, b1 := ReplaceAll(a, {'\\'}, "\\\\"), ReplaceAll(b, {'\\'}, "\\\\");
    ReplaceAllConcat(a, b, {'\\'}, "\\\\");
    var a2, b2 := ReplaceAll(a1, {'\''}, "\\'"), ReplaceAll(b1, {'\''}, "\\'");
    ReplaceAllConcat(a1, b1, {'\''}, "\\'");
    var a3, b3 := ReplaceAll(a2, {'\t'}, "  "), ReplaceAll(b2, {'\t'}, "  ");
    ReplaceAllConcat(a2, b2, {'\t'}, "  ");
    var a4, b4 := ReplaceAll(a3, {'\r'}, ""), ReplaceAll(b3, {'\r'}, "");
    ReplaceAllConcat(a3, b3, {'\r'}, "");
    ReplaceAllConcat(a4, b4, {'\n'}, "\\n");
  }

  /** On one character the replace chain gives that character's escape. */
  lemma EscapeLiteralChar(c: char)
    ensures EscapeLiteral([c]) == EscapeChar(c)
  {
    ReplaceAllSingle(c, {'\\'}, "\\\\");
    if c == '\\' {
      ReplaceAllSingle('\\', {'\''}, "\\'");
    } else if c == '\'' {
      var q := "\\'";
      ReplaceAllSingle(c, {'\''}, q);
      assert ReplaceAll([c], {'\''}, q) == q;
    } else {
      ReplaceAllSingle(c, {'\''}, "\\'");
      ReplaceAllSingle(c, {'\t'}, "  ");
      if c != '\t' {
        ReplaceAllSingle(c, {'\r'}, "");
        if c != '\r' {
          ReplaceAllSingle(c, {'\n'}, "\\n");
        }
      }
    }
  }

  /** The replace chain is the single-pass escape: no replacement step rewrites the output of an earlier one. */
  lemma {:induction false} EscapeLiteralIsSinglePass(s: string)
    ensures EscapeLiteral(s) == EscapeEach(s)
  {
    if s != [] {
      assert s == [s[0]] + s[1..];
      EscapeLiteralConcat([s[0]], s[1..]);
      EscapeLiteralChar(s[0]);
      EscapeLiteralIsSinglePass(s[1..]);
    }
  }

  /** Decoding one escaped character in front of the escaped rest. */
  lemma DecodeEscapeChar(c: char, rest: string)
    ensures DecodeJsString(EscapeChar(c) + rest) ==
            match DecodeJsString(rest)
            case Some(r) => Some(Normalize([c]) + r)
            case None => None
  {
    var t := EscapeChar(c) + rest;
    assert Normalize([c]) == (if c == '\t' then "  " else if c == '\r' then "" else [c]);
    if c == '\\' || c == '\'' || c == '\n' {
      assert t[2..] == rest;
    } else if c == '\t' {
      var u := [' '] + rest;
      assert t[1..] == u && u[1..] == rest;
      assert DecodeJsString(u) == match DecodeJsString(rest)
        case Some(r) => Some([' '] + r)
        case None => None;
      if DecodeJsString(rest).Some? {
        var r := DecodeJsString(rest).value;
        assert [' '] + ([' '] + r) == Normalize([c]) + r;
      }
    } else if c == '\r' {
      assert t == rest;
      if DecodeJsString(rest).Some? {
        var r := DecodeJsString(rest).value;
        assert Normalize([c]) + r == r;
      }
    } else {
      assert t[1..] == rest;
    }
  }

  /** Normalize distributes over a leading character. */
  lemma NormalizeCons(c: char, s: string)
    ensures Normalize([c] + s) == Normalize([c]) + Normalize(s)
  {
    assert ([c] + s)[1..] == s;
    assert [c][1..] == [];
  }

  /**
   * Literal round trip: the escaped span is a well-formed single-quoted
   * JavaScript literal body whose value is the span with each tab widened to
   * two spaces and every carriage return removed.
   */
  lemma {:induction false} LiteralRoundTrip(s: string)
    ensures DecodeJsString(EscapeLiteral(s)) == Some(Normalize(s))
  {
    EscapeLiteralIsSinglePass(s);
    EscapeEachRoundTrip(s);
  }

  lemma {:induction false} EscapeEachRoundTrip(s: string)
    ensures DecodeJsString(EscapeEach(s)) == Some(Normalize(s))
  {
    if s != [] {
      EscapeEachRoundTrip(s[1..]);
      DecodeEscapeChar(s[0], EscapeEach(s[1..]));
      assert s == [s[0]] + s[1..];
      NormalizeCons(s[0], s[1..]);
    }
  }

  /** A span without tab or carriage return reads back exactly. */
  lemma {:induction false} NormalizeIdentity(s: string)
    requires forall c :: c in s ==> c != '\t' && c != '\r'
    ensures Normalize(s) == s
  {
    if s != [] {
      assert s[0] in s;
      assert forall c :: c in s[1..] ==> c in s;
      NormalizeIdentity(s[1..]);
    }
  }
}

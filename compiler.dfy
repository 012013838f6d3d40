/**
 * The template compiler `Pages.prototype.parse`: the scan that splits a
 * template into literal spans and directives, and the JavaScript text each
 * piece becomes.
 */
module Compiler {
  import opened Wrappers
  import opened Text
  import opened LiteralEscape
  import HtmlEscape

  /** The compiler's configuration: open marker, close marker and the render function's parameter name. */
  datatype Delims = Delims(openWord: string, closeWord: string, renderArgName: string)

  /** Both markers are non-empty, as the constructor's defaulting guarantees. */
  predicate ValidDelims(d: Delims)
  {
    d.openWord != "" && d.closeWord != ""
  }

  /** One piece of the template, in the order the scan meets it. */
  datatype Segment =
    | Literal(text: string)       // text between a close marker and the next open marker
    | Scriptlet(code: string)     // directive without sigil: a verbatim statement
    | RawExpr(expr: string)       // `-` directive: appended without escaping
    | EscapedExpr(expr: string)   // `=` directive: appended through `escape`

  /** The template text a segment was read from (for a directive, the body between the markers). */
  function SourceText(seg: Segment): string
  {
    match seg
    case Literal(t) => t
    case Scriptlet(c) => c
    case RawExpr(e) => "-" + e
    case EscapedExpr(e) => "=" + e
  }

  /** The `switch (str.substring(0, 1))` on a directive body. */
  function Classify(body: string): (seg: Segment)
    ensures !seg.Literal?
    ensures SourceText(seg) == body
  {
    if |body| > 0 && body[0] == '-' then RawExpr(body[1..])
    else if |body| > 0 && body[0] == '=' then EscapedExpr(body[1..])
    else Scriptlet(body)
  }

  /** The sigil decides the kind: `-` a raw expression, `=` an escaped one, anything else (the empty body too) a scriptlet. */
  lemma ClassifyBySigil(body: string)
    ensures Classify(body).RawExpr? <==> |body| > 0 && body[0] == '-'
    ensures Classify(body).EscapedExpr? <==> |body| > 0 && body[0] == '='
    ensures Classify(body).Scriptlet? <==> !(|body| > 0 && (body[0] == '-' || body[0] == '='))
    ensures IsDirective(Classify(body))
  {
  }

  /** A directive segment that some body classifies to: a scriptlet never starts with a sigil. */
  predicate IsDirective(seg: Segment)
  {
    match seg
    case Literal(_) => false
    case Scriptlet(c) => !(|c| > 0 && (c[0] == '-' || c[0] == '='))
    case _ => true
  }

  /** Classification loses nothing: every directive segment is the classification of its own source text. */
  lemma ClassifySourceText(seg: Segment)
    requires IsDirective(seg)
    ensures Classify(SourceText(seg)) == seg
  {
    match seg
    case RawExpr(e) => assert ("-" + e)[1..] == e;
    case EscapedExpr(e) => assert ("=" + e)[1..] == e;
    case Scriptlet(c) =>
  }

  /** The text around an escaped literal span in its append statement. */
  const LiteralOpen: string := "  renderStr += '"
  const LiteralClose: string := "';\n"

  /** The JavaScript text appended to `buf` for one segment: a statement that ends its line. */
  function Emit(seg: Segment): (stmt: string)
    ensures |stmt| > 0 && stmt[|stmt| - 1] == '\n'
  {
    match seg
    case Literal(t) => LiteralOpen + EscapeLiteral(t) + LiteralClose
    case RawExpr(e) => "  renderStr += " + e + ";\n"
    case EscapedExpr(e) => "  renderStr += escape(" + e + ");\n"
    case Scriptlet(c) => c + "\n"
  }

  function EmitAll(segs: seq<Segment>): string
  {
    if segs == [] then [] else Emit(segs[0]) + EmitAll(segs[1..])
  }

  /** The opening of every generated module. */
  function Header(renderArgName: string): string
  {
    "exports.render = function(" + renderArgName + "){\n  var renderStr = '';\n"
  }

  /** The closing of every generated module, followed by the `escape` routine. */
  const Footer: string := "  return renderStr;\n};\n" + HtmlEscape.EscapeFunctionSource

  /** `closeWord + src + openWord`: the scan then starts on a close marker and always finds a final open marker. */
  function Wrap(src: string, ow: string, cw: string): (w: string)
    ensures OccursAt(w, cw, 0)
    ensures OccursAt(w, ow, |cw| + |src|)
    ensures w[|cw|..|cw| + |src|] == src
  {
    SliceMiddle(cw, src, ow);
    assert (cw + src + ow)[..|cw|] == cw;
    cw + src + ow
  }

  /**
   * The segments the loop of `parse` meets in `w` from position `i`, where a
   * close marker `cw` starts: the literal up to the next open marker `ow`,
   * then the directive up to the next close marker, and on from there; the
   * scan stops when a marker it looks for is missing. The segments
   * alternate: a literal at each even position, a directive at each odd one.
   */
  function Scan(w: string, ow: string, cw: string, i: nat): (segs: seq<Segment>)
    requires ow != "" && cw != "" && OccursAt(w, cw, i)
    ensures Alternating(segs)
    decreases |w| - i
  {
    var start := i + |cw|;
    var e := IndexOf(w, ow, start);
    if e < 0 then []
    else
      var s2 := e + |ow|;
      var e2 := IndexOf(w, cw, s2);
      if e2 < 0 then [Literal(w[start..e])]
      else
        var rest := Scan(w, ow, cw, e2);
        AlternatingStep(w[start..e], Classify(w[s2..e2]), rest);
        [Literal(w[start..e]), Classify(w[s2..e2])] + rest
  }

  /**
   * The generated module for template `src`: it opens with the render
   * function's header and ends with its return and the `escape` routine.
   */
  function Compile(src: string, d: Delims): (c: string)
    requires ValidDelims(d)
    ensures |Header(d.renderArgName)| + |Footer| <= |c|
    ensures c[..|Header(d.renderArgName)|] == Header(d.renderArgName)
    ensures c[|c| - |Footer|..] == Footer
  {
    var h := Header(d.renderArgName);
    var m := EmitAll(Scan(Wrap(src, d.openWord, d.closeWord), d.openWord, d.closeWord, 0));
    assert (h + m + Footer)[..|h|] == h;
    assert (h + m + Footer)[|h + m|..] == Footer;
    h + m + Footer
  }

  /** The scan when no open marker follows. */
  lemma ScanEmpty(w: string, ow: string, cw: string, i: nat, e: int)
    requires ow != "" && cw != "" && OccursAt(w, cw, i)
    requires e == IndexOf(w, ow, i + |cw|) && e < 0
    ensures Scan(w, ow, cw, i) == []
  {
  }

  /** The scan when the open marker is found and no close marker follows it. */
  lemma ScanLastLiteral(w: string, ow: string, cw: string, i: nat, e: int, e2: int)
    requires ow != "" && cw != "" && OccursAt(w, cw, i)
    requires e == IndexOf(w, ow, i + |cw|) && e >= 0
    requires e2 == IndexOf(w, cw, e + |ow|) && e2 < 0
    ensures Scan(w, ow, cw, i) == [Literal(w[i + |cw|..e])]
  {
  }

  /** One step of the scan when both markers are found. */
  lemma ScanStep(w: string, ow: string, cw: string, i: nat, e: int, e2: int)
    requires ow != "" && cw != "" && OccursAt(w, cw, i)
    requires e == IndexOf(w, ow, i + |cw|) && e >= 0
    requires e2 == IndexOf(w, cw, e + |ow|) && e2 >= 0
    ensures Scan(w, ow, cw, i) == [Literal(w[i + |cw|..e]), Classify(w[e + |ow|..e2])] + Scan(w, ow, cw, e2)
  {
  }

  /** What the scan from `i` emits when no open marker follows. */
  lemma EmitScanEmpty(w: string, ow: string, cw: string, i: nat, s: nat, e: int)
    requires ow != "" && cw != "" && OccursAt(w, cw, i)
    requires s == i + |cw| && e == IndexOf(w, ow, s) && e < 0
    ensures EmitAll(Scan(w, ow, cw, i)) == ""
  {
    ScanEmpty(w, ow, cw, i, e);
  }

  /** What the scan from `i` emits when an open marker follows but no close marker after it. */
  lemma EmitScanLast(w: string, ow: string, cw: string, i: nat, s: nat, e: int, s2: nat, e2: int)
    requires ow != "" && cw != "" && OccursAt(w, cw, i)
    requires s == i + |cw| && e == IndexOf(w, ow, s) && e >= 0
    requires s2 == e + |ow| && e2 == IndexOf(w, cw, s2) && e2 < 0
    ensures EmitAll(Scan(w, ow, cw, i)) == Emit(Literal(w[s..e]))
  {
    ScanLastLiteral(w, ow, cw, i, e, e2);
    SingleLiteral(w[s..e]);
  }

  /** What the scan from `i` emits when both markers follow: a literal, a directive, then the rest. */
  lemma EmitScanStep(w: string, ow: string, cw: string, i: nat, s: nat, e: int, s2: nat, e2: int)
    requires ow != "" && cw != "" && OccursAt(w, cw, i)
    requires s == i + |cw| && e == IndexOf(w, ow, s) && e >= 0
    requires s2 == e + |ow| && e2 == IndexOf(w, cw, s2) && e2 >= 0
    ensures OccursAt(w, cw, e2) && i < e2
    ensures EmitAll(Scan(w, ow, cw, i)) == Emit(Literal(w[s..e])) + Emit(Classify(w[s2..e2])) + EmitAll(Scan(w, ow, cw, e2))
  {
    ScanStep(w, ow, cw, i, e, e2);
    EmitPair(Literal(w[s..e]), Classify(w[s2..e2]), Scan(w, ow, cw, e2));
  }

  lemma EmitPair(a: Segment, b: Segment, rest: seq<Segment>)
    ensures EmitAll([a, b] + rest) == Emit(a) + Emit(b) + EmitAll(rest)
  {
    var tail := [b] + rest;
    EmitCons(b, rest);
    EmitCons(a, tail);
    assert [a, b] + rest == [a] + tail;
  }

  lemma EmitCons(a: Segment, rest: seq<Segment>)
    ensures EmitAll([a] + rest) == Emit(a) + EmitAll(rest)
  {
    assert ([a] + rest)[1..] == rest;
  }

  /** Literals at the even positions, directives at the odd ones. */
  predicate Alternating(segs: seq<Segment>)
  {
    forall k :: 0 <= k < |segs| ==> (segs[k].Literal? <==> k % 2 == 0)
  }

  lemma AlternatingStep(lit: string, dir: Segment, rest: seq<Segment>)
    requires !dir.Literal? && Alternating(rest)
    ensures Alternating([Literal(lit), dir] + rest)
  {
    var segs := [Literal(lit), dir] + rest;
    forall k | 2 <= k < |segs| ensures segs[k].Literal? <==> k % 2 == 0 {
      assert segs[k] == rest[k - 2];
    }
  }

  /** The template text that a segment list covers: each literal followed by the open marker, each directive by the close marker. */
  function Marked(segs: seq<Segment>, ow: string, cw: string): string
  {
    if segs == [] then []
    else (if segs[0].Literal? then segs[0].text + ow else SourceText(segs[0]) + cw)
         + Marked(segs[1..], ow, cw)
  }

  /** Marked distributes over a literal and a directive in front. */
  lemma MarkedStep(lit: string, dir: Segment, rest: seq<Segment>, ow: string, cw: string)
    requires !dir.Literal?
    ensures Marked([Literal(lit), dir] + rest, ow, cw) == lit + ow + (SourceText(dir) + cw + Marked(rest, ow, cw))
  {
    var segs := [Literal(lit), dir] + rest;
    assert segs[1..] == [dir] + rest && segs[1..][1..] == rest;
  }

  /** Marked of one literal. */
  lemma MarkedLiteral(lit: string, ow: string, cw: string)
    ensures Marked([Literal(lit)], ow, cw) == lit + ow
  {
    assert [Literal(lit)][1..] == [];
  }

  /** The text read by one step of the scan, followed by text `t` that the rest reads. */
  lemma StepText(w: string, ow: string, cw: string, i: int, e: int, e2: int, t: string)
    requires 0 <= i && i + |cw| <= e && e + |ow| <= e2
    requires OccursAt(w, cw, i) && OccursAt(w, ow, e) && OccursAt(w, cw + t, e2)
    ensures OccursAt(w, cw + (w[i + |cw|..e] + ow + (w[e + |ow|..e2] + cw + t)), i)
  {
    var lit, body := w[i + |cw|..e], w[e + |ow|..e2];
    OccursAtAround(w, ow, cw + t, e, e2);
    OccursAtAround(w, cw, ow + (body + (cw + t)), i, e);
    assert lit + (ow + (body + (cw + t))) == lit + ow + (body + cw + t);
  }

  /** One step of the scan reads back a literal, an open marker, a directive and a close marker. */
  lemma InOrderStep(w: string, ow: string, cw: string, i: int, e: int, e2: int, rest: seq<Segment>)
    requires 0 <= i && i + |cw| <= e && e + |ow| <= e2
    requires OccursAt(w, cw, i) && OccursAt(w, ow, e)
    requires OccursAt(w, cw + Marked(rest, ow, cw), e2)
    ensures OccursAt(w, cw + Marked([Literal(w[i + |cw|..e]), Classify(w[e + |ow|..e2])] + rest, ow, cw), i)
  {
    StepText(w, ow, cw, i, e, e2, Marked(rest, ow, cw));
    MarkedStep(w[i + |cw|..e], Classify(w[e + |ow|..e2]), rest, ow, cw);
  }

  /** The last literal of a scan reads back the literal and its open marker. */
  lemma InOrderLast(w: string, ow: string, cw: string, i: int, e: int)
    requires 0 <= i && i + |cw| <= e
    requires OccursAt(w, cw, i) && OccursAt(w, ow, e)
    ensures OccursAt(w, cw + Marked([Literal(w[i + |cw|..e])], ow, cw), i)
  {
    OccursAtAround(w, cw, ow, i, e);
    MarkedLiteral(w[i + |cw|..e], ow, cw);
  }

  /** Scan order: the segments, each followed by its marker, read back the text from position `i` on, in order. */
  lemma {:induction false} ScanInOrder(w: string, ow: string, cw: string, i: nat)
    requires ow != "" && cw != "" && OccursAt(w, cw, i)
    ensures OccursAt(w, cw + Marked(Scan(w, ow, cw, i), ow, cw), i)
    decreases |w| - i
  {
    var e := IndexOf(w, ow, i + |cw|);
    if e < 0 {
      ScanEmpty(w, ow, cw, i, e);
      assert cw + Marked([], ow, cw) == cw;
    } else {
      var e2 := IndexOf(w, cw, e + |ow|);
      if e2 < 0 {
        ScanLastLiteral(w, ow, cw, i, e, e2);
        InOrderLast(w, ow, cw, i, e);
      } else {
        ScanStep(w, ow, cw, i, e, e2);
        ScanInOrder(w, ow, cw, e2);
        InOrderStep(w, ow, cw, i, e, e2, Scan(w, ow, cw, e2));
      }
    }
  }

  /**
   * No occurrence of `m` starts inside `t`, not even one that runs on into
   * the `m` placed after it: in `t + m`, the first `m` is the one at the end.
   */
  predicate EndsAtFirst(t: string, m: string)
  {
    forall k :: 0 <= k < |t| ==> !OccursAt(t + m, m, k)
  }

  /** The span from `start` to the first occurrence of `pat` after it ends at that first occurrence. */
  lemma SpanAvoids(w: string, pat: string, start: nat, e: int)
    requires pat != "" && e == IndexOf(w, pat, start) && e >= 0
    ensures EndsAtFirst(w[start..e], pat)
  {
    IndexOfFirst(w, pat, start);
    var t := w[start..e];
    assert w[start..e + |pat|] == t + pat;
    forall k | 0 <= k < |t| ensures !OccursAt(t + pat, pat, k) {
      OccursAtWithin(w, start, e + |pat|, pat, k);
    }
  }

  /** No occurrence at or after `from` leaves none in the suffix from there. */
  lemma NoLaterOccurrence(w: string, pat: string, from: nat)
    requires pat != "" && from <= |w| && IndexOf(w, pat, from) == -1
    ensures !Contains(w[from..], pat)
  {
    IndexOfFirst(w, pat, from);
    assert w[from..|w|] == w[from..];
    forall j ensures !OccursAt(w[from..], pat, j) {
      if 0 <= j && j + |pat| <= |w| - from {
        OccursAtWithin(w, from, |w|, pat, j);
      }
    }
  }

  /** Each segment's text ends at the first occurrence of the marker that follows it. */
  predicate SpansAvoidMarkers(segs: seq<Segment>, ow: string, cw: string)
  {
    forall seg :: seg in segs ==>
      if seg.Literal? then EndsAtFirst(seg.text, ow) else EndsAtFirst(SourceText(seg), cw)
  }

  /**
   * No open marker starts inside a literal and no close marker inside a
   * directive, not even one that overlaps the marker ending the span: each
   * span ends at the first marker after it.
   */
  lemma {:induction false} ScanSpansAvoidMarkers(w: string, ow: string, cw: string, i: nat)
    requires ow != "" && cw != "" && OccursAt(w, cw, i)
    ensures SpansAvoidMarkers(Scan(w, ow, cw, i), ow, cw)
    decreases |w| - i
  {
    var start := i + |cw|;
    var e := IndexOf(w, ow, start);
    if e < 0 {
      ScanEmpty(w, ow, cw, i, e);
    } else {
      SpanAvoids(w, ow, start, e);
      var e2 := IndexOf(w, cw, e + |ow|);
      if e2 < 0 {
        ScanLastLiteral(w, ow, cw, i, e, e2);
      } else {
        SpanAvoids(w, cw, e + |ow|, e2);
        ScanStep(w, ow, cw, i, e, e2);
        ScanSpansAvoidMarkers(w, ow, cw, e2);
        AvoidStep(w[start..e], w[e + |ow|..e2], Scan(w, ow, cw, e2), ow, cw);
      }
    }
  }

  lemma AvoidStep(lit: string, body: string, rest: seq<Segment>, ow: string, cw: string)
    requires EndsAtFirst(lit, ow) && EndsAtFirst(body, cw) && SpansAvoidMarkers(rest, ow, cw)
    ensures SpansAvoidMarkers([Literal(lit), Classify(body)] + rest, ow, cw)
  {
    forall seg | seg in [Literal(lit), Classify(body)] + rest
      ensures if seg.Literal? then EndsAtFirst(seg.text, ow) else EndsAtFirst(SourceText(seg), cw)
    {
      if seg !in rest {
        assert seg == Literal(lit) || seg == Classify(body);
      }
    }
  }

  /** Where the scan from `i` stops reading: after the close marker at `i` and everything its segments cover. */
  function ScanEnd(w: string, ow: string, cw: string, i: nat): int
    requires ow != "" && cw != "" && OccursAt(w, cw, i)
  {
    i + |cw + Marked(Scan(w, ow, cw, i), ow, cw)|
  }

  /**
   * The scan from `i` stops only when the marker it looks for next occurs
   * nowhere in the remaining text, which is then dropped: an open marker
   * after an even number of segments, a close marker after an odd number.
   */
  ghost predicate StopsAtMissingMarker(w: string, ow: string, cw: string, i: nat)
    requires ow != "" && cw != "" && OccursAt(w, cw, i)
  {
    StopsAt(w, ScanEnd(w, ow, cw, i), |Scan(w, ow, cw, i)|, ow, cw)
  }

  /** Reading stopped at `n` after `count` segments because the marker due next is absent from the rest. */
  ghost predicate StopsAt(w: string, n: int, count: nat, ow: string, cw: string)
  {
    0 <= n <= |w| &&
    (count % 2 == 0 ==> !Contains(w[n..], ow)) &&
    (count % 2 == 1 ==> !Contains(w[n..], cw))
  }

  lemma StopsAtAfterPair(w: string, n: int, count: nat, ow: string, cw: string)
    requires StopsAt(w, n, count, ow, cw)
    ensures StopsAt(w, n, count + 2, ow, cw)
  {
  }

  lemma {:induction false} ScanStopsAtMissingMarker(w: string, ow: string, cw: string, i: nat)
    requires ow != "" && cw != "" && OccursAt(w, cw, i)
    ensures StopsAtMissingMarker(w, ow, cw, i)
    decreases |w| - i
  {
    var e := IndexOf(w, ow, i + |cw|);
    if e < 0 {
      StopsEmpty(w, ow, cw, i, e);
    } else {
      var e2 := IndexOf(w, cw, e + |ow|);
      if e2 < 0 {
        StopsLast(w, ow, cw, i, e, e2);
      } else {
        ScanStopsAtMissingMarker(w, ow, cw, e2);
        StopsStep(w, ow, cw, i, e, e2);
      }
    }
  }

  lemma StopsEmpty(w: string, ow: string, cw: string, i: nat, e: int)
    requires ow != "" && cw != "" && OccursAt(w, cw, i)
    requires e == IndexOf(w, ow, i + |cw|) && e < 0
    ensures StopsAtMissingMarker(w, ow, cw, i)
  {
    EndEmpty(w, ow, cw, i, e);
    NoLaterOccurrence(w, ow, i + |cw|);
  }

  lemma StopsLast(w: string, ow: string, cw: string, i: nat, e: int, e2: int)
    requires ow != "" && cw != "" && OccursAt(w, cw, i)
    requires e == IndexOf(w, ow, i + |cw|) && e >= 0
    requires e2 == IndexOf(w, cw, e + |ow|) && e2 < 0
    ensures StopsAtMissingMarker(w, ow, cw, i)
  {
    EndLast(w, ow, cw, i, e, e2);
    NoLaterOccurrence(w, cw, e + |ow|);
  }

  lemma StopsStep(w: string, ow: string, cw: string, i: nat, e: int, e2: int)
    requires ow != "" && cw != "" && OccursAt(w, cw, i)
    requires e == IndexOf(w, ow, i + |cw|) && e >= 0
    requires e2 == IndexOf(w, cw, e + |ow|) && e2 >= 0
    requires StopsAtMissingMarker(w, ow, cw, e2)
    ensures StopsAtMissingMarker(w, ow, cw, i)
  {
    EndStep(w, ow, cw, i, e, e2);
    StopsAtAfterPair(w, ScanEnd(w, ow, cw, e2), |Scan(w, ow, cw, e2)|, ow, cw);
  }

  lemma EndEmpty(w: string, ow: string, cw: string, i: nat, e: int)
    requires ow != "" && cw != "" && OccursAt(w, cw, i)
    requires e == IndexOf(w, ow, i + |cw|) && e < 0
    ensures ScanEnd(w, ow, cw, i) == i + |cw| && |Scan(w, ow, cw, i)| == 0
  {
    ScanEmpty(w, ow, cw, i, e);
    assert cw + Marked([], ow, cw) == cw;
  }

  lemma EndLast(w: string, ow: string, cw: string, i: nat, e: int, e2: int)
    requires ow != "" && cw != "" && OccursAt(w, cw, i)
    requires e == IndexOf(w, ow, i + |cw|) && e >= 0
    requires e2 == IndexOf(w, cw, e + |ow|) && e2 < 0
    ensures ScanEnd(w, ow, cw, i) == e + |ow| && |Scan(w, ow, cw, i)| == 1
  {
    ScanLastLiteral(w, ow, cw, i, e, e2);
    MarkedLiteral(w[i + |cw|..e], ow, cw);
  }

  lemma EndStep(w: string, ow: string, cw: string, i: nat, e: int, e2: int)
    requires ow != "" && cw != "" && OccursAt(w, cw, i)
    requires e == IndexOf(w, ow, i + |cw|) && e >= 0
    requires e2 == IndexOf(w, cw, e + |ow|) && e2 >= 0
    ensures ScanEnd(w, ow, cw, i) == ScanEnd(w, ow, cw, e2)
    ensures |Scan(w, ow, cw, i)| == 2 + |Scan(w, ow, cw, e2)|
  {
    ScanStep(w, ow, cw, i, e, e2);
    var lit, body, rest := w[i + |cw|..e], w[e + |ow|..e2], Scan(w, ow, cw, e2);
    MarkedStep(lit, Classify(body), rest, ow, cw);
  }

  /** An open marker that starts inside `src` (possibly running into the appended marker). */
  predicate OpensIn(src: string, ow: string, k: int)
  {
    0 <= k < |src| && OccursAt(src + ow, ow, k)
  }

  /** In the wrapped text, the first open marker after the leading close marker is the first one that opens in `src`. */
  lemma NoOpenBefore(src: string, ow: string, cw: string, n: int)
    requires ow != "" && 0 <= n <= |src|
    requires forall k :: 0 <= k < n ==> !OpensIn(src, ow, k)
    ensures forall k :: |cw| <= k < |cw| + n ==> !OccursAt(Wrap(src, ow, cw), ow, k)
  {
    var w := Wrap(src, ow, cw);
    SliceMiddle(cw, src + ow, []);
    assert w == cw + (src + ow) + [];
    forall k | |cw| <= k < |cw| + n ensures !OccursAt(w, ow, k) {
      if k + |ow| <= |w| {
        OccursAtWithin(w, |cw|, |w|, ow, k - |cw|);
        assert !OpensIn(src, ow, k - |cw|);
      }
    }
  }

  /** A template in which no open marker starts compiles to one literal append of the whole (escaped) template. */
  lemma CompileWithoutMarkers(src: string, d: Delims)
    requires ValidDelims(d)
    requires forall k :: !OpensIn(src, d.openWord, k)
    ensures Compile(src, d) == Header(d.renderArgName) + Emit(Literal(src)) + Footer
  {
    ScanWithoutMarkers(src, d.openWord, d.closeWord);
    SingleLiteral(src);
  }

  lemma ScanWithoutMarkers(src: string, ow: string, cw: string)
    requires ow != "" && cw != ""
    requires forall k :: !OpensIn(src, ow, k)
    ensures Scan(Wrap(src, ow, cw), ow, cw, 0) == [Literal(src)]
  {
    var w := Wrap(src, ow, cw);
    NoOpenBefore(src, ow, cw, |src|);
    IndexOfIs(w, ow, |cw|, |cw| + |src|);
    IndexOfNone(w, cw, |w|);
    ScanLastLiteral(w, ow, cw, 0, |cw| + |src|, -1);
  }

  /**
   * An open marker that overlaps itself can start inside the template and
   * run into the appended marker: with `aa` as open marker, the template `a`
   * renders the empty string, because the scan's first open marker begins at
   * that `a`.
   */
  lemma StraddlingOpenMarker(d: Delims)
    requires d == Delims("aa", "?>", "arg")
    ensures Compile("a", d) == Header("arg") + Emit(Literal("")) + Footer
  {
    var w := Wrap("a", "aa", "?>");
    assert w == "?>aaa";
    assert w[2..4] == "aa";
    IndexOfIs(w, "aa", 2, 2);
    IndexOfNone(w, "?>", 4);
    ScanLastLiteral(w, "aa", "?>", 0, 2, -1);
    assert w[2..2] == "";
    SingleLiteral("");
  }

  /** The module for a scan that met one literal only. */
  lemma SingleLiteral(lit: string)
    ensures EmitAll([Literal(lit)]) == Emit(Literal(lit))
  {
    assert [Literal(lit)][1..] == [];
  }

  /**
   * Truncation: when the first open marker is followed by no close marker,
   * everything from that open marker on is dropped and only the literal
   * before it is emitted.
   */
  lemma CompileTruncated(pre: string, tail: string, d: Delims)
    requires ValidDelims(d)
    requires forall k :: !OpensIn(pre, d.openWord, k)
    requires !Contains(tail + d.openWord, d.closeWord)
    ensures Compile(pre + d.openWord + tail, d) == Header(d.renderArgName) + Emit(Literal(pre)) + Footer
  {
    ScanTruncated(pre, tail, d.openWord, d.closeWord);
    SingleLiteral(pre);
  }

  lemma ScanTruncated(pre: string, tail: string, ow: string, cw: string)
    requires ow != "" && cw != ""
    requires forall k :: !OpensIn(pre, ow, k)
    requires !Contains(tail + ow, cw)
    ensures Scan(Wrap(pre + ow + tail, ow, cw), ow, cw, 0) == [Literal(pre)]
  {
    var w := Wrap(pre + ow + tail, ow, cw);
    WrapParts(pre, tail, ow, cw);
    ScanTruncatedIn(w, pre, tail, ow, cw, |cw|, |cw| + |pre| + |ow|);
  }

  /** The scan of a text that reads `cw + pre + ow + tail + ow`, told by its pieces. */
  lemma ScanTruncatedIn(w: string, pre: string, tail: string, ow: string, cw: string, lo: nat, from: nat)
    requires ow != "" && cw != "" && OccursAt(w, cw, 0)
    requires lo == |cw| && from == lo + |pre| + |ow| && from <= |w|
    requires w[lo..lo + |pre|] == pre && w[lo..from] == pre + ow && w[from..] == tail + ow
    requires forall k :: !OpensIn(pre, ow, k)
    requires !Contains(tail + ow, cw)
    ensures Scan(w, ow, cw, 0) == [Literal(pre)]
  {
    TruncationMarkers(w, pre, tail, ow, cw, lo, from);
    OneLiteral(w, pre, ow, cw, lo + |pre|);
  }

  /** In a text that reads `cw + pre + ow + tail + ow`, the first open marker ends `pre` and no close marker follows it. */
  lemma TruncationMarkers(w: string, pre: string, tail: string, ow: string, cw: string, lo: nat, from: nat)
    requires ow != "" && cw != "" && lo == |cw| && from == lo + |pre| + |ow| && from <= |w|
    requires w[lo..from] == pre + ow && w[from..] == tail + ow
    requires forall k :: !OpensIn(pre, ow, k)
    requires !Contains(tail + ow, cw)
    ensures IndexOf(w, ow, lo) == lo + |pre|
    ensures IndexOf(w, cw, from) == -1
  {
    FirstOpenIn(w, ow, lo, pre);
    NoneIn(w, cw, from, tail + ow);
  }

  /** A scan whose first open marker ends the literal `pre` and that finds no close marker after it. */
  lemma OneLiteral(w: string, pre: string, ow: string, cw: string, e: int)
    requires ow != "" && cw != "" && OccursAt(w, cw, 0)
    requires e == |cw| + |pre| && IndexOf(w, ow, |cw|) == e
    requires IndexOf(w, cw, e + |ow|) == -1
    requires w[|cw|..e] == pre
    ensures Scan(w, ow, cw, 0) == [Literal(pre)]
  {
    ScanLastLiteral(w, ow, cw, 0, e, -1);
  }

  /** The pieces of a wrapped template `pre + ow + tail`. */
  lemma WrapParts(pre: string, tail: string, ow: string, cw: string)
    ensures var w := Wrap(pre + ow + tail, ow, cw);
            |cw| + |pre| + |ow| <= |w| &&
            w[|cw|..|cw| + |pre|] == pre &&
            w[|cw|..|cw| + |pre| + |ow|] == pre + ow &&
            w[|cw| + |pre| + |ow|..] == tail + ow
  {
    var w := Wrap(pre + ow + tail, ow, cw);
    assert w == cw + pre + (ow + tail + ow);
    SliceMiddle(cw, pre, ow + tail + ow);
    assert w == cw + (pre + ow) + (tail + ow);
    SliceMiddle(cw, pre + ow, tail + ow);
  }

  /** Where the window from `lo` reads `pre + ow`, and no open marker starts in `pre`, the first one is right after `pre`. */
  lemma FirstOpenIn(w: string, ow: string, lo: nat, pre: string)
    requires ow != "" && lo + |pre| + |ow| <= |w| && w[lo..lo + |pre| + |ow|] == pre + ow
    requires forall k :: !OpensIn(pre, ow, k)
    ensures IndexOf(w, ow, lo) == lo + |pre|
  {
    var hi := lo + |pre| + |ow|;
    forall k | lo <= k < lo + |pre| ensures !OccursAt(w, ow, k) {
      OccursAtWithin(w, lo, hi, ow, k - lo);
      assert !OpensIn(pre, ow, k - lo);
    }
    OccursAtWithin(w, lo, hi, ow, |pre|);
    assert (pre + ow)[|pre|..|pre| + |ow|] == ow;
    IndexOfIs(w, ow, lo, lo + |pre|);
  }

  /** Where the suffix from `from` is `t` and `t` does not contain `pat`, `indexOf` from there finds nothing. */
  lemma NoneIn(w: string, pat: string, from: nat, t: string)
    requires pat != "" && from <= |w| && w[from..] == t && !Contains(t, pat)
    ensures IndexOf(w, pat, from) == -1
  {
    assert w[from..|w|] == t;
    forall k | from <= k ensures !OccursAt(w, pat, k) {
      if k + |pat| <= |w| {
        OccursAtWithin(w, from, |w|, pat, k - from);
      }
    }
    IndexOfNone(w, pat, from);
  }

  /** What the first character of a directive body makes `parse` emit. */
  lemma DirectiveEmission(body: string)
    ensures |body| > 0 && body[0] == '-' ==> Emit(Classify(body)) == "  renderStr += " + body[1..] + ";\n"
    ensures |body| > 0 && body[0] == '=' ==> Emit(Classify(body)) == "  renderStr += escape(" + body[1..] + ");\n"
    ensures !(|body| > 0 && (body[0] == '-' || body[0] == '=')) ==> Emit(Classify(body)) == body + "\n"
  {
  }

  /** A literal statement is a well-formed string literal whose value is the span as it renders. */
  lemma LiteralStatementDecodes(t: string)
    ensures exists e :: Emit(Literal(t)) == "  renderStr += '" + e + "';\n" && DecodeJsString(e) == Some(Normalize(t))
  {
    LiteralRoundTrip(t);
    assert Emit(Literal(t)) == "  renderStr += '" + EscapeLiteral(t) + "';\n";
  }
}

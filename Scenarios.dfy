/**
 * Extraction followed by formatting, as the command-line tool and the web
 * form run them: properties of the whole pipeline, the scan of markers set
 * amid plain text, and a few concrete cases: one marker, two markers, a
 * repeated marker, an upper-case marker.
 */
module Scenarios {
  import opened Extractor
  import opened Ordering
  import opened Query

  /**
   * Two texts holding the same markers (in any order, any number of times,
   * amid any other content) extract the same sets and so give the same
   * queries: sorting removes every trace of where the markers were.
   */
  lemma QueriesDependOnlyOnMarkers(text1: string, text2: string)
    requires forall i, trace, span :: MarkerAt(text1, i, trace, span) ==> exists j :: MarkerAt(text2, j, trace, span)
    requires forall j, trace, span :: MarkerAt(text2, j, trace, span) ==> exists i :: MarkerAt(text1, i, trace, span)
    ensures ExtractTraceIds(text1) == ExtractTraceIds(text2)
    ensures ExtractTraceAndSpanPairs(text1) == ExtractTraceAndSpanPairs(text2)
    ensures GenerateDqlQuery(ExtractTraceIds(text1)) == GenerateDqlQuery(ExtractTraceIds(text2))
    ensures GenerateDqlQueryWithSpans(ExtractTraceAndSpanPairs(text1)) == GenerateDqlQueryWithSpans(ExtractTraceAndSpanPairs(text2))
  {
    forall trace ensures trace in ExtractTraceIds(text1) <==> trace in ExtractTraceIds(text2) {
      ExtractTraceIdsExact(text1, trace);
      ExtractTraceIdsExact(text2, trace);
    }
    forall p: (string, string) ensures p in ExtractTraceAndSpanPairs(text1) <==> p in ExtractTraceAndSpanPairs(text2) {
      ExtractTraceAndSpanPairsExact(text1, p.0, p.1);
      ExtractTraceAndSpanPairsExact(text2, p.0, p.1);
    }
  }

  /** Text without a single marker, the empty text included, gives "" in both modes. */
  lemma NoMarkerGivesEmptyQueries(text: string)
    requires forall i, trace, span :: !MarkerAt(text, i, trace, span)
    ensures GenerateDqlQuery(ExtractTraceIds(text)) == ""
    ensures GenerateDqlQueryWithSpans(ExtractTraceAndSpanPairs(text)) == ""
  {
    NothingExtractedIffNoMarker(text);
  }

  /** One position of the scan that holds no `[` contributes nothing. */
  lemma SkipPlain(text: string, p: nat)
    requires p < |text| && text[p] != '['
    ensures FindAll(text, p) == FindAll(text, p + 1)
  {
    FindAllSkips(text, p);
  }

  /** A marker at the scan position is reported and the scan resumes after it. */
  lemma TakeMarker(text: string, p: nat, trace: string, span: string, e: nat)
    requires MarkerAt(text, p, trace, span) && e == p + |Marker(trace, span)|
    ensures FindAll(text, p) == [(trace, span)] + FindAll(text, e)
  {
    MatchAtComplete(text, p, trace, span);
    FindAllTakes(text, p, Match(trace, span, e));
  }

  /** A stretch of text without `[` contributes nothing to the scan. */
  lemma {:induction false} SkipPlainRun(text: string, p: nat, q: nat)
    requires p <= q <= |text|
    requires forall k :: p <= k < q ==> text[k] != '['
    ensures FindAll(text, p) == FindAll(text, q)
    decreases q - p
  {
    if p < q {
      assert FindAll(text, p) == FindAll(text, p + 1) by {
        SkipPlain(text, p);
      }
      SkipPlainRun(text, p + 1, q);
    }
  }

  /** A marker set after any text is a match right where it starts. */
  lemma MarkerAfter(pre: string, trace: string, span: string, rest: string)
    requires IsHexId(trace) && IsHexId(span)
    ensures MarkerAt(pre + Marker(trace, span) + rest, |pre|, trace, span)
  {
    var m := Marker(trace, span);
    assert (pre + m + rest)[|pre|..|pre| + |m|] == m;
  }

  /** Concatenation regrouped to the right. */
  lemma Regroup(a: string, b: string, c: string)
    ensures a + b + c == a + (b + c)
  {
  }

  /** A part of the text that holds no `[` contributes nothing to the scan. */
  lemma ScanPlainPart(text: string, u: string, v: string, w: string)
    requires text == u + v + w && '[' !in v
    ensures FindAll(text, |u|) == FindAll(text, |u + v|)
  {
    forall k | |u| <= k < |u| + |v| ensures text[k] != '[' {
      assert text[k] == v[k - |u|];
    }
    SkipPlainRun(text, |u|, |u + v|);
  }

  /** A marker part of the text is reported where the scan reaches it, and the scan goes on after it. */
  lemma ScanMarkerPart(text: string, u: string, trace: string, span: string, w: string)
    requires IsHexId(trace) && IsHexId(span)
    requires text == u + Marker(trace, span) + w
    ensures FindAll(text, |u|) == [(trace, span)] + FindAll(text, |u + Marker(trace, span)|)
  {
    var m := Marker(trace, span);
    assert MarkerAt(text, |u|, trace, span) by {
      MarkerAfter(u, trace, span, w);
    }
    TakeMarker(text, |u|, trace, span, |u + m|);
  }

  /** Text without `[` and then a marker: the scan passes over the text and reports the marker. */
  lemma ScanPlainThenMarker(text: string, u: string, v: string, trace: string, span: string, w: string)
    requires IsHexId(trace) && IsHexId(span) && '[' !in v
    requires text == u + v + Marker(trace, span) + w
    ensures FindAll(text, |u|) == [(trace, span)] + FindAll(text, |u + v + Marker(trace, span)|)
  {
    assert FindAll(text, |u|) == FindAll(text, |u + v|) by {
      Regroup(u + v, Marker(trace, span), w);
      ScanPlainPart(text, u, v, Marker(trace, span) + w);
    }
    ScanMarkerPart(text, u + v, trace, span, w);
  }

  /** Text without `[` up to the end: the scan reports nothing more. */
  lemma ScanPlainEnd(text: string, u: string, v: string)
    requires text == u + v && '[' !in v
    ensures FindAll(text, |u|) == []
  {
    assert text == u + v + "";
    ScanPlainPart(text, u, v, "");
    FindAllEnds(text);
  }

  /** The scan of two markers set in text without `[` reports the two of them, in order. */
  lemma ScanTwoMarkers(pre: string, t1: string, s1: string, mid: string, t2: string, s2: string, post: string)
    requires IsHexId(t1) && IsHexId(s1) && IsHexId(t2) && IsHexId(s2)
    requires '[' !in pre && '[' !in mid && '[' !in post
    ensures FindAll(pre + Marker(t1, s1) + mid + Marker(t2, s2) + post, 0) == [(t1, s1), (t2, s2)]
  {
    var m1, m2 := Marker(t1, s1), Marker(t2, s2);
    var text := pre + m1 + mid + m2 + post;
    assert FindAll(text, 0) == [(t1, s1)] + FindAll(text, |pre + m1|) by {
      var rest := mid + (m2 + post);
      Regroup(pre + m1 + mid, m2, post);
      Regroup(pre + m1, mid, m2 + post);
      assert "" + pre == pre;
      ScanPlainThenMarker(text, "", pre, t1, s1, rest);
    }
    ScanPlainThenMarker(text, pre + m1, mid, t2, s2, post);
    ScanPlainEnd(text, pre + m1 + mid + m2, post);
  }

  /** The scan of one marker set in text without `[` reports just that marker. */
  lemma ScanOneMarker(pre: string, trace: string, span: string, post: string)
    requires IsHexId(trace) && IsHexId(span)
    requires '[' !in pre && '[' !in post
    ensures FindAll(pre + Marker(trace, span) + post, 0) == [(trace, span)]
  {
    var m := Marker(trace, span);
    var text := pre + m + post;
    assert FindAll(text, 0) == [(trace, span)] + FindAll(text, |pre + m|) by {
      assert "" + pre == pre;
      ScanPlainThenMarker(text, "", pre, trace, span, post);
    }
    ScanPlainEnd(text, pre + m, post);
  }

  /** Uppercase hex digits stop the pattern: the marker is silently skipped. */
  lemma UppercaseMarkerIgnored()
    ensures ExtractTraceIds("[T-ABC,S-123]") == {}
    ensures ExtractTraceAndSpanPairs("[T-ABC,S-123]") == {}
  {
    var text := "[T-ABC,S-123]";
    NonHexStopsMatch(text, 0, 0);
    forall i: nat, trace, span ensures !MarkerAt(text, i, trace, span) {
      if MarkerAt(text, i, trace, span) {
        LayoutFromMarker(text, i, trace, span);
      }
    }
    NothingExtractedIffNoMarker(text);
  }

  /** A marker that lies wholly in front of `tail` is a marker of the text with or without `tail`. */
  lemma MarkerInPrefix(text: string, tail: string, i: nat, trace: string, span: string)
    requires i + |Marker(trace, span)| <= |text|
    ensures MarkerAt(text + tail, i, trace, span) <==> MarkerAt(text, i, trace, span)
  {
    var n := |Marker(trace, span)|;
    var whole := text + tail;
    var a, b := whole[i..i + n], text[i..i + n];
    forall k | 0 <= k < n ensures a[k] == b[k] {
      assert a[k] == whole[i + k];
    }
    assert a == b;
  }

  /**
   * The markers of a text with one more marker appended: those of the text,
   * and the new one where it starts. No marker straddles the seam, since the
   * appended `[` cannot sit inside another marker.
   */
  lemma MarkersOfAppend(text: string, trace: string, span: string, i: nat, t: string, s: string)
    requires IsHexId(trace) && IsHexId(span)
    ensures MarkerAt(text + Marker(trace, span), i, t, s)
        <==> MarkerAt(text, i, t, s) || (i == |text| && t == trace && s == span)
  {
    var m := Marker(trace, span);
    var whole := text + m;
    assert MarkerAt(whole, |text|, trace, span) by {
      assert whole[|text|..|text| + |m|] == m;
    }
    if MarkerAt(whole, i, t, s) {
      if i + |Marker(t, s)| <= |text| {
        MarkerInPrefix(text, m, i, t, s);
      } else if i < |text| {
        assert whole[|text|] == '[' by {
          LayoutFromMarker(whole, |text|, trace, span);
        }
        NoBracketInside(whole, i, t, s, |text|);
      } else if i > |text| {
        LayoutFromMarker(whole, i, t, s);
        NoBracketInside(whole, |text|, trace, span, i);
      } else {
        MatchAtComplete(whole, i, t, s);
        MatchAtComplete(whole, i, trace, span);
      }
    }
    if MarkerAt(text, i, t, s) {
      MarkerInPrefix(text, m, i, t, s);
    }
  }

  /** Appending a marker to any text adds exactly its pair and its trace to what is extracted. */
  lemma AppendMarker(text: string, trace: string, span: string)
    requires IsHexId(trace) && IsHexId(span)
    ensures ExtractTraceAndSpanPairs(text + Marker(trace, span)) == ExtractTraceAndSpanPairs(text) + {(trace, span)}
    ensures ExtractTraceIds(text + Marker(trace, span)) == ExtractTraceIds(text) + {trace}
  {
    var whole := text + Marker(trace, span);
    forall p: (string, string)
      ensures p in ExtractTraceAndSpanPairs(whole) <==> p in ExtractTraceAndSpanPairs(text) + {(trace, span)}
    {
      ExtractTraceAndSpanPairsExact(whole, p.0, p.1);
      ExtractTraceAndSpanPairsExact(text, p.0, p.1);
      if p in ExtractTraceAndSpanPairs(whole) {
        var i :| MarkerAt(whole, i, p.0, p.1);
        MarkersOfAppend(text, trace, span, i, p.0, p.1);
      }
      if p in ExtractTraceAndSpanPairs(text) {
        var i :| MarkerAt(text, i, p.0, p.1);
        MarkersOfAppend(text, trace, span, i, p.0, p.1);
      }
      if p == (trace, span) {
        MarkersOfAppend(text, trace, span, |text|, trace, span);
      }
    }
    TraceIdsArePairTraces(whole);
    TraceIdsArePairTraces(text);
  }

  /** A marker that the text already holds, written once more, changes neither set nor either query. */
  lemma RepeatedMarkerCollapses(text: string, trace: string, span: string)
    requires exists i :: MarkerAt(text, i, trace, span)
    ensures ExtractTraceIds(text + Marker(trace, span)) == ExtractTraceIds(text)
    ensures ExtractTraceAndSpanPairs(text + Marker(trace, span)) == ExtractTraceAndSpanPairs(text)
    ensures GenerateDqlQuery(ExtractTraceIds(text + Marker(trace, span))) == GenerateDqlQuery(ExtractTraceIds(text))
    ensures GenerateDqlQueryWithSpans(ExtractTraceAndSpanPairs(text + Marker(trace, span)))
         == GenerateDqlQueryWithSpans(ExtractTraceAndSpanPairs(text))
  {
    ExtractTraceAndSpanPairsExact(text, trace, span);
    ExtractTraceIdsExact(text, trace);
    AppendMarker(text, trace, span);
  }

  /**
   * A text whose only markers carry one trace and one span, however often
   * and amid whatever other text, gives a single literal: no stray ` OR `,
   * no extra parentheses.
   */
  lemma SingleMarkerGivesSingleLiteral(text: string, trace: string, span: string)
    requires exists i :: MarkerAt(text, i, trace, span)
    requires forall i, t, s :: MarkerAt(text, i, t, s) ==> t == trace && s == span
    ensures ExtractTraceIds(text) == {trace}
    ensures ExtractTraceAndSpanPairs(text) == {(trace, span)}
    ensures GenerateDqlQuery(ExtractTraceIds(text)) == "(\"T-" + trace + "\")"
    ensures GenerateDqlQueryWithSpans(ExtractTraceAndSpanPairs(text)) == "(\"T-" + trace + ",S-" + span + "\")"
  {
    forall t ensures t in ExtractTraceIds(text) <==> t == trace {
      ExtractTraceIdsExact(text, t);
    }
    forall p: (string, string) ensures p in ExtractTraceAndSpanPairs(text) <==> p == (trace, span) {
      ExtractTraceAndSpanPairsExact(text, p.0, p.1);
    }
    GenerateDqlQuerySingle(trace);
    GenerateDqlQueryWithSpansSingle(trace, span);
  }

  /**
   * A text whose markers carry two different traces, each with one span,
   * gives both literals, the smaller trace first, joined by one ` OR ` and
   * wrapped in one pair of parentheses.
   */
  lemma TwoMarkersGiveDisjunction(text: string, t1: string, s1: string, t2: string, s2: string)
    requires exists i :: MarkerAt(text, i, t1, s1)
    requires exists i :: MarkerAt(text, i, t2, s2)
    requires forall i, t, s :: MarkerAt(text, i, t, s) ==> (t == t1 && s == s1) || (t == t2 && s == s2)
    requires t1 != t2 && StrLe(t1, t2)
    ensures ExtractTraceIds(text) == {t1, t2}
    ensures ExtractTraceAndSpanPairs(text) == {(t1, s1), (t2, s2)}
    ensures GenerateDqlQuery(ExtractTraceIds(text)) == "(" + TraceLiteral(t1) + " OR " + TraceLiteral(t2) + ")"
    ensures GenerateDqlQueryWithSpans(ExtractTraceAndSpanPairs(text))
         == "(" + PairLiteral((t1, s1)) + " OR " + PairLiteral((t2, s2)) + ")"
  {
    assert ExtractTraceIds(text) == {t1, t2} by {
      forall t ensures t in ExtractTraceIds(text) <==> t == t1 || t == t2 {
        ExtractTraceIdsExact(text, t);
      }
    }
    assert ExtractTraceAndSpanPairs(text) == {(t1, s1), (t2, s2)} by {
      forall p: (string, string) ensures p in ExtractTraceAndSpanPairs(text) <==> p == (t1, s1) || p == (t2, s2) {
        ExtractTraceAndSpanPairsExact(text, p.0, p.1);
      }
    }
    GenerateDqlQueryTwo(t1, t2);
    GenerateDqlQueryWithSpansTwo(t1, s1, t2, s2);
  }
}

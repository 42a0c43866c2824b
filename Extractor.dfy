/**
 * The extractor of trace_id_extractor.py: the fixed pattern
 * `\[T-([a-f0-9]+),S-([a-f0-9]+)\]`, a scanner that finds it the way
 * `re.findall` does (left to right, non-overlapping), and the two public
 * extraction operations, which turn the list of matches into a set.
 */
module Extractor {

  datatype Option<T> = None | Some(value: T)

  /** The character class `[a-f0-9]`: lowercase hexadecimal digits only. */
  predicate IsHexDigit(c: char) {
    '0' <= c <= '9' || 'a' <= c <= 'f'
  }

  /** A string the group `([a-f0-9]+)` can capture: one or more hex digits. */
  predicate IsHexId(s: string) {
    |s| > 0 && forall k :: 0 <= k < |s| ==> IsHexDigit(s[k])
  }

  /** The text of the marker `[T-<trace>,S-<span>]`. */
  function Marker(trace: string, span: string): string {
    "[T-" + trace + ",S-" + span + "]"
  }

  /**
   * The pattern matches at position `i` of `text` with groups `trace` and
   * `span`: this is what the regular expression means, independent of how
   * a scanner finds it.
   */
  predicate MarkerAt(text: string, i: nat, trace: string, span: string) {
    && IsHexId(trace)
    && IsHexId(span)
    && i + |Marker(trace, span)| <= |text|
    && text[i..i + |Marker(trace, span)|] == Marker(trace, span)
  }

  /** Length of the longest run of hex digits that starts at position `i`. */
  function HexRun(text: string, i: nat): (n: nat)
    requires i <= |text|
    ensures i + n <= |text|
    ensures i + n == |text| || !IsHexDigit(text[i + n])
    decreases |text| - i
  {
    if i < |text| && IsHexDigit(text[i]) then 1 + HexRun(text, i + 1) else 0
  }

  /** Every character of the run is a hex digit. */
  lemma {:induction false} HexRunDigits(text: string, i: nat)
    requires i <= |text|
    ensures forall k :: i <= k < i + HexRun(text, i) ==> IsHexDigit(text[k])
    decreases |text| - i
  {
    if i < |text| && IsHexDigit(text[i]) {
      HexRunDigits(text, i + 1);
    }
  }

  /** A non-empty run is a string the group `([a-f0-9]+)` can capture. */
  lemma RunIsHexId(text: string, i: nat)
    requires i <= |text| && HexRun(text, i) > 0
    ensures IsHexId(text[i..i + HexRun(text, i)])
  {
    HexRunDigits(text, i);
    var g := text[i..i + HexRun(text, i)];
    forall k | 0 <= k < |g| ensures IsHexDigit(g[k]) {
      assert g[k] == text[i + k];
    }
  }

  /** A run of hex digits that is followed by a non-digit (or the end) is the longest run. */
  lemma {:induction false} HexRunIsMaximal(text: string, i: nat, n: nat)
    requires i + n <= |text|
    requires forall k :: i <= k < i + n ==> IsHexDigit(text[k])
    requires i + n == |text| || !IsHexDigit(text[i + n])
    ensures HexRun(text, i) == n
    decreases n
  {
    if n > 0 {
      HexRunIsMaximal(text, i + 1, n - 1);
    }
  }

  /** Where each literal character and each group sits inside a marker. */
  lemma MarkerLayout(trace: string, span: string)
    ensures |Marker(trace, span)| == |trace| + |span| + 7
    ensures Marker(trace, span)[0] == '[' && Marker(trace, span)[1] == 'T' && Marker(trace, span)[2] == '-'
    ensures forall k :: 0 <= k < |trace| ==> Marker(trace, span)[3 + k] == trace[k]
    ensures Marker(trace, span)[3 + |trace|] == ','
    ensures Marker(trace, span)[4 + |trace|] == 'S'
    ensures Marker(trace, span)[5 + |trace|] == '-'
    ensures forall k :: 0 <= k < |span| ==> Marker(trace, span)[6 + |trace| + k] == span[k]
    ensures Marker(trace, span)[6 + |trace| + |span|] == ']'
  {
  }

  /** One match found by the scanner: the two groups and where the match ends. */
  datatype Match = Match(trace: string, span: string, end: nat)

  /**
   * Tries the pattern at position `i`. Each `+` takes the longest run of
   * digits; no shorter run can be followed by `,` or `]`, so backtracking
   * has no alternative to offer.
   */
  function MatchAt(text: string, i: nat): (r: Option<Match>)
    requires i <= |text|
    ensures r.Some? ==> i < r.value.end <= |text|
  {
    if i + 3 <= |text| && text[i] == '[' && text[i + 1] == 'T' && text[i + 2] == '-' then
      var n := HexRun(text, i + 3);
      var j := i + 3 + n;
      if n > 0 && j + 3 <= |text| && text[j] == ',' && text[j + 1] == 'S' && text[j + 2] == '-' then
        var m := HexRun(text, j + 3);
        var e := j + 3 + m;
        if m > 0 && e < |text| && text[e] == ']' then
          Some(Match(text[i + 3..j], text[j + 3..e], e + 1))
        else
          None
      else
        None
    else
      None
  }

  /** Every match the scanner reports is a marker of the text, and the match ends right after it. */
  lemma MatchAtSound(text: string, i: nat)
    requires i <= |text|
    ensures MatchAt(text, i).Some? ==> MarkerAt(text, i, MatchAt(text, i).value.trace, MatchAt(text, i).value.span)
    ensures MatchAt(text, i).Some? ==> MatchAt(text, i).value.end == i + |Marker(MatchAt(text, i).value.trace, MatchAt(text, i).value.span)|
  {
    if MatchAt(text, i).Some? {
      var j := i + 3 + HexRun(text, i + 3);
      var e := j + 3 + HexRun(text, j + 3);
      RunIsHexId(text, i + 3);
      RunIsHexId(text, j + 3);
      MarkerFromLayout(text, i, text[i + 3..j], text[j + 3..e]);
      MarkerLength(text[i + 3..j], text[j + 3..e]);
    }
  }

  /** Text whose characters follow the layout of a marker holds that marker. */
  lemma MarkerFromLayout(text: string, i: nat, trace: string, span: string)
    requires IsHexId(trace) && IsHexId(span)
    requires i + |trace| + |span| + 7 <= |text|
    requires text[i] == '[' && text[i + 1] == 'T' && text[i + 2] == '-'
    requires text[i + 3..i + 3 + |trace|] == trace
    requires text[i + 3 + |trace|] == ',' && text[i + 4 + |trace|] == 'S' && text[i + 5 + |trace|] == '-'
    requires text[i + 6 + |trace|..i + 6 + |trace| + |span|] == span
    requires text[i + 6 + |trace| + |span|] == ']'
    ensures MarkerAt(text, i, trace, span)
  {
  }

  /** No match can start strictly inside another: the only `[` of a marker is its first character. */
  lemma NoBracketInside(text: string, p: nat, trace: string, span: string, i: nat)
    requires MarkerAt(text, p, trace, span)
    requires p < i < p + |Marker(trace, span)|
    ensures text[i] != '['
  {
  }

  /** A marker at `i` puts its literal characters and groups at fixed offsets from `i`. */
  lemma LayoutFromMarker(text: string, i: nat, trace: string, span: string)
    requires MarkerAt(text, i, trace, span)
    ensures i + |trace| + |span| + 7 <= |text|
    ensures text[i] == '[' && text[i + 1] == 'T' && text[i + 2] == '-'
    ensures forall k :: 0 <= k < |trace| ==> text[i + 3 + k] == trace[k]
    ensures text[i + 3 + |trace|] == ',' && text[i + 4 + |trace|] == 'S' && text[i + 5 + |trace|] == '-'
    ensures forall k :: 0 <= k < |span| ==> text[i + 6 + |trace| + k] == span[k]
    ensures text[i + 6 + |trace| + |span|] == ']'
  {
  }

  /** The digits of a group that ends at a non-digit are exactly the longest run there. */
  lemma GroupIsRun(text: string, i: nat, g: string)
    requires i + |g| < |text|
    requires forall k :: 0 <= k < |g| ==> text[i + k] == g[k]
    requires forall k :: 0 <= k < |g| ==> IsHexDigit(g[k])
    requires !IsHexDigit(text[i + |g|])
    ensures HexRun(text, i) == |g|
    ensures text[i..i + |g|] == g
  {
    forall k | i <= k < i + |g| ensures IsHexDigit(text[k]) {
      assert text[i + (k - i)] == g[k - i];
    }
    HexRunIsMaximal(text, i, |g|);
  }

  /** A marker at `i` splits into its literal characters and its two groups, as slices of the text. */
  lemma MarkerParts(text: string, i: nat, trace: string, span: string)
    requires MarkerAt(text, i, trace, span)
    ensures var j := i + 3 + |trace|; var e := j + 3 + |span|;
      && e < |text|
      && text[i] == '[' && text[i + 1] == 'T' && text[i + 2] == '-'
      && text[i + 3..j] == trace
      && text[j] == ',' && text[j + 1] == 'S' && text[j + 2] == '-'
      && text[j + 3..e] == span
      && text[e] == ']'
  {
    var mk := Marker(trace, span);
    var j := i + 3 + |trace|;
    var e := j + 3 + |span|;
    MarkerLength(trace, span);
    assert text[i..i + |mk|] == mk;
    var whole, tr, sp := text[i..i + |mk|], text[i + 3..j], text[j + 3..e];
    assert tr == mk[3..3 + |trace|] by {
      forall k | 0 <= k < |trace| ensures tr[k] == mk[3 + k] {
        assert tr[k] == whole[3 + k];
      }
    }
    assert sp == mk[6 + |trace|..6 + |trace| + |span|] by {
      forall k | 0 <= k < |span| ensures sp[k] == mk[6 + |trace| + k] {
        assert sp[k] == whole[6 + |trace| + k];
      }
    }
    MarkerLayout(trace, span);
    assert mk[3..3 + |trace|] == trace by {
      forall k | 0 <= k < |trace| ensures mk[3..3 + |trace|][k] == trace[k] {
        assert mk[3 + k] == trace[k];
      }
    }
    assert mk[6 + |trace|..6 + |trace| + |span|] == span by {
      forall k | 0 <= k < |span| ensures mk[6 + |trace|..6 + |trace| + |span|][k] == span[k] {
        assert mk[6 + |trace| + k] == span[k];
      }
    }
    assert text[i] == mk[0] && text[i + 1] == mk[1] && text[i + 2] == mk[2];
    assert text[j] == mk[3 + |trace|] && text[j + 1] == mk[4 + |trace|] && text[j + 2] == mk[5 + |trace|];
    assert text[e] == mk[6 + |trace| + |span|];
  }

  /** A group of hex digits that the text holds at `i`, followed by a non-digit, is the longest run there. */
  lemma SliceIsRun(text: string, i: nat, g: string)
    requires i + |g| < |text| && text[i..i + |g|] == g && IsHexId(g)
    requires !IsHexDigit(text[i + |g|])
    ensures HexRun(text, i) == |g|
  {
    forall k | i <= k < i + |g| ensures IsHexDigit(text[k]) {
      assert text[k] == text[i..i + |g|][k - i];
    }
    HexRunIsMaximal(text, i, |g|);
  }

  /** Whenever the pattern matches at `i`, the scanner finds exactly that match there. */
  lemma MatchAtComplete(text: string, i: nat, trace: string, span: string)
    requires MarkerAt(text, i, trace, span)
    ensures MatchAt(text, i) == Some(Match(trace, span, i + |Marker(trace, span)|))
  {
    var j := i + 3 + |trace|;
    var e := j + 3 + |span|;
    assert MatchAt(text, i) == Some(Match(trace, span, e + 1)) by {
      MarkerParts(text, i, trace, span);
      MarkerRuns(text, i, trace, span);
      MatchAtFromRuns(text, i, j, e, trace, span);
    }
    assert e + 1 == i + |Marker(trace, span)| by {
      MarkerLength(trace, span);
    }
  }

  /** The groups of a marker at `i` are the longest digit runs at their positions. */
  lemma MarkerRuns(text: string, i: nat, trace: string, span: string)
    requires MarkerAt(text, i, trace, span)
    ensures HexRun(text, i + 3) == |trace|
    ensures i + 3 + |trace| + 3 <= |text| && HexRun(text, i + 3 + |trace| + 3) == |span|
  {
    var j := i + 3 + |trace|;
    MarkerParts(text, i, trace, span);
    SliceIsRun(text, i + 3, trace);
    SliceIsRun(text, j + 3, span);
  }

  /** The scanner's verdict when both digit runs end where a marker's layout needs them to. */
  lemma MatchAtFromRuns(text: string, i: nat, j: nat, e: nat, trace: string, span: string)
    requires i + 3 < j && j + 3 < e < |text|
    requires text[i] == '[' && text[i + 1] == 'T' && text[i + 2] == '-'
    requires HexRun(text, i + 3) == j - (i + 3) && text[i + 3..j] == trace
    requires text[j] == ',' && text[j + 1] == 'S' && text[j + 2] == '-'
    requires HexRun(text, j + 3) == e - (j + 3) && text[j + 3..e] == span
    requires text[e] == ']'
    ensures MatchAt(text, i) == Some(Match(trace, span, e + 1))
  {
  }

  /** The length fact of MarkerLayout alone, for proofs that need nothing else and should keep the solver's context lean. */
  lemma MarkerLength(trace: string, span: string)
    ensures |Marker(trace, span)| == |trace| + |span| + 7
  {
  }

  /** The pattern matches with groups `trace` and `span` somewhere at or after position `p`. */
  ghost predicate OccursFrom(text: string, p: nat, trace: string, span: string) {
    exists i :: p <= i && MarkerAt(text, i, trace, span)
  }

  /**
   * `re.findall` for the pattern, from position `p` on: try the pattern at
   * `p`; after a match resume where it ended, otherwise one character later.
   */
  function FindAll(text: string, p: nat): seq<(string, string)>
    requires p <= |text|
    decreases |text| - p
  {
    if p == |text| then
      []
    else
      match MatchAt(text, p)
      case Some(m) => [(m.trace, m.span)] + FindAll(text, m.end)
      case None => FindAll(text, p + 1)
  }

  /** Every pair the scan reports is the trace and span of a marker at or after position `p`. */
  lemma {:induction false} FindAllSound(text: string, p: nat)
    requires p <= |text|
    ensures forall m :: m in FindAll(text, p) ==> OccursFrom(text, p, m.0, m.1)
    decreases |text| - p
  {
    if p < |text| {
      MatchAtSound(text, p);
      match MatchAt(text, p)
      case Some(r) =>
        FindAllSound(text, r.end);
        FindAllTakes(text, p, r);
        forall m | m in FindAll(text, p) ensures OccursFrom(text, p, m.0, m.1) {
          if m != (r.trace, r.span) {
            assert m in FindAll(text, r.end);
            var i :| r.end <= i && MarkerAt(text, i, m.0, m.1);
          }
        }
      case None =>
        FindAllSound(text, p + 1);
        FindAllSkips(text, p);
        forall m | m in FindAll(text, p) ensures OccursFrom(text, p, m.0, m.1) {
          var i :| p + 1 <= i && MarkerAt(text, i, m.0, m.1);
        }
    }
  }

  /**
   * The non-overlapping scan misses no match: every position `i >= p` where
   * the pattern matches is reported, because a match cannot start inside an
   * earlier match (its `[` would have to be one of the earlier match's
   * characters after the first).
   */
  lemma {:induction false} FindAllComplete(text: string, p: nat, i: nat, trace: string, span: string)
    requires p <= i
    requires MarkerAt(text, i, trace, span)
    ensures (trace, span) in FindAll(text, p)
    decreases |text| - p
  {
    if i == p {
      MatchAtComplete(text, i, trace, span);
    } else {
      LayoutFromMarker(text, i, trace, span);
      match MatchAt(text, p)
      case Some(m) =>
        MatchAtSound(text, p);
        if i < m.end {
          NoBracketInside(text, p, m.trace, m.span, i);
        }
        FindAllComplete(text, m.end, i, trace, span);
      case None =>
        FindAllComplete(text, p + 1, i, trace, span);
    }
  }

  /** `extract_trace_ids`: the set of distinct trace groups of all matches. */
  function ExtractTraceIds(text: string): (ids: set<string>)
    ensures forall t :: t in ids ==> IsHexId(t)
    ensures forall t :: t in ids ==> exists i, s :: MarkerAt(text, i, t, s)
  {
    FindAllSound(text, 0);
    set m | m in FindAll(text, 0) :: m.0
  }

  /** `extract_trace_and_span_pairs`: the set of distinct (trace, span) groups of all matches. */
  function ExtractTraceAndSpanPairs(text: string): (pairs: set<(string, string)>)
    ensures forall p :: p in pairs ==> IsHexId(p.0) && IsHexId(p.1)
    ensures forall p :: p in pairs ==> exists i :: MarkerAt(text, i, p.0, p.1)
  {
    FindAllSound(text, 0);
    set m | m in FindAll(text, 0)
  }

  /** A trace is extracted exactly when some marker in the text carries it. */
  lemma ExtractTraceIdsExact(text: string, trace: string)
    ensures trace in ExtractTraceIds(text) <==> exists i, span :: MarkerAt(text, i, trace, span)
  {
    if i, span :| MarkerAt(text, i, trace, span) {
      FindAllComplete(text, 0, i, trace, span);
    }
  }

  /** A pair is extracted exactly when the marker `[T-trace,S-span]` occurs in the text. */
  lemma ExtractTraceAndSpanPairsExact(text: string, trace: string, span: string)
    ensures (trace, span) in ExtractTraceAndSpanPairs(text) <==> exists i :: MarkerAt(text, i, trace, span)
  {
    if i :| MarkerAt(text, i, trace, span) {
      FindAllComplete(text, 0, i, trace, span);
    }
  }

  /**
   * The two patterns differ only in what they capture, so the traces of the
   * extracted pairs are exactly the extracted trace ids.
   */
  lemma TraceIdsArePairTraces(text: string)
    ensures ExtractTraceIds(text) == set p | p in ExtractTraceAndSpanPairs(text) :: p.0
  {
  }

  /** Both extractions are empty exactly when no marker occurs anywhere in the text. */
  lemma NothingExtractedIffNoMarker(text: string)
    ensures ExtractTraceIds(text) == {} <==> forall i, trace, span :: !MarkerAt(text, i, trace, span)
    ensures ExtractTraceAndSpanPairs(text) == {} <==> forall i, trace, span :: !MarkerAt(text, i, trace, span)
  {
    if i, trace, span :| MarkerAt(text, i, trace, span) {
      FindAllComplete(text, 0, i, trace, span);
      assert trace in ExtractTraceIds(text);
      assert (trace, span) in ExtractTraceAndSpanPairs(text);
    }
  }

  /**
   * After `[T-`, a run of hex digits ended by a character that is neither a
   * hex digit nor `,` (an uppercase digit, say) means no marker starts here.
   */
  lemma NonHexStopsMatch(text: string, i: nat, n: nat)
    requires i + 3 + n < |text|
    requires text[i] == '[' && text[i + 1] == 'T' && text[i + 2] == '-'
    requires forall k :: i + 3 <= k < i + 3 + n ==> IsHexDigit(text[k])
    requires !IsHexDigit(text[i + 3 + n]) && text[i + 3 + n] != ','
    ensures MatchAt(text, i) == None
    ensures forall trace, span :: !MarkerAt(text, i, trace, span)
  {
    HexRunIsMaximal(text, i + 3, n);
    forall trace, span ensures !MarkerAt(text, i, trace, span) {
      if MarkerAt(text, i, trace, span) {
        MatchAtComplete(text, i, trace, span);
      }
    }
  }

  /** After a match the scan reports it and resumes where it ended. */
  lemma FindAllTakes(text: string, p: nat, m: Match)
    requires p < |text| && MatchAt(text, p) == Some(m)
    ensures m.end <= |text|
    ensures FindAll(text, p) == [(m.trace, m.span)] + FindAll(text, m.end)
  {
  }

  /** Where the pattern does not match, the scan moves on by one character. */
  lemma FindAllSkips(text: string, p: nat)
    requires p < |text| && MatchAt(text, p).None?
    ensures FindAll(text, p) == FindAll(text, p + 1)
  {
  }

  /** The scan of the end of the text finds nothing. */
  lemma FindAllEnds(text: string)
    ensures FindAll(text, |text|) == []
  {
  }
}

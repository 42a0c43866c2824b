# Trace ID extractor — a verified model of the extraction and query core

The trace ID extractor reads messy log text, finds every marker of the
form `[T-<trace>,S-<span>]` (trace and span made of lower-case hex digits),
and turns what it found into a DQL filter: the distinct trace IDs, sorted,
each written as `"T-<trace>"` and joined with ` OR ` inside one pair of
parentheses — or, in span mode, the distinct (trace, span) pairs, sorted by
trace and then span, each written as `"T-<trace>,S-<span>"`. No marker at all
gives the empty query.

This project models those four operations as pure Dafny functions and proves
what they promise:

- `Extractor` — the marker pattern as a hand-written left-to-right scanner
  (`HexRun`, `MatchAt` and the scan `FindAll`) that behaves as Python's `re.findall`
  does on this pattern: leftmost, non-overlapping, greedy hex runs, no
  backtracking alternative. `ExtractTraceIds` and `ExtractTraceAndSpanPairs`
  collect the scan into sets. Both are proved *exact*: a value is extracted
  if and only if a well-formed marker carrying it occurs somewhere in the
  text (overlap cannot hide a marker, because `[` occurs only at a marker's
  start).
- `Ordering` — Python's `sorted` on a set, over any total order, with
  Python's string order (`StrLe`) and tuple order (`PairLe`) proved total;
  the ascending listing of a set is proved unique.
- `Query` — `GenerateDqlQuery` and `GenerateDqlQueryWithSpans`, a reference
  parser of the query text, the round trip (parsing a generated query gives
  back the sorted IDs / pairs, for sets of hex IDs, which is what extraction
  yields), the exact output shape, and the empty case.
- `Scenarios` — the whole pipeline: texts with the same markers give the same
  queries, text without markers gives `""`, appending a marker to any text
  adds exactly that marker (so a repeated marker collapses), an upper-case
  marker is ignored, a text whose only markers carry one or two traces gives
  the expected literals in order, and the scan of markers set amid text
  without `[` reports them in order of appearance.

## Model

| member | source | states |
|---|---|---|
| Extractor.IsHexDigit | trace_id_extractor.py:40 | the character class `[a-f0-9]`: a decimal digit or a lower-case letter from `a` to `f` |
| Extractor.IsHexId | trace_id_extractor.py:40 | what a group `([a-f0-9]+)` can capture: one or more characters of that class |
| Extractor.Marker | trace_id_extractor.py:40 | the text `[T-<trace>,S-<span>]` the pattern matches for given groups |
| Extractor.MarkerAt | trace_id_extractor.py:40 | the pattern matches at a position with the given groups: both groups are hex IDs and the marker text sits there |
| Extractor.HexRun | trace_id_extractor.py:40 | the greedy run `[a-f0-9]+` stops at the end of the text or right before a character that is not a lower-case hex digit |
| Extractor.HexRunDigits | trace_id_extractor.py:40 | every character the greedy run covers is a lower-case hex digit |
| Extractor.HexRunIsMaximal | trace_id_extractor.py:40 | any run of hex digits that ends at the end of the text or before a non-digit is exactly the greedy run: `+` neither overshoots nor undershoots |
| Extractor.RunIsHexId | trace_id_extractor.py:40 | a non-empty greedy run is a valid ID (one or more lower-case hex digits) |
| Extractor.MarkerLayout | trace_id_extractor.py:40 | where each literal character and each group sits inside `[T-<trace>,S-<span>]` |
| Extractor.MatchAt | trace_id_extractor.py:40 | an attempted match at one position, when it succeeds, ends after that position and within the text |
| Extractor.MatchAtSound | trace_id_extractor.py:40 | whenever the match at a position succeeds, a well-formed marker with the reported trace and span sits there and the match ends right after it |
| Extractor.MatchAtComplete | trace_id_extractor.py:40 | whenever a well-formed marker sits at a position, the match there succeeds and reports exactly that trace and span |
| Extractor.MarkerFromLayout | trace_id_extractor.py:40 | `[T-`, a hex ID, `,S-`, a hex ID and `]` laid out from a position make a marker there |
| Extractor.LayoutFromMarker | trace_id_extractor.py:40 | a marker at a position lays out `[T-`, the trace, `,S-`, the span and `]` character by character |
| Extractor.MarkerParts | trace_id_extractor.py:40 | a marker at a position splits into its literal characters and its two groups, as slices of the text |
| Extractor.MarkerRuns | trace_id_extractor.py:40 | the groups of a marker are the greedy hex runs at their positions |
| Extractor.GroupIsRun | trace_id_extractor.py:40 | hex digits held character by character at a position and followed by a non-digit are the greedy run there |
| Extractor.SliceIsRun | trace_id_extractor.py:40 | a hex ID held as a slice at a position and followed by a non-digit is the greedy run there |
| Extractor.MatchAtFromRuns | trace_id_extractor.py:40 | proof step, one unfolding of the match: it succeeds with the given groups when both greedy runs end where `,S-` and `]` are |
| Extractor.NoBracketInside | trace_id_extractor.py:40 | no `[` occurs inside a marker after its first character, so one match never hides the start of another |
| Extractor.NonHexStopsMatch | trace_id_extractor.py:40 | after `[T-` and a hex run, a character that is neither a hex digit nor `,` makes the match fail and no marker sits at that position (upper-case hex digits are not accepted) |
| Extractor.FindAll | trace_id_extractor.py:41 | `re.findall` on the pair pattern: from a start position, report the match there and resume after it, or move on by one character |
| Extractor.FindAllSound | trace_id_extractor.py:41 | every pair the non-overlapping left-to-right scan reports is the trace and span of a marker at or after the start position |
| Extractor.FindAllComplete | trace_id_extractor.py:41 | every marker at or after the start position is reported by the scan, even where another match came first |
| Extractor.FindAllTakes | trace_id_extractor.py:41 | proof step, one unfolding of the scan: a successful match at the scan position is reported first and the scan resumes right after it |
| Extractor.FindAllSkips | trace_id_extractor.py:41 | proof step, one unfolding of the scan: where the match at the scan position fails, the scan moves on by one character |
| Extractor.FindAllEnds | trace_id_extractor.py:41 | proof step, one unfolding of the scan: the scan finds nothing at the end of the text |
| Extractor.ExtractTraceIds | trace_id_extractor.py:15-27 | the extracted trace IDs are all lower-case hex and each is the trace of a marker in the text |
| Extractor.ExtractTraceIdsExact | trace_id_extractor.py:25-27 | a string is an extracted trace ID if and only if some marker in the text carries it as its trace |
| Extractor.ExtractTraceAndSpanPairs | trace_id_extractor.py:30-42 | the extracted pairs are all lower-case hex and each is the (trace, span) of a marker in the text |
| Extractor.ExtractTraceAndSpanPairsExact | trace_id_extractor.py:40-42 | a pair is extracted if and only if a marker with that trace and that span occurs in the text |
| Extractor.TraceIdsArePairTraces | trace_id_extractor.py:25-42 | the trace IDs extracted by the first function are exactly the traces of the pairs extracted by the second |
| Extractor.NothingExtractedIffNoMarker | trace_id_extractor.py:25-42 | both extractions are empty if and only if the text holds no well-formed marker (so the empty text gives empty sets) |
| Ordering.StrLe | trace_id_extractor.py:58 | Python's `<=` on `str`: by code point, a proper prefix first |
| Ordering.PairLe | trace_id_extractor.py:75 | Python's `<=` on (trace, span) tuples: by trace, then by span |
| Ordering.LeastExists | trace_id_extractor.py:58 | a non-empty set under a total order has a least element |
| Ordering.Least | trace_id_extractor.py:58 | the least element of a non-empty set: it belongs to the set and is below every element |
| Ordering.SortedSet | trace_id_extractor.py:58 | `sorted` of a set: as many elements as the set, the same elements, strictly ascending |
| Ordering.HeadIsLeast | trace_id_extractor.py:58 | the first element of a strictly ascending listing is below every element of it |
| Ordering.AscendingListingUnique | trace_id_extractor.py:58 | two strictly ascending listings of the same elements are equal, so the sorted result depends on the set alone |
| Ordering.StrLeReflexive | trace_id_extractor.py:58 | Python's string comparison puts every string at or below itself |
| Ordering.StrLeAntisymmetric | trace_id_extractor.py:58 | two strings each at or below the other are equal |
| Ordering.StrLeTransitive | trace_id_extractor.py:58 | Python's string comparison is transitive |
| Ordering.StrLeTotal | trace_id_extractor.py:58 | any two strings are comparable |
| Ordering.StrLeIsTotalOrder | trace_id_extractor.py:58 | Python's string comparison is reflexive, antisymmetric, transitive and total |
| Ordering.PairLeIsTotalOrder | trace_id_extractor.py:75 | Python's comparison of (trace, span) tuples — by trace, then by span — is a total order |
| Query.Join | trace_id_extractor.py:59 | `str.join`: the parts in order with the separator between neighbours and nowhere else |
| Query.Literals | trace_id_extractor.py:58 | the list comprehension: one rendered literal per element, in the order of the listing |
| Query.Disjunction | trace_id_extractor.py:55-59 | the shared query builder gives `""` if and only if the set is empty |
| Query.TraceLiteral | trace_id_extractor.py:58 | the f-string `"T-{trace_id}"`, quotes included |
| Query.PairLiteral | trace_id_extractor.py:75 | the f-string `"T-{trace_id},S-{span_id}"`, quotes included |
| Query.SortedIds | trace_id_extractor.py:58 | the sorted trace IDs: the same elements, each once, in ascending string order |
| Query.SortedPairs | trace_id_extractor.py:75 | the sorted pairs: the same elements, each once, ordered by trace and then by span |
| Query.GenerateDqlQuery | trace_id_extractor.py:45-59 | the query is empty if and only if the set of trace IDs is empty |
| Query.GenerateDqlQueryWithSpans | trace_id_extractor.py:62-76 | the span query is empty if and only if the set of pairs is empty |
| Query.ParseTraceLiteralReadsBack | trace_id_extractor.py:58 | the reference reader reads a `"T-<trace>"` literal back as its trace, whatever follows it |
| Query.ParsePairLiteralReadsBack | trace_id_extractor.py:75 | the reference reader reads a `"T-<trace>,S-<span>"` literal back as its pair, whatever follows it |
| Query.PairLiteralLayout | trace_id_extractor.py:75 | where each character of `"T-<trace>,S-<span>"` sits when more text follows it |
| Query.PairLiteralChars | trace_id_extractor.py:75 | the quotes, `T-`, `,S-` of a pair literal sit where the reader looks for them |
| Query.PairLiteralTraceRun | trace_id_extractor.py:75 | the trace digits of a pair literal are the greedy run the reader takes after `"T-` |
| Query.PairLiteralSpanRun | trace_id_extractor.py:75 | the span digits of a pair literal are the greedy run the reader takes after `,S-` |
| Query.ParsePairFromRuns | trace_id_extractor.py:75 | proof step, one unfolding of the reader: it accepts a pair literal whose runs end at `,S-` and at the closing quote, and returns both groups |
| Query.ParseLiteralsOfJoin | trace_id_extractor.py:59 | literals joined with ` OR ` are read back as the listed values, in order |
| Query.GenerateDqlQueryReadsBack | trace_id_extractor.py:55-59 | for sets of hex IDs (what every caller passes), reading a generated query back gives exactly the sorted trace IDs (nothing lost, nothing duplicated, nothing reordered) |
| Query.GenerateDqlQueryWithSpansReadsBack | trace_id_extractor.py:72-76 | for sets of hex pairs (what every caller passes), reading a generated span query back gives exactly the sorted pairs |
| Query.DisjunctionShape | trace_id_extractor.py:58-59 | for a non-empty set, the query is `(` + the literals of its ascending listing joined by ` OR ` + `)` |
| Query.GenerateDqlQueryShape | trace_id_extractor.py:58-59 | the trace query of a non-empty set is `(` + `"T-id"` literals in ascending order joined by ` OR ` + `)` |
| Query.GenerateDqlQueryWithSpansShape | trace_id_extractor.py:75-76 | the span query of a non-empty set is `(` + `"T-trace,S-span"` literals in tuple order joined by ` OR ` + `)` |
| Query.LiteralsOfOne | trace_id_extractor.py:59 | joining a single literal adds no ` OR ` |
| Query.LiteralsOfTwo | trace_id_extractor.py:59 | joining two literals puts exactly one ` OR ` between them |
| Query.DisjunctionOfTwo | trace_id_extractor.py:58-59 | a two-element set gives `(` + the smaller literal + ` OR ` + the larger + `)` |
| Query.GenerateDqlQuerySingle | trace_id_extractor.py:58-59 | a single trace ID gives `("T-<trace>")`, with no ` OR ` |
| Query.GenerateDqlQueryWithSpansSingle | trace_id_extractor.py:75-76 | a single pair gives `("T-<trace>,S-<span>")` |
| Query.GenerateDqlQueryTwo | trace_id_extractor.py:58-59 | two distinct trace IDs give both literals, the smaller first, joined by one ` OR ` |
| Query.GenerateDqlQueryWithSpansTwo | trace_id_extractor.py:75-76 | two pairs with distinct traces give both literals in tuple order, joined by one ` OR ` |
| Scenarios.QueriesDependOnlyOnMarkers | trace_id_extractor.py:25-76 | two texts holding the same markers, in any order and any number of times, give the same sets and the same queries |
| Scenarios.NoMarkerGivesEmptyQueries | trace_id_extractor.py:55-56 | text without any marker, the empty text included, gives `""` in both modes |
| Scenarios.SkipPlain | trace_id_extractor.py:41 | a position without `[` contributes nothing to the scan |
| Scenarios.TakeMarker | trace_id_extractor.py:41 | a marker at the scan position is reported and the scan resumes right after it |
| Scenarios.SkipPlainRun | trace_id_extractor.py:41 | a stretch without `[` contributes nothing to the scan |
| Scenarios.MarkerAfter | trace_id_extractor.py:40 | a marker placed after any text is a match right where it starts |
| Scenarios.ScanPlainPart | trace_id_extractor.py:41 | a part of the text without `[` contributes nothing to the scan |
| Scenarios.ScanMarkerPart | trace_id_extractor.py:41 | a marker part of the text is reported where the scan reaches it, and the scan goes on right after it |
| Scenarios.ScanPlainThenMarker | trace_id_extractor.py:41 | after a part without `[`, a marker is the next match reported |
| Scenarios.ScanPlainEnd | trace_id_extractor.py:41 | a last part without `[` yields no further match |
| Scenarios.ScanOneMarker | trace_id_extractor.py:41 | one marker amid text without `[` is the only match |
| Scenarios.ScanTwoMarkers | trace_id_extractor.py:41 | two markers amid text without `[` are both reported, in order of appearance |
| Scenarios.MarkerInPrefix | trace_id_extractor.py:40 | a marker lying wholly in front of appended text is a marker with or without that text |
| Scenarios.MarkersOfAppend | trace_id_extractor.py:40 | the markers of any text with a marker appended are those of the text plus the new one where it starts: none straddles the seam |
| Scenarios.AppendMarker | trace_id_extractor.py:25-42 | appending a marker to any text adds exactly its pair to the pairs and its trace to the trace IDs |
| Scenarios.RepeatedMarkerCollapses | trace_id_extractor.py:25-42 | appending once more a marker that any text already holds changes neither extracted set nor either query |
| Scenarios.UppercaseMarkerIgnored | trace_id_extractor.py:25 | `[T-ABC,S-123]` is not a marker: both extractions are empty |
| Scenarios.TwoMarkersGiveDisjunction | trace_id_extractor.py:25-76 | any text whose markers carry exactly two different traces, each with one span, gives both sets and `("T-t1" OR "T-t2")` (smaller trace first) and the matching span query |
| Scenarios.SingleMarkerGivesSingleLiteral | trace_id_extractor.py:25-76 | any text whose markers all carry one trace and one span, however often and amid whatever text, gives `{trace}`, `{(trace, span)}`, `("T-<trace>")` and `("T-<trace>,S-<span>")` |

## Left out

- `process_log_file` and the command-line entry point (reading the log file, writing the output file, printing, argument parsing): file and console I/O.
- The web front end (`app.py` and the browser script): HTTP handling and rendering; it calls the same four operations.
- Python's general regular-expression engine: only the one fixed marker pattern is modelled, by a scanner written for it.
- Extractor.ExtractTraceIds: the trace-only pattern at line 25 is modelled as the trace column of the scan for the pair pattern at line 40; both patterns match exactly the same stretches of text (the span group only captures), so `re.findall` yields the same traces.
- Strings are sequences of Dafny `char`, that is of Unicode scalar values, compared by code point as Python compares `str`. The one difference is that a Python `str` can hold lone surrogates and a Dafny `char` cannot; the log text reaches these functions through UTF-8 decoding (strict for files), which never yields lone surrogates; every extracted ID is ASCII in any case.
- Idempotence and run-to-run determinism are not stated separately: every operation is a mathematical function, so calling it twice on the same input gives the same result by construction.

/**
 * The query builder of trace_id_extractor.py: `generate_dql_query` and
 * `generate_dql_query_with_spans` render a set of matches as the DQL
 * disjunction `("T-a" OR "T-b" ...)`, sorted, or as "" when the set is
 * empty. A reference reader for that format is the partner used to state
 * what the output contains.
 */
module Query {
  import opened Extractor
  import opened Ordering

  /** Python's `sep.join(parts)`. */
  function Join(sep: string, parts: seq<string>): string
    decreases |parts|
  {
    if |parts| == 0 then ""
    else if |parts| == 1 then parts[0]
    else parts[0] + sep + Join(sep, parts[1..])
  }

  /** The literal of each element, in the order given. */
  function Literals<T>(xs: seq<T>, literal: T -> string): seq<string> {
    seq(|xs|, k requires 0 <= k < |xs| => literal(xs[k]))
  }

  /**
   * The shared builder behind both formatters: sort the set, render each
   * element as a literal, join with ` OR ` and wrap in parentheses; the empty
   * set gives "" rather than "()".
   */
  function Disjunction<T(!new)>(s: set<T>, le: (T, T) -> bool, literal: T -> string): (q: string)
    requires IsTotalOrder(le)
    ensures q == "" <==> s == {}
  {
    if s == {} then
      ""
    else
      var xs := SortedSet(s, le);
      "(" + Join(" OR ", Literals(xs, literal)) + ")"
  }

  /** The literal `"T-<trace>"` of trace-only mode. */
  function TraceLiteral(trace: string): string {
    "\"T-" + trace + "\""
  }

  /** The literal `"T-<trace>,S-<span>"` of pair mode. */
  function PairLiteral(pair: (string, string)): string {
    "\"T-" + pair.0 + ",S-" + pair.1 + "\""
  }

  /** `sorted(trace_ids)`: ascending in Python's string order, each id once. */
  function SortedIds(ids: set<string>): (xs: seq<string>)
    ensures |xs| == |ids|
    ensures forall t :: t in xs <==> t in ids
    ensures StrictlyAscending(xs, StrLe)
  {
    StrLeIsTotalOrder();
    SortedSet(ids, StrLe)
  }

  /** `sorted(trace_span_pairs)`: ascending by trace, then by span, each pair once. */
  function SortedPairs(pairs: set<(string, string)>): (xs: seq<(string, string)>)
    ensures |xs| == |pairs|
    ensures forall p :: p in xs <==> p in pairs
    ensures StrictlyAscending(xs, PairLe)
  {
    PairLeIsTotalOrder();
    SortedSet(pairs, PairLe)
  }

  /** `generate_dql_query`: "" for the empty set, `("T-a" OR "T-b" ...)` otherwise. */
  function GenerateDqlQuery(ids: set<string>): (q: string)
    ensures q == "" <==> ids == {}
  {
    StrLeIsTotalOrder();
    Disjunction(ids, StrLe, TraceLiteral)
  }

  /** `generate_dql_query_with_spans`: "" for the empty set, `("T-a,S-x" OR ...)` otherwise. */
  function GenerateDqlQueryWithSpans(pairs: set<(string, string)>): (q: string)
    ensures q == "" <==> pairs == {}
  {
    PairLeIsTotalOrder();
    Disjunction(pairs, PairLe, PairLiteral)
  }

  // A reader for the query format: the partner the properties below are
  // stated against.

  /** A value read from the front of a string, and how many characters it took. */
  datatype Read<T> = Read(value: T, length: nat)

  /** Reads a literal `"T-<hex>"` at the front of `b`: the id and the literal's length. */
  function ParseTraceLiteral(b: string): (r: Option<Read<string>>)
    ensures r.Some? ==> IsHexId(r.value.value) && r.value.length <= |b|
  {
    if 3 <= |b| && b[0] == '"' && b[1] == 'T' && b[2] == '-' then
      var n := HexRun(b, 3);
      if n > 0 && 3 + n < |b| && b[3 + n] == '"' then
        RunIsHexId(b, 3);
        Some(Read(b[3..3 + n], 4 + n))
      else
        None
    else
      None
  }

  /** Reads a literal `"T-<hex>,S-<hex>"` at the front of `b`: the pair and the literal's length. */
  function ParsePairLiteral(b: string): (r: Option<Read<(string, string)>>)
    ensures r.Some? ==> IsHexId(r.value.value.0) && IsHexId(r.value.value.1) && r.value.length <= |b|
  {
    if 3 <= |b| && b[0] == '"' && b[1] == 'T' && b[2] == '-' then
      var n := HexRun(b, 3);
      var j := 3 + n;
      if n > 0 && j + 3 <= |b| && b[j] == ',' && b[j + 1] == 'S' && b[j + 2] == '-' then
        var m := HexRun(b, j + 3);
        var e := j + 3 + m;
        if m > 0 && e < |b| && b[e] == '"' then
          RunIsHexId(b, 3);
          RunIsHexId(b, j + 3);
          Some(Read((b[3..j], b[j + 3..e]), e + 1))
        else
          None
      else
        None
    else
      None
  }

  /** Reads literals separated by ` OR ` that fill all of `b`. */
  function ParseLiterals<T>(b: string, parseLiteral: string -> Option<Read<T>>): Option<seq<T>>
    decreases |b|
  {
    match parseLiteral(b)
    case None => None
    case Some(Read(x, k)) =>
      if k == |b| then
        Some([x])
      else if k + 4 <= |b| && b[k..k + 4] == " OR " then
        match ParseLiterals(b[k + 4..], parseLiteral)
        case None => None
        case Some(rest) => Some([x] + rest)
      else
        None
  }

  /** Reads a whole query: "" is the empty list, otherwise a parenthesised disjunction. */
  function ParseQuery<T>(q: string, parseLiteral: string -> Option<Read<T>>): Option<seq<T>> {
    if q == "" then
      Some([])
    else if 2 <= |q| && q[0] == '(' && q[|q| - 1] == ')' then
      ParseLiterals(q[1..|q| - 1], parseLiteral)
    else
      None
  }

  lemma ParseTraceLiteralReadsBack(trace: string, tail: string)
    requires IsHexId(trace)
    ensures ParseTraceLiteral(TraceLiteral(trace) + tail) == Some(Read(trace, |TraceLiteral(trace)|))
  {
    var b := TraceLiteral(trace) + tail;
    assert b[0] == '"' && b[1] == 'T' && b[2] == '-';
    assert forall k :: 0 <= k < |trace| ==> b[3 + k] == trace[k];
    assert b[3 + |trace|] == '"';
    HexRunIsMaximal(b, 3, |trace|);
    assert b[3..3 + |trace|] == trace;
  }

  lemma ParsePairLiteralReadsBack(pair: (string, string), tail: string)
    requires IsHexId(pair.0) && IsHexId(pair.1)
    ensures ParsePairLiteral(PairLiteral(pair) + tail) == Some(Read(pair, |PairLiteral(pair)|))
  {
    var b := PairLiteral(pair) + tail;
    var j := 3 + |pair.0|;
    var e := j + 3 + |pair.1|;
    PairLiteralChars(pair.0, pair.1, tail);
    PairLiteralTraceRun(pair.0, pair.1, tail);
    PairLiteralSpanRun(pair.0, pair.1, tail);
    ParsePairFromRuns(b, j, e);
  }

  /** The fixed characters of a pair literal followed by more text. */
  lemma PairLiteralChars(trace: string, span: string, tail: string)
    ensures var b := PairLiteral((trace, span)) + tail;
      var j := 3 + |trace|;
      var e := j + 3 + |span|;
      && e < |b| && e + 1 == |PairLiteral((trace, span))|
      && b[0] == '"' && b[1] == 'T' && b[2] == '-'
      && b[j] == ',' && b[j + 1] == 'S' && b[j + 2] == '-'
      && b[e] == '"'
  {
    PairLiteralLayout(trace, span, tail);
  }

  /** The trace digits of a pair literal are the run the reader finds after `"T-`. */
  lemma PairLiteralTraceRun(trace: string, span: string, tail: string)
    requires IsHexId(trace)
    ensures var b := PairLiteral((trace, span)) + tail;
      HexRun(b, 3) == |trace| && b[3..3 + |trace|] == trace
  {
    PairLiteralLayout(trace, span, tail);
    GroupIsRun(PairLiteral((trace, span)) + tail, 3, trace);
  }

  /** The span digits of a pair literal are the run the reader finds after `,S-`. */
  lemma PairLiteralSpanRun(trace: string, span: string, tail: string)
    requires IsHexId(span)
    ensures var b := PairLiteral((trace, span)) + tail;
      var j := 3 + |trace|;
      HexRun(b, j + 3) == |span| && b[j + 3..j + 3 + |span|] == span
  {
    PairLiteralLayout(trace, span, tail);
    GroupIsRun(PairLiteral((trace, span)) + tail, 6 + |trace|, span);
  }

  /** The reader's verdict when both digit runs end where a pair literal's layout needs them to. */
  lemma ParsePairFromRuns(b: string, j: nat, e: nat)
    requires 3 < j && j + 3 < e < |b|
    requires b[0] == '"' && b[1] == 'T' && b[2] == '-'
    requires HexRun(b, 3) == j - 3
    requires b[j] == ',' && b[j + 1] == 'S' && b[j + 2] == '-'
    requires HexRun(b, j + 3) == e - (j + 3)
    requires b[e] == '"'
    ensures ParsePairLiteral(b) == Some(Read((b[3..j], b[j + 3..e]), e + 1))
  {
  }

  /** Where each character of a pair literal sits when more text follows it. */
  lemma PairLiteralLayout(trace: string, span: string, tail: string)
    ensures |PairLiteral((trace, span))| == |trace| + |span| + 7
    ensures var b := PairLiteral((trace, span)) + tail;
      && b[0] == '"' && b[1] == 'T' && b[2] == '-'
      && (forall k :: 0 <= k < |trace| ==> b[3 + k] == trace[k])
      && b[3 + |trace|] == ',' && b[4 + |trace|] == 'S' && b[5 + |trace|] == '-'
      && (forall k :: 0 <= k < |span| ==> b[6 + |trace| + k] == span[k])
      && b[6 + |trace| + |span|] == '"'
  {
  }

  /**
   * Joining rendered literals with ` OR ` and reading them back gives the
   * original list, provided each literal reads back to its element whatever
   * follows it.
   */
  lemma {:induction false} ParseLiteralsOfJoin<T>(xs: seq<T>, literal: T -> string, parseLiteral: string -> Option<Read<T>>)
    requires |xs| > 0
    requires forall x, tail :: x in xs ==> parseLiteral(literal(x) + tail) == Some(Read(x, |literal(x)|))
    ensures ParseLiterals(Join(" OR ", Literals(xs, literal)), parseLiteral) == Some(xs)
    decreases |xs|
  {
    var lits := Literals(xs, literal);
    var b := Join(" OR ", lits);
    if |xs| == 1 {
      assert xs[0] in xs;
      assert b == literal(xs[0]) + [];
      assert parseLiteral(literal(xs[0]) + []) == Some(Read(xs[0], |literal(xs[0])|));
      assert xs == [xs[0]];
    } else {
      var tail := Literals(xs[1..], literal);
      assert lits[1..] == tail;
      var rest := Join(" OR ", tail);
      assert b == literal(xs[0]) + (" OR " + rest);
      assert xs[0] in xs;
      var n := |literal(xs[0])|;
      assert parseLiteral(b) == Some(Read(xs[0], n));
      assert b[n..n + 4] == " OR ";
      assert b[n + 4..] == rest;
      forall x, t | x in xs[1..] ensures parseLiteral(literal(x) + t) == Some(Read(x, |literal(x)|)) {
        assert x in xs;
      }
      ParseLiteralsOfJoin(xs[1..], literal, parseLiteral);
      assert xs == [xs[0]] + xs[1..];
    }
  }

  /**
   * The trace-only query lists every id of the set exactly once, in
   * ascending order, and nothing else: reading it back gives `sorted(ids)`.
   */
  lemma GenerateDqlQueryReadsBack(ids: set<string>)
    requires forall t :: t in ids ==> IsHexId(t)
    ensures ParseQuery(GenerateDqlQuery(ids), ParseTraceLiteral) == Some(SortedIds(ids))
  {
    if ids != {} {
      var xs := SortedIds(ids);
      forall x, tail | x in xs ensures ParseTraceLiteral(TraceLiteral(x) + tail) == Some(Read(x, |TraceLiteral(x)|)) {
        ParseTraceLiteralReadsBack(x, tail);
      }
      ParseLiteralsOfJoin(xs, TraceLiteral, ParseTraceLiteral);
    }
  }

  /**
   * The pair query lists every pair of the set exactly once, ordered by
   * trace then span, and nothing else: reading it back gives `sorted(pairs)`.
   */
  lemma GenerateDqlQueryWithSpansReadsBack(pairs: set<(string, string)>)
    requires forall p :: p in pairs ==> IsHexId(p.0) && IsHexId(p.1)
    ensures ParseQuery(GenerateDqlQueryWithSpans(pairs), ParsePairLiteral) == Some(SortedPairs(pairs))
  {
    if pairs != {} {
      var xs := SortedPairs(pairs);
      forall x, tail | x in xs ensures ParsePairLiteral(PairLiteral(x) + tail) == Some(Read(x, |PairLiteral(x)|)) {
        ParsePairLiteralReadsBack(x, tail);
      }
      ParseLiteralsOfJoin(xs, PairLiteral, ParsePairLiteral);
    }
  }

  /** The shared builder lists the set in its one ascending order. */
  lemma DisjunctionShape<T(!new)>(s: set<T>, le: (T, T) -> bool, literal: T -> string, xs: seq<T>)
    requires IsTotalOrder(le)
    requires s != {}
    requires StrictlyAscending(xs, le)
    requires forall x :: x in xs <==> x in s
    ensures Disjunction(s, le, literal) == "(" + Join(" OR ", Literals(xs, literal)) + ")"
  {
    AscendingListingUnique(xs, SortedSet(s, le), le);
  }

  /**
   * For a non-empty id set the query is `(` + the literals of the ids in
   * ascending order joined by ` OR ` + `)`, whichever ascending listing of
   * the set one starts from: the output depends only on the set's contents.
   */
  lemma GenerateDqlQueryShape(ids: set<string>, xs: seq<string>)
    requires ids != {}
    requires StrictlyAscending(xs, StrLe)
    requires forall t :: t in xs <==> t in ids
    ensures GenerateDqlQuery(ids) == "(" + Join(" OR ", Literals(xs, TraceLiteral)) + ")"
  {
    StrLeIsTotalOrder();
    DisjunctionShape(ids, StrLe, TraceLiteral, xs);
  }

  /** The pair query has the same shape, over pairs ordered by trace and then span. */
  lemma GenerateDqlQueryWithSpansShape(pairs: set<(string, string)>, xs: seq<(string, string)>)
    requires pairs != {}
    requires StrictlyAscending(xs, PairLe)
    requires forall p :: p in xs <==> p in pairs
    ensures GenerateDqlQueryWithSpans(pairs) == "(" + Join(" OR ", Literals(xs, PairLiteral)) + ")"
  {
    PairLeIsTotalOrder();
    DisjunctionShape(pairs, PairLe, PairLiteral, xs);
  }

  /** One id gives one literal in parentheses, with no ` OR `. */
  lemma GenerateDqlQuerySingle(trace: string)
    ensures GenerateDqlQuery({trace}) == "(\"T-" + trace + "\")"
  {
    assert StrictlyAscending([trace], StrLe);
    GenerateDqlQueryShape({trace}, [trace]);
    LiteralsOfOne(trace, TraceLiteral);
  }

  /** One pair gives one literal in parentheses, with no ` OR `. */
  lemma GenerateDqlQueryWithSpansSingle(trace: string, span: string)
    ensures GenerateDqlQueryWithSpans({(trace, span)}) == "(\"T-" + trace + ",S-" + span + "\")"
  {
    assert StrictlyAscending([(trace, span)], PairLe);
    GenerateDqlQueryWithSpansShape({(trace, span)}, [(trace, span)]);
    LiteralsOfOne((trace, span), PairLiteral);
  }

  /** Two ids give two literals, the smaller first, joined by one ` OR `. */
  lemma GenerateDqlQueryTwo(t1: string, t2: string)
    requires t1 != t2 && StrLe(t1, t2)
    ensures GenerateDqlQuery({t1, t2}) == "(" + TraceLiteral(t1) + " OR " + TraceLiteral(t2) + ")"
  {
    StrLeIsTotalOrder();
    DisjunctionOfTwo(t1, t2, StrLe, TraceLiteral);
  }

  /** Two pairs with different traces give two literals, the smaller trace first. */
  lemma GenerateDqlQueryWithSpansTwo(t1: string, s1: string, t2: string, s2: string)
    requires t1 != t2 && StrLe(t1, t2)
    ensures GenerateDqlQueryWithSpans({(t1, s1), (t2, s2)}) == "(" + PairLiteral((t1, s1)) + " OR " + PairLiteral((t2, s2)) + ")"
  {
    PairLeIsTotalOrder();
    assert PairLe((t1, s1), (t2, s2));
    DisjunctionOfTwo((t1, s1), (t2, s2), PairLe, PairLiteral);
  }

  /** Two distinct elements are listed smaller first. */
  lemma DisjunctionOfTwo<T(!new)>(a: T, b: T, le: (T, T) -> bool, literal: T -> string)
    requires IsTotalOrder(le) && a != b && le(a, b)
    ensures Disjunction({a, b}, le, literal) == "(" + literal(a) + " OR " + literal(b) + ")"
  {
    var xs := [a, b];
    assert StrictlyAscending(xs, le) by {
      forall i, j | 0 <= i < j < |xs| ensures le(xs[i], xs[j]) && xs[i] != xs[j] {
        assert i == 0 && j == 1;
      }
    }
    assert Disjunction({a, b}, le, literal) == "(" + Join(" OR ", Literals(xs, literal)) + ")" by {
      assert forall x :: x in xs <==> x in {a, b};
      DisjunctionShape({a, b}, le, literal, xs);
    }
    LiteralsOfTwo(a, b, literal);
  }

  lemma LiteralsOfOne<T>(a: T, literal: T -> string)
    ensures Join(" OR ", Literals([a], literal)) == literal(a)
  {
  }

  lemma LiteralsOfTwo<T>(a: T, b: T, literal: T -> string)
    ensures Join(" OR ", Literals([a, b], literal)) == literal(a) + " OR " + literal(b)
  {
  }
}

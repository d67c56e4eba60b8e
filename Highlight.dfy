/**
 * `render_simple_highlight`: wraps every reported error span of an essay in a
 * highlight tag, splicing from the highest offset down so that the spans not yet
 * processed still sit on the original text, then turns newlines into `<br>`.
 */
module Highlight {
  import opened Text
  import opened GrammarCheck

  /** The pair of tags wrapped around each error span. */
  datatype Markup = Markup(open: string, close: string)

  /** The tags `render_simple_highlight` uses. */
  const GrammarError: Markup := Markup("<span class=\"grammar-error\">", "</span>")

  const LineBreak: string := "<br>"

  /** Characters one span gains. */
  function Overhead(m: Markup): nat { |m.open| + |m.close| }

  /**
   * What the round trip needs of the tags: they hold no newline, both start with
   * `<`, and their second characters tell them apart from each other and from `<br>`.
   */
  predicate Distinguishable(m: Markup) {
    '\n' !in m.open && '\n' !in m.close &&
    |m.open| >= 2 && |m.close| >= 2 && m.open[0] == '<' && m.close[0] == '<' &&
    m.open[1] != m.close[1] && m.open[1] != LineBreak[1] && m.close[1] != LineBreak[1]
  }

  lemma GrammarErrorDistinguishable()
    ensures Distinguishable(GrammarError)
  {
    var o, c := GrammarError.open, GrammarError.close;
    assert o[0] == '<' && o[1] == 's' && c[0] == '<' && c[1] == '/' && LineBreak[1] == 'b';
    assert forall i :: 0 <= i < |o| ==> o[i] != '\n';
    assert forall i :: 0 <= i < |c| ==> c[i] != '\n';
  }

  /** What one character becomes: a newline turns into `<br>`, anything else stays. */
  function ReplaceChar(c: char): string {
    if c == '\n' then LineBreak else [c]
  }

  /** `s.replace("\n", "<br>")`. */
  function ReplaceNewlines(s: string): (r: string)
    ensures |r| == |s| + 3 * Count(s, '\n')
    ensures '\n' !in r
    decreases |s|
  {
    if s == [] then []
    else
      var rest := ReplaceNewlines(s[1..]);
      assert '\n' !in LineBreak;
      ReplaceChar(s[0]) + rest
  }

  predicate DescendingByOffset(s: seq<ErrorRecord>) {
    forall i, j :: 0 <= i < j < |s| ==> s[i].offset >= s[j].offset
  }

  /** One turn of the splice loop: `w[:start] + open + w[start:end] + close + w[end:]`. */
  function Splice(m: Markup, w: string, start: nat, end: nat): (r: string)
    ensures start <= end <= |w| ==> |r| == |w| + Overhead(m)
  {
    Take(w, start) + (m.open + Slice(w, start, end) + m.close) + Drop(w, end)
  }

  /** The splice loop run over `spans` in the given order, starting from `w`. */
  function SpliceAll(m: Markup, w: string, spans: seq<ErrorRecord>): string
    decreases |spans|
  {
    if spans == [] then w
    else SpliceAll(m, Splice(m, w, spans[0].offset, spans[0].offset + spans[0].length), spans[1..])
  }

  /** What `render_simple_highlight` returns once `spans` is the sorted error list. */
  function Highlight(text: string, spans: seq<ErrorRecord>): (r: string)
    ensures spans == [] ==> r == text
    ensures spans != [] ==> '\n' !in r
  {
    if spans == [] then text else ReplaceNewlines(SpliceAll(GrammarError, text, spans))
  }

  /**
   * Spans in descending order inside the first `n` characters: the first ends by `n`,
   * and each later one ends by the offset of the one before it.
   */
  predicate ValidDesc(n: nat, s: seq<ErrorRecord>)
    decreases |s|
  {
    s == [] || (s[0].offset + s[0].length <= n && ValidDesc(s[0].offset, s[1..]))
  }

  /**
   * The intended picture, read off the original text only: every span's segment
   * wrapped once in the tags, everything else untouched.
   */
  function Marked(m: Markup, text: string, s: seq<ErrorRecord>): string
    requires ValidDesc(|text|, s)
    decreases |s|
  {
    if s == [] then text
    else
      var start, end := s[0].offset, s[0].offset + s[0].length;
      Marked(m, text[..start], s[1..]) + (m.open + text[start..end] + m.close) + text[end..]
  }

  /**
   * The error list as the caller hands it over: each span non-empty and inside the
   * text, no span given twice, no two spans overlapping. Stated on the multiset so
   * that it does not depend on the order of the list.
   */
  predicate WellFormedSpans(text: string, spans: multiset<ErrorRecord>) {
    (forall e :: e in spans ==> 0 < e.length && e.offset + e.length <= |text|) &&
    (forall e :: e in spans ==> spans[e] <= 1) &&
    (forall e, f :: e in spans && f in spans && e != f ==>
       e.offset + e.length <= f.offset || f.offset + f.length <= e.offset)
  }

  /** No span given twice and no two spans at the same offset. */
  predicate DistinctOffsets(spans: multiset<ErrorRecord>) {
    (forall e :: e in spans ==> spans[e] <= 1) &&
    (forall e, f :: e in spans && f in spans && e != f ==> e.offset != f.offset)
  }

  // ---------------------------------------------------------------------------
  // The method

  /** Exchanges the neighbours at `j - 1` and `j`. */
  method SwapAdjacent(errors: array<ErrorRecord>, j: nat)
    requires 0 < j < errors.Length
    modifies errors
    ensures errors[..] == old(errors[..])[j - 1 := old(errors[j])][j := old(errors[j - 1])]
    ensures multiset(errors[..]) == multiset(old(errors[..]))
  {
    errors[j - 1], errors[j] := errors[j], errors[j - 1];
  }

  /** Exchanging two neighbours below `n` keeps the multiset of the first `n` records and everything from `n` on. */
  lemma SwapInPrefix(a: seq<ErrorRecord>, b: seq<ErrorRecord>, j: nat, n: nat)
    requires 0 < j < n <= |a| && b == a[j - 1 := a[j]][j := a[j - 1]]
    ensures multiset(b[..n]) == multiset(a[..n])
    ensures b[n..] == a[n..]
  {
    assert b[..n] == a[..n][j - 1 := a[j]][j := a[j - 1]];
  }

  /** Two sequences that agree on the multiset of a prefix and on the rest hold the same multiset. */
  lemma PrefixSuffixMultiset(a: seq<ErrorRecord>, b: seq<ErrorRecord>, n: nat)
    requires n <= |a| == |b| && multiset(a[..n]) == multiset(b[..n]) && a[n..] == b[n..]
    ensures multiset(a) == multiset(b)
  {
    assert a == a[..n] + a[n..];
    assert b == b[..n] + b[n..];
  }

  /**
   * Halfway through one insertion: the first `i + 1` records are in descending
   * order apart from the one being moved, now at `j`, whose offset is larger than
   * every offset after it.
   */
  predicate Inserting(s: seq<ErrorRecord>, j: nat, i: nat)
    requires j <= i < |s|
  {
    (forall p, q :: 0 <= p < q <= i && p != j && q != j ==> s[p].offset >= s[q].offset) &&
    (forall q :: j < q <= i ==> s[j].offset > s[q].offset)
  }

  /** Moving the record one place left past a smaller offset keeps the insertion going. */
  lemma InsertingSwap(a: seq<ErrorRecord>, b: seq<ErrorRecord>, j: nat, i: nat)
    requires 0 < j <= i < |a| && Inserting(a, j, i) && a[j - 1].offset < a[j].offset
    requires b == a[j - 1 := a[j]][j := a[j - 1]]
    ensures Inserting(b, j - 1, i)
  {
  }

  /** The loop state of one insertion into `original`: halfway, with the first `i + 1` records permuted and the rest untouched. */
  predicate InsertingInto(original: seq<ErrorRecord>, a: seq<ErrorRecord>, j: nat, i: nat) {
    j <= i < |a| == |original| && Inserting(a, j, i) &&
    multiset(a[..i + 1]) == multiset(original[..i + 1]) && a[i + 1..] == original[i + 1..]
  }

  /** Before the first turn, the record to insert sits at `i` behind a sorted prefix. */
  lemma InsertingStart(a: seq<ErrorRecord>, i: nat)
    requires i < |a| && DescendingByOffset(a[..i])
    ensures InsertingInto(a, a, i, i)
  {
    assert forall p :: 0 <= p < i ==> a[p] == a[..i][p];
  }

  /** One turn of the insertion loop keeps its state. */
  lemma InsertingStep(original: seq<ErrorRecord>, a: seq<ErrorRecord>, b: seq<ErrorRecord>, j: nat, i: nat)
    requires 0 < j && InsertingInto(original, a, j, i) && a[j - 1].offset < a[j].offset
    requires b == a[j - 1 := a[j]][j := a[j - 1]]
    ensures InsertingInto(original, b, j - 1, i)
  {
    SwapInPrefix(a, b, j, i + 1);
    InsertingSwap(a, b, j, i);
  }

  /** Once the record meets an offset at least as large, or the front, the prefix is sorted. */
  lemma InsertingDone(s: seq<ErrorRecord>, j: nat, i: nat)
    requires j <= i < |s| && Inserting(s, j, i)
    requires j == 0 || s[j - 1].offset >= s[j].offset
    ensures DescendingByOffset(s[..i + 1])
  {
  }

  /** When the loop stops, the insertion is complete and the whole array is a permutation of `original`. */
  lemma InsertingFinish(original: seq<ErrorRecord>, s: seq<ErrorRecord>, j: nat, i: nat)
    requires InsertingInto(original, s, j, i)
    requires j == 0 || s[j - 1].offset >= s[j].offset
    ensures DescendingByOffset(s[..i + 1])
    ensures multiset(s[..i + 1]) == multiset(original[..i + 1]) && s[i + 1..] == original[i + 1..]
    ensures multiset(s) == multiset(original)
  {
    InsertingDone(s, j, i);
    PrefixSuffixMultiset(original, s, i + 1);
  }

  /**
   * One step of the sort: moves `errors[i]` to the left until the first `i + 1`
   * records are in descending order of offset. They hold what they held before,
   * and the records after `i` stay where they are.
   */
  method InsertDescending(errors: array<ErrorRecord>, i: nat)
    requires i < errors.Length
    requires DescendingByOffset(errors[..i])
    modifies errors
    ensures DescendingByOffset(errors[..i + 1])
    ensures multiset(errors[..i + 1]) == multiset(old(errors[..i + 1]))
    ensures errors[i + 1..] == old(errors[i + 1..])
    ensures multiset(errors[..]) == multiset(old(errors[..]))
  {
    ghost var original := errors[..];
    InsertingStart(original, i);
    var j := i;
    while j > 0 && errors[j - 1].offset < errors[j].offset
      invariant 0 <= j <= i
      invariant InsertingInto(original, errors[..], j, i)
    {
      ghost var before := errors[..];
      SwapAdjacent(errors, j);
      InsertingStep(original, before, errors[..], j, i);
      j := j - 1;
    }
    InsertingFinish(original, errors[..], j, i);
  }

  /** `errors.sort(key=offset, reverse=True)`, in place, as an insertion sort. */
  method SortByOffsetDescending(errors: array<ErrorRecord>)
    modifies errors
    ensures DescendingByOffset(errors[..])
    ensures multiset(errors[..]) == multiset(old(errors[..]))
  {
    var i := 0;
    while i < errors.Length
      invariant i <= errors.Length
      invariant DescendingByOffset(errors[..i])
      invariant multiset(errors[..]) == multiset(old(errors[..]))
    {
      InsertDescending(errors, i);
      i := i + 1;
    }
    assert errors[..] == errors[..errors.Length];
  }

  /**
   * `render_simple_highlight(text, errors)`. The caller's list is reordered in place;
   * the result is the spliced text with newlines turned into `<br>`, except on an
   * empty list, where the text comes back exactly as given.
   */
  method RenderSimpleHighlight(text: string, errors: array<ErrorRecord>) returns (html: string)
    modifies errors
    ensures errors.Length == 0 ==> html == text
    ensures DescendingByOffset(errors[..])
    ensures multiset(errors[..]) == multiset(old(errors[..]))
    ensures html == Highlight(text, errors[..])
    ensures WellFormedSpans(text, multiset(old(errors[..]))) ==>
      ValidDesc(|text|, errors[..]) &&
      html == if errors.Length == 0 then text else ReplaceNewlines(Marked(GrammarError, text, errors[..]))
  {
    if errors.Length == 0 {
      return text;
    }
    SortByOffsetDescending(errors);
    if WellFormedSpans(text, multiset(errors[..])) {
      SortedWellFormedIsValid(text, errors[..]);
    }
    var w := SpliceErrors(GrammarError, text, errors[..]);
    html := ReplaceNewlines(w);
    if WellFormedSpans(text, multiset(errors[..])) {
      SpliceAllIsMarked(GrammarError, text, errors[..]);
    }
  }

  /** The loop of `render_simple_highlight`: splices the errors in the order the list holds them. */
  method SpliceErrors(m: Markup, text: string, errors: seq<ErrorRecord>) returns (w: string)
    ensures w == SpliceAll(m, text, errors)
  {
    w := text;
    for i := 0 to |errors|
      invariant SpliceAll(m, w, errors[i..]) == SpliceAll(m, text, errors)
    {
      var start := errors[i].offset;
      var end := start + errors[i].length;
      var badSegment := Slice(w, start, end);
      var replacement := m.open + badSegment + m.close;
      assert SpliceAll(m, w, errors[i..]) == SpliceAll(m, Take(w, start) + replacement + Drop(w, end), errors[i + 1..]) by {
        assert errors[i..][0] == errors[i] && errors[i..][1..] == errors[i + 1..];
        SpliceAllCons(m, w, errors[i..]);
      }
      w := Take(w, start) + replacement + Drop(w, end);
    }
    assert errors[|errors|..] == [];
  }

  // ---------------------------------------------------------------------------
  // Splicing from the end equals wrapping each segment of the original text

  lemma TwoPositions(s: seq<ErrorRecord>, i: nat, j: nat)
    requires i < j < |s| && s[i] == s[j]
    ensures multiset(s)[s[i]] >= 2
  {
    assert s == s[..j] + s[j..];
    assert s[i] in s[..j];
    assert s[j] in s[j..];
  }

  /** Every span ends by `n`, and every span ends by the offset of each span before it. */
  lemma {:induction false} PairwiseIsValid(n: nat, s: seq<ErrorRecord>)
    requires forall i :: 0 <= i < |s| ==> s[i].offset + s[i].length <= n
    requires forall i, j :: 0 <= i < j < |s| ==> s[j].offset + s[j].length <= s[i].offset
    ensures ValidDesc(n, s)
    decreases |s|
  {
    if s != [] {
      var t := s[1..];
      assert forall i :: 0 <= i < |t| ==> t[i] == s[i + 1];
      PairwiseIsValid(s[0].offset, t);
    }
  }

  /** Sorting a well-formed error list leaves spans that never reach into an earlier one. */
  lemma SortedWellFormedIsValid(text: string, s: seq<ErrorRecord>)
    requires DescendingByOffset(s)
    requires WellFormedSpans(text, multiset(s))
    ensures ValidDesc(|text|, s)
  {
    forall i | 0 <= i < |s| ensures s[i].offset + s[i].length <= |text| {
      assert s[i] in multiset(s);
    }
    forall i, j | 0 <= i < j < |s| ensures s[j].offset + s[j].length <= s[i].offset {
      assert s[i] in multiset(s) && s[j] in multiset(s);
      if s[i] == s[j] {
        TwoPositions(s, i, j);
      }
    }
    PairwiseIsValid(|text|, s);
  }

  /** Regrouping a concatenation, kept as a step of its own so that the proofs using it stay small. */
  lemma Associative(a: string, b: string, c: string)
    ensures a + b + c == a + (b + c)
  {
  }

  /** Inside the text, Python's clamped slices are plain slices. */
  lemma SpliceInBounds(m: Markup, w: string, start: nat, end: nat)
    requires start <= end <= |w|
    ensures Splice(m, w, start, end) == w[..start] + (m.open + w[start..end] + m.close) + w[end..]
  {
    assert Slice(w, start, end) == w[start..end];
  }

  /** Splicing only inside `p` commutes with appending `tail`. */
  lemma SpliceExtend(m: Markup, p: string, tail: string, start: nat, end: nat)
    requires start <= end <= |p|
    ensures Splice(m, p + tail, start, end) == Splice(m, p, start, end) + tail
    ensures |Splice(m, p, start, end)| >= |p|
  {
    assert Take(p + tail, start) == p[..start];
    assert Take(p + tail, end) == p[..end];
    assert Drop(p + tail, end) == p[end..] + tail;
  }

  /** A bound on a descending list of spans may be raised. */
  lemma ValidDescWeaken(n: nat, n': nat, s: seq<ErrorRecord>)
    requires ValidDesc(n, s) && n <= n'
    ensures ValidDesc(n', s)
  {
  }

  /** Every span of a descending list ends inside the bound, and by the offset of the span before it. */
  lemma {:induction false} ValidDescBound(n: nat, s: seq<ErrorRecord>, i: nat)
    requires ValidDesc(n, s) && i < |s|
    ensures s[i].offset + s[i].length <= n
    ensures i > 0 ==> s[i].offset + s[i].length <= s[i - 1].offset
    decreases i
  {
    if i > 0 {
      ValidDescBound(s[0].offset, s[1..], i - 1);
      assert s[1..][i - 1] == s[i];
      if i > 1 {
        assert s[1..][i - 2] == s[i - 1];
      }
    }
  }

  lemma SpliceAllCons(m: Markup, w: string, s: seq<ErrorRecord>)
    requires s != []
    ensures SpliceAll(m, w, s) == SpliceAll(m, Splice(m, w, s[0].offset, s[0].offset + s[0].length), s[1..])
  {
  }

  /** Running the loop over one more span splices that span into the result so far. */
  lemma {:induction false} SpliceAllSnoc(m: Markup, w: string, s: seq<ErrorRecord>, x: ErrorRecord)
    ensures SpliceAll(m, w, s + [x]) == Splice(m, SpliceAll(m, w, s), x.offset, x.offset + x.length)
    decreases |s|
  {
    SpliceAllCons(m, w, s + [x]);
    if s == [] {
      assert s + [x] == [x] && [x][1..] == [];
    } else {
      assert (s + [x])[0] == s[0] && (s + [x])[1..] == s[1..] + [x];
      SpliceAllSnoc(m, Splice(m, w, s[0].offset, s[0].offset + s[0].length), s[1..], x);
      SpliceAllCons(m, w, s);
    }
  }

  /** Splicing at or after `end` keeps the first `end` characters. */
  lemma SplicePrefixStep(m: Markup, text: string, prev: string, start: nat, end: nat, upTo: nat)
    requires upTo <= start <= end <= |prev| && end <= |text|
    requires prev[..end] == text[..end]
    ensures var w := Splice(m, prev, start, end);
      upTo <= |w| && w[..upTo] == text[..upTo]
  {
    SpliceInBounds(m, prev, start, end);
    var w := Splice(m, prev, start, end);
    assert w[..start] == prev[..start];
    assert w[..upTo] == prev[..end][..upTo];
  }

  /**
   * The invariant the descending order buys: when span `i` comes up, the working
   * string still holds the original text up to the span's end, so the segment it
   * wraps is the one the grammar service reported.
   */
  lemma {:induction false} SplicePrefixKept(m: Markup, text: string, s: seq<ErrorRecord>, i: nat)
    requires ValidDesc(|text|, s) && i < |s|
    ensures var end, w := s[i].offset + s[i].length, SpliceAll(m, text, s[..i]);
      end <= |text| && end <= |w| && w[..end] == text[..end]
    decreases i
  {
    if i == 0 {
      ValidDescBound(|text|, s, 0);
      assert s[..0] == [];
    } else {
      SplicePrefixKept(m, text, s, i - 1);
      ValidDescBound(|text|, s, i);
      SplicePrefixNext(m, text, s, i);
    }
  }

  /** The step of `SplicePrefixKept` from span `i - 1` to span `i`. */
  lemma SplicePrefixNext(m: Markup, text: string, s: seq<ErrorRecord>, i: nat)
    requires 0 < i < |s| && s[i].offset + s[i].length <= s[i - 1].offset
    requires var end, w := s[i - 1].offset + s[i - 1].length, SpliceAll(m, text, s[..i - 1]);
      end <= |text| && end <= |w| && w[..end] == text[..end]
    ensures var end, w := s[i].offset + s[i].length, SpliceAll(m, text, s[..i]);
      end <= |text| && end <= |w| && w[..end] == text[..end]
  {
    var start := s[i - 1].offset;
    SpliceAllTake(m, text, s, i);
    SplicePrefixStep(m, text, SpliceAll(m, text, s[..i - 1]), start, start + s[i - 1].length, s[i].offset + s[i].length);
  }

  /** The loop after `i` spans is the loop after `i - 1` spans plus one splice. */
  lemma SpliceAllTake(m: Markup, text: string, s: seq<ErrorRecord>, i: nat)
    requires 0 < i <= |s|
    ensures SpliceAll(m, text, s[..i]) ==
      Splice(m, SpliceAll(m, text, s[..i - 1]), s[i - 1].offset, s[i - 1].offset + s[i - 1].length)
  {
    TakeOneMore(s, i);
    SpliceAllSnoc(m, text, s[..i - 1], s[i - 1]);
  }

  /** A prefix is the next shorter prefix and one more element. */
  lemma TakeOneMore(s: seq<ErrorRecord>, i: nat)
    requires 0 < i <= |s|
    ensures s[..i] == s[..i - 1] + [s[i - 1]]
  {
  }

  lemma {:induction false} SpliceAllExtend(m: Markup, p: string, tail: string, spans: seq<ErrorRecord>)
    requires ValidDesc(|p|, spans)
    ensures SpliceAll(m, p + tail, spans) == SpliceAll(m, p, spans) + tail
    decreases |spans|
  {
    if spans != [] {
      var start, end := spans[0].offset, spans[0].offset + spans[0].length;
      SpliceExtend(m, p, tail, start, end);
      var p' := Splice(m, p, start, end);
      ValidDescWeaken(start, |p'|, spans[1..]);
      SpliceAllExtend(m, p', tail, spans[1..]);
    }
  }

  /** The first splice, on a span inside the text, leaves the text before the span in front. */
  lemma SpliceAllFirst(m: Markup, text: string, s: seq<ErrorRecord>)
    requires ValidDesc(|text|, s) && s != []
    ensures var start, end := s[0].offset, s[0].offset + s[0].length;
      SpliceAll(m, text, s) ==
      SpliceAll(m, text[..start], s[1..]) + ((m.open + text[start..end] + m.close) + text[end..])
  {
    var start, end := s[0].offset, s[0].offset + s[0].length;
    var prefix, wrapped, after := text[..start], m.open + text[start..end] + m.close, text[end..];
    SpliceInBounds(m, text, start, end);
    assert SpliceAll(m, text, s) == SpliceAll(m, prefix + wrapped + after, s[1..]);
    Associative(prefix, wrapped, after);
    SpliceAllExtend(m, prefix, wrapped + after, s[1..]);
  }

  /**
   * The splice loop over in-bounds, non-overlapping spans in descending order
   * wraps each span's original segment exactly once.
   */
  lemma {:induction false} SpliceAllIsMarked(m: Markup, text: string, s: seq<ErrorRecord>)
    requires ValidDesc(|text|, s)
    ensures SpliceAll(m, text, s) == Marked(m, text, s)
    decreases |s|
  {
    if s != [] {
      var start, end := s[0].offset, s[0].offset + s[0].length;
      SpliceAllFirst(m, text, s);
      SpliceAllIsMarked(m, text[..start], s[1..]);
      Associative(Marked(m, text[..start], s[1..]), m.open + text[start..end] + m.close, text[end..]);
    }
  }

  // ---------------------------------------------------------------------------
  // Length of the output

  lemma {:induction false} MarkedLength(m: Markup, text: string, s: seq<ErrorRecord>)
    requires ValidDesc(|text|, s)
    ensures |Marked(m, text, s)| == |text| + |s| * Overhead(m)
    decreases |s|
  {
    if s != [] {
      MarkedLength(m, text[..s[0].offset], s[1..]);
      assert |s| * Overhead(m) == (|s| - 1) * Overhead(m) + Overhead(m);
    }
  }

  /** Wrapping a segment in tags without newlines adds no newline. */
  lemma CountWrapped(m: Markup, inner: string, seg: string, after: string)
    requires '\n' !in m.open && '\n' !in m.close
    ensures Count(inner + (m.open + seg + m.close) + after, '\n') ==
      Count(inner, '\n') + Count(seg, '\n') + Count(after, '\n')
  {
    CountAbsent(m.open, '\n');
    CountAbsent(m.close, '\n');
    CountConcat(m.open, seg, '\n');
    CountConcat(m.open + seg, m.close, '\n');
    CountConcat(inner, m.open + seg + m.close, '\n');
    CountConcat(inner + (m.open + seg + m.close), after, '\n');
  }

  /** Counting in three consecutive pieces of a text. */
  lemma CountThreeParts(text: string, start: nat, end: nat)
    requires start <= end <= |text|
    ensures Count(text, '\n') ==
      Count(text[..start], '\n') + Count(text[start..end], '\n') + Count(text[end..], '\n')
  {
    var before, segment, after := text[..start], text[start..end], text[end..];
    assert text == before + segment + after;
    CountConcat(before, segment, '\n');
    CountConcat(before + segment, after, '\n');
  }

  lemma {:induction false} MarkedNewlines(m: Markup, text: string, s: seq<ErrorRecord>)
    requires ValidDesc(|text|, s) && '\n' !in m.open && '\n' !in m.close
    ensures Count(Marked(m, text, s), '\n') == Count(text, '\n')
    decreases |s|
  {
    if s != [] {
      var start, end := s[0].offset, s[0].offset + s[0].length;
      MarkedNewlines(m, text[..start], s[1..]);
      CountWrapped(m, Marked(m, text[..start], s[1..]), text[start..end], text[end..]);
      CountThreeParts(text, start, end);
    }
  }

  /**
   * For well-formed spans the page gets the text, plus one pair of tags per span,
   * plus three characters per newline (`\n` becomes `<br>`).
   */
  lemma HighlightLength(text: string, s: seq<ErrorRecord>)
    requires ValidDesc(|text|, s) && s != []
    ensures |Highlight(text, s)| == |text| + |s| * Overhead(GrammarError) + 3 * Count(text, '\n')
  {
    GrammarErrorDistinguishable();
    SpliceAllIsMarked(GrammarError, text, s);
    MarkedLength(GrammarError, text, s);
    MarkedNewlines(GrammarError, text, s);
  }

  // ---------------------------------------------------------------------------
  // Removing the markup gives back the text

  /** Deletes the tags of `m` and turns `<br>` back into a newline. */
  function Unmark(m: Markup, h: string): string
    decreases |h|
  {
    if h == [] then []
    else if m.open != [] && StartsWith(h, m.open) then Unmark(m, h[|m.open|..])
    else if m.close != [] && StartsWith(h, m.close) then Unmark(m, h[|m.close|..])
    else if StartsWith(h, LineBreak) then "\n" + Unmark(m, h[|LineBreak|..])
    else [h[0]] + Unmark(m, h[1..])
  }

  lemma NotStartsWithAt(h: string, p: string, k: nat)
    requires k < |p| && k < |h| && h[k] != p[k]
    ensures !StartsWith(h, p)
  {
    if |p| <= |h| { assert h[..|p|][k] == h[k]; }
  }

  lemma UnmarkOpen(m: Markup, rest: string)
    requires Distinguishable(m)
    ensures Unmark(m, m.open + rest) == Unmark(m, rest)
  {
    assert (m.open + rest)[..|m.open|] == m.open;
    assert (m.open + rest)[|m.open|..] == rest;
  }

  lemma UnmarkClose(m: Markup, rest: string)
    requires Distinguishable(m)
    ensures Unmark(m, m.close + rest) == Unmark(m, rest)
  {
    var h := m.close + rest;
    NotStartsWithAt(h, m.open, 1);
    assert h[..|m.close|] == m.close;
    assert h[|m.close|..] == rest;
  }

  lemma UnmarkBreak(m: Markup, rest: string)
    requires Distinguishable(m)
    ensures Unmark(m, LineBreak + rest) == "\n" + Unmark(m, rest)
  {
    var h := LineBreak + rest;
    NotStartsWithAt(h, m.open, 1);
    NotStartsWithAt(h, m.close, 1);
    assert h[..|LineBreak|] == LineBreak;
    assert h[|LineBreak|..] == rest;
  }

  lemma UnmarkChar(m: Markup, c: char, rest: string)
    requires Distinguishable(m) && c != '<'
    ensures Unmark(m, [c] + rest) == [c] + Unmark(m, rest)
  {
    var h := [c] + rest;
    NotStartsWithAt(h, m.open, 0);
    NotStartsWithAt(h, m.close, 0);
    NotStartsWithAt(h, LineBreak, 0);
    assert h[1..] == rest;
  }

  /** Text without `<`, its newlines turned into `<br>`, reads back as itself. */
  lemma {:induction false} UnmarkPlain(m: Markup, t: string, rest: string)
    requires Distinguishable(m) && '<' !in t
    ensures Unmark(m, ReplaceNewlines(t) + rest) == t + Unmark(m, rest)
    decreases |t|
  {
    if t == [] {
      assert ReplaceNewlines(t) + rest == rest;
    } else {
      assert t == [t[0]] + t[1..];
      assert '<' !in t[1..];
      UnmarkPlain(m, t[1..], rest);
      UnmarkPlainStep(m, t[0], t[1..], rest);
    }
  }

  lemma UnmarkPlainStep(m: Markup, c: char, u: string, rest: string)
    requires Distinguishable(m) && c != '<'
    requires Unmark(m, ReplaceNewlines(u) + rest) == u + Unmark(m, rest)
    ensures Unmark(m, ReplaceNewlines([c] + u) + rest) == [c] + u + Unmark(m, rest)
  {
    assert ([c] + u)[0] == c && ([c] + u)[1..] == u;
    Associative(ReplaceChar(c), ReplaceNewlines(u), rest);
    UnmarkReplaced(m, c, ReplaceNewlines(u) + rest);
    Associative([c], u, Unmark(m, rest));
  }

  /** A character other than `<`, after newline replacement, reads back as itself. */
  lemma UnmarkReplaced(m: Markup, c: char, more: string)
    requires Distinguishable(m) && c != '<'
    ensures Unmark(m, ReplaceChar(c) + more) == [c] + Unmark(m, more)
  {
    if c == '\n' {
      UnmarkBreak(m, more);
    } else {
      UnmarkChar(m, c, more);
    }
  }

  /** Text without `<` (newlines left in place) reads back as itself. */
  lemma {:induction false} UnmarkRaw(m: Markup, t: string)
    requires Distinguishable(m) && '<' !in t
    ensures Unmark(m, t) == t
    decreases |t|
  {
    if t != [] {
      assert forall x :: x in t[1..] ==> x in t;
      UnmarkRaw(m, t[1..]);
      UnmarkChar(m, t[0], t[1..]);
      assert t == [t[0]] + t[1..];
    }
  }

  lemma {:induction false} ReplaceNewlinesConcat(a: string, b: string)
    ensures ReplaceNewlines(a + b) == ReplaceNewlines(a) + ReplaceNewlines(b)
    decreases |a|
  {
    if a == [] {
      assert a + b == b;
    } else {
      assert (a + b)[1..] == a[1..] + b;
      ReplaceNewlinesConcat(a[1..], b);
    }
  }

  lemma {:induction false} ReplaceNewlinesAbsent(a: string)
    requires '\n' !in a
    ensures ReplaceNewlines(a) == a
    decreases |a|
  {
    if a != [] {
      assert forall x :: x in a[1..] ==> x in a;
      ReplaceNewlinesAbsent(a[1..]);
      assert a == [a[0]] + a[1..];
    }
  }

  /** The tags hold no newline, so only the segment between them changes. */
  lemma ReplaceNewlinesWrapped(m: Markup, segment: string)
    requires '\n' !in m.open && '\n' !in m.close
    ensures ReplaceNewlines(m.open + segment + m.close) == m.open + ReplaceNewlines(segment) + m.close
  {
    ReplaceNewlinesConcat(m.open + segment, m.close);
    ReplaceNewlinesConcat(m.open, segment);
    ReplaceNewlinesAbsent(m.open);
    ReplaceNewlinesAbsent(m.close);
  }

  /** Regrouping six pieces, a separate step for the same reason as `Associative`. */
  lemma RegroupSix(a: string, o: string, b: string, c: string, f: string, r: string)
    ensures a + (o + b + c) + f + r == a + (o + (b + (c + (f + r))))
  {
    Associative(a, o + b + c, f);
    Associative(a, (o + b + c) + f, r);
    assert (o + b + c) + f + r == o + (b + (c + (f + r)));
  }

  /** `ReplaceNewlines` of one marked span, pulled apart piece by piece. */
  lemma ReplaceNewlinesMarkedStep(m: Markup, inner: string, segment: string, after: string, rest: string)
    requires '\n' !in m.open && '\n' !in m.close
    ensures ReplaceNewlines(inner + (m.open + segment + m.close) + after) + rest ==
            ReplaceNewlines(inner) + (m.open + (ReplaceNewlines(segment) + (m.close + (ReplaceNewlines(after) + rest))))
  {
    var wrapped := m.open + segment + m.close;
    ReplaceNewlinesConcat(inner + wrapped, after);
    ReplaceNewlinesConcat(inner, wrapped);
    ReplaceNewlinesWrapped(m, segment);
    RegroupSix(ReplaceNewlines(inner), m.open, ReplaceNewlines(segment), m.close, ReplaceNewlines(after), rest);
  }

  /** The three pieces of a text around a span hold no character the text does not. */
  lemma ThreePieces(text: string, start: nat, end: nat)
    requires start <= end <= |text|
    ensures text == text[..start] + text[start..end] + text[end..]
    ensures forall x :: x in text[..start] ==> x in text
    ensures forall x :: x in text[start..end] ==> x in text
    ensures forall x :: x in text[end..] ==> x in text
  {
  }

  /** Regrouping four pieces, a separate step for the same reason as `Associative`. */
  lemma Regroup(a: string, b: string, c: string, d: string)
    ensures a + (b + (c + d)) == a + b + c + d
  {
  }

  lemma {:induction false} UnmarkMarked(m: Markup, text: string, s: seq<ErrorRecord>, rest: string)
    requires Distinguishable(m) && ValidDesc(|text|, s) && '<' !in text
    ensures Unmark(m, ReplaceNewlines(Marked(m, text, s)) + rest) == text + Unmark(m, rest)
    decreases |s|
  {
    if s == [] {
      UnmarkPlain(m, text, rest);
    } else {
      var start, end := s[0].offset, s[0].offset + s[0].length;
      var prefix, segment, after := text[..start], text[start..end], text[end..];
      ThreePieces(text, start, end);
      var inner := Marked(m, prefix, s[1..]);
      var r1 := ReplaceNewlines(after) + rest;
      var r2 := m.close + r1;
      var r3 := ReplaceNewlines(segment) + r2;
      var r4 := m.open + r3;
      ReplaceNewlinesMarkedStep(m, inner, segment, after, rest);
      UnmarkMarked(m, prefix, s[1..], r4);
      UnmarkOpen(m, r3);
      UnmarkPlain(m, segment, r2);
      UnmarkClose(m, r1);
      UnmarkPlain(m, after, rest);
      Regroup(prefix, segment, after, Unmark(m, rest));
    }
  }

  /**
   * Deleting the tags from the page and turning `<br>` back into newlines gives
   * the original text, for well-formed spans and a text that holds no `<` of its own.
   */
  lemma HighlightRoundTrip(text: string, s: seq<ErrorRecord>)
    requires ValidDesc(|text|, s) && '<' !in text
    ensures Unmark(GrammarError, Highlight(text, s)) == text
  {
    GrammarErrorDistinguishable();
    if s == [] {
      UnmarkRaw(GrammarError, text);
    } else {
      SpliceAllIsMarked(GrammarError, text, s);
      UnmarkMarked(GrammarError, text, s, []);
      assert ReplaceNewlines(Marked(GrammarError, text, s)) + [] == ReplaceNewlines(Marked(GrammarError, text, s));
      assert text + Unmark(GrammarError, []) == text;
    }
  }

  // ---------------------------------------------------------------------------
  // The output does not depend on the order the spans were given in

  predicate StrictlyDescendingByOffset(s: seq<ErrorRecord>) {
    forall i, j :: 0 <= i < j < |s| ==> s[i].offset > s[j].offset
  }

  /** A descending list of spans with distinct offsets is strictly descending. */
  lemma SortedDistinctIsStrict(s: seq<ErrorRecord>)
    requires DescendingByOffset(s) && DistinctOffsets(multiset(s))
    ensures StrictlyDescendingByOffset(s)
  {
    forall i, j | 0 <= i < j < |s| ensures s[i].offset > s[j].offset {
      assert s[i] in multiset(s) && s[j] in multiset(s);
      if s[i] == s[j] {
        TwoPositions(s, i, j);
      }
    }
  }

  /** A strictly descending list and a descending list of the same spans start with the same span. */
  lemma SortedSameHead(a: seq<ErrorRecord>, b: seq<ErrorRecord>)
    requires StrictlyDescendingByOffset(a) && DescendingByOffset(b)
    requires multiset(a) == multiset(b) && a != [] && b != []
    ensures a[0] == b[0]
  {
    assert a[0] in multiset(b);
    var k :| 0 <= k < |b| && b[k] == a[0];
    assert b[0] in multiset(a);
    var m :| 0 <= m < |a| && a[m] == b[0];
    assert a[0].offset >= a[m].offset && b[0].offset >= b[k].offset;
  }

  lemma HeadTail(a: seq<ErrorRecord>)
    requires a != []
    ensures multiset(a) == multiset{a[0]} + multiset(a[1..])
    ensures DescendingByOffset(a) ==> DescendingByOffset(a[1..])
    ensures StrictlyDescendingByOffset(a) ==> StrictlyDescendingByOffset(a[1..])
  {
    assert a == [a[0]] + a[1..];
  }

  lemma MultisetCancel(x: ErrorRecord, xs: multiset<ErrorRecord>, ys: multiset<ErrorRecord>)
    requires multiset{x} + xs == multiset{x} + ys
    ensures xs == ys
  {
    forall e ensures xs[e] == ys[e] {
      assert (multiset{x} + xs)[e] == (multiset{x} + ys)[e];
    }
  }

  /** Sorting a list whose offsets are distinct has exactly one possible outcome. */
  lemma {:induction false} SortedPermutationUnique(a: seq<ErrorRecord>, b: seq<ErrorRecord>)
    requires StrictlyDescendingByOffset(a) && DescendingByOffset(b)
    requires multiset(a) == multiset(b)
    ensures a == b
    decreases |a|
  {
    assert |multiset(a)| == |a| && |multiset(b)| == |b|;
    if a != [] {
      SortedSameHead(a, b);
      var a', b' := a[1..], b[1..];
      HeadTail(a);
      HeadTail(b);
      MultisetCancel(a[0], multiset(a'), multiset(b'));
      SortedPermutationUnique(a', b');
      assert a == [a[0]] + a';
    }
  }

  /**
   * Two error lists holding the same spans with distinct offsets, in whatever
   * order, are highlighted identically once `render_simple_highlight` has sorted them.
   */
  lemma OrderIndependent(text: string, given1: seq<ErrorRecord>, given2: seq<ErrorRecord>,
                         sorted1: seq<ErrorRecord>, sorted2: seq<ErrorRecord>)
    requires multiset(given1) == multiset(given2) && DistinctOffsets(multiset(given1))
    requires DescendingByOffset(sorted1) && multiset(sorted1) == multiset(given1)
    requires DescendingByOffset(sorted2) && multiset(sorted2) == multiset(given2)
    ensures Highlight(text, sorted1) == Highlight(text, sorted2)
  {
    SortedDistinctIsStrict(sorted1);
    SortedPermutationUnique(sorted1, sorted2);
  }
}

# Essay assessment helper: highlighter, section parser and grammar records in Dafny

This project models the string-processing core of the Streamlit essay-assessment
app, `streamlit_app.py`, and proves properties of that model. It covers three
pieces of the app.

- **The grammar highlighter.** `render_simple_highlight` sorts the grammar
  service's error spans in place, from the highest offset down. It wraps each
  span in `<span class="grammar-error">…</span>` on a working copy of the essay,
  then replaces every newline with `<br>`.
- **The response section parser.** `main` contains this parser inline; here it
  is lifted to `parse(raw, sectionMap)`. It makes one pass over the lines of the
  language model's answer. A cursor points at the section opened last, and each
  section key has an accumulator that only grows by `piece + " "`. A line that
  starts with a section's keyword moves the cursor to that section; any other
  line is appended to the open section. The display clean-ups that `main`
  applies before showing each section, the final evaluation and the
  AI-detection estimate are modelled as well.
- **The record mapping of `check_text`.** Each match reported by the grammar
  service becomes one error record: offset, length, at most three suggestions,
  and the offending slice of the text.

Modules:

- `Text`: the Python `str` operations used, over `seq<char>`. These are `strip`
  (with Python's whitespace set), `lstrip(c)`, `lower`, `startswith`,
  `replace(c, "")`, `split`, and the slices `s[:n]`, `s[n:]`, `s[i:j]` with
  Python's clamping.
- `GrammarCheck`: the match and record types, and the loop that builds the
  records.
- `Highlight`: the highlighter, as follows.
  - The in-place sort is an insertion sort over an `array`. The splice loop is a
    method.
  - `SpliceErrors` is proved equal to `SpliceAll`, which runs the loop over any
    order of spans, and `RenderSimpleHighlight` to `Highlight`. The sort is
    proved to leave a descending permutation of the list. `Marked`, which wraps
    each segment of the original text, is the independent reference the loop is
    compared with.
  - Lemmas relate the two definitions and prove the output's shape, its length
    and the round trip.
- `SectionParser`: the parser, in two forms.
  - A reference definition: `Step`, folded over the lines by `ParseLines`, and
    `Parse` for a whole response.
  - The loops as `main` runs them: `ParseResponse`, `ScanLines`, `ScanLine` and
    `ScanKeywords`, each proved equal to the reference definition.
- `ResultDisplay`: the display functions (`show_section`, the final-evaluation
  and AI-score lines). Each returns the markdown line it would show.

For an empty error list `render_simple_highlight` returns the text unchanged,
with no `<br>` conversion (lines 139-140); `RenderSimpleHighlight`'s first
`ensures` states it.

## Model

| member | source | states |
|---|---|---|
| GrammarCheck.RecordFor | streamlit_app.py:126-131 | what one record must hold: offset and length copied, the first min(3, n) suggestions, and the clamped slice as bad word |
| GrammarCheck.MatchesToErrors | streamlit_app.py:124-132 | one record per match, in match order. Each record copies the offset and length, keeps the first min(3, n) replacement values, and its bad word is the clamped slice `text[offset:offset+length]`, which is the plain slice when the span is in bounds |
| Highlight.RenderSimpleHighlight | streamlit_app.py:137-155 | an empty list gives back the text unchanged. Otherwise the caller's array ends up sorted by descending offset and is a permutation of what it held. The result is `Highlight` of that order, and for well-formed spans it is the text with each segment wrapped once and newlines turned into `<br>` |
| Highlight.SortByOffsetDescending | streamlit_app.py:143 | the array ends up in descending offset order and holds the same multiset of records (stability is not stated) |
| Highlight.Splice | streamlit_app.py:151-153 | wrapping one in-bounds segment adds exactly the two tags' length |
| Highlight.SpliceAll | streamlit_app.py:145-153 | the splice loop as a fold over the spans, in the order given; `SpliceErrors` is proved to compute it |
| Highlight.Marked | streamlit_app.py:145-153 | the independent reference: the original text with each segment wrapped once; `SpliceAllIsMarked` ties the loop to it |
| Highlight.Highlight | streamlit_app.py:139-155 | an empty list gives back the text unchanged; otherwise no newline is left in the output |
| Highlight.InsertDescending | streamlit_app.py:143 | one pass of the sort: a descending prefix of length i becomes one of length i+1 that is a permutation of the old first i+1 records, and the records after position i stay where they are |
| Highlight.SwapAdjacent | streamlit_app.py:143 | the exact new array after exchanging two neighbours; the multiset is unchanged |
| Highlight.SpliceErrors | streamlit_app.py:145-153 | the splice loop over the list in its given order computes `SpliceAll` of that order |
| Highlight.ReplaceChar | streamlit_app.py:155 | the per-character step of `replace("\n", "<br>")`; the body is the definition |
| Highlight.ReplaceNewlines | streamlit_app.py:155 | `replace("\n", "<br>")`: the length grows by 3 per newline and no newline is left |
| Highlight.ReplaceNewlinesConcat | streamlit_app.py:155 | the replacement distributes over concatenation |
| Highlight.ReplaceNewlinesAbsent | streamlit_app.py:155 | text without newlines is left as it is |
| Highlight.GrammarErrorDistinguishable | streamlit_app.py:151 | the two tags hold no newline, start with `<`, and can be told apart from each other and from `<br>` |
| Highlight.SortedWellFormedIsValid | streamlit_app.py:143-153 | after the sort, in-bounds, non-overlapping spans are nested inside one another's prefixes, as the splice loop needs |
| Highlight.ValidDescBound | streamlit_app.py:143-153 | in such an order every span ends inside the text and by the offset of the span before it |
| Highlight.SpliceAllSnoc | streamlit_app.py:146-153 | running the loop over one more span splices that span into the result so far |
| Highlight.SplicePrefixKept | streamlit_app.py:146-153 | when span i comes up, the working string still equals the original text up to that span's end, so the segment it wraps is the reported one |
| Highlight.SpliceAllIsMarked | streamlit_app.py:145-153 | splicing from the highest offset down gives the original text with each segment wrapped once (`Marked`) |
| Highlight.SpliceAllExtend | streamlit_app.py:145-153 | splices inside a prefix do not touch what follows it |
| Highlight.MarkedLength | streamlit_app.py:151-153 | the wrapped text is longer by the two tags' length per span |
| Highlight.MarkedNewlines | streamlit_app.py:151-155 | wrapping neither adds nor removes newlines |
| Highlight.HighlightLength | streamlit_app.py:145-155 | output length = \|text\| + n·(\|open\|+\|close\|) + 3·(newlines in text) |
| Highlight.UnmarkMarked | streamlit_app.py:145-155 | removing the tags and turning `<br>` back into newlines undoes wrapping plus newline replacement, for text without `<` |
| Highlight.HighlightRoundTrip | streamlit_app.py:145-155 | the highlighter's output, with tags removed and `<br>` mapped back, is the original text |
| Highlight.UnmarkPlain | streamlit_app.py:155 | plain text with its newlines replaced reads back as itself |
| Highlight.UnmarkRaw | streamlit_app.py:139-140 | text without `<` reads back as itself (the empty-list path) |
| Highlight.SortedPermutationUnique | streamlit_app.py:143 | two descending orders of the same multiset are equal when the offsets are distinct |
| Highlight.OrderIndependent | streamlit_app.py:143-155 | for spans with distinct offsets, the output does not depend on the order in which they were given |
| SectionParser.NormalizeLine | streamlit_app.py:321 | the normalised line holds none of `*`, `-`, `#` |
| SectionParser.MatchesAny | streamlit_app.py:322-323 | a section matches iff some keyword, lower-cased, is a prefix of the normalised line |
| SectionParser.Matches | streamlit_app.py:322-323 | `any(norm.startswith(kw.lower()) for kw in keywords)`, characterised by `MatchesAny` |
| SectionParser.LabelLineMatches | streamlit_app.py:316-323 | a line made of markers and whitespace, then a trimmed, non-empty, marker-free keyword, then anything at all, matches that keyword's section (so `- Task Response: …` and `**Task Response:** …` do) |
| SectionParser.UnmarkLabel | streamlit_app.py:316-321 | stripping such a line and removing its markers leaves the keyword at the front, followed by what came after it |
| SectionParser.LeadingKeywordMatches | streamlit_app.py:322-323 | a stripped line that starts with a trimmed keyword matches that keyword's section |
| SectionParser.CleanLabel | streamlit_app.py:316-321 | removing the markers from a stripped label line leaves whitespace, the keyword and the rest |
| SectionParser.EnglishAssessmentKeywordsAreLabels | streamlit_app.py:300-304 | the English keywords of the five assessment sections are trimmed, non-empty and marker-free |
| SectionParser.EnglishClosingKeywordsAreLabels | streamlit_app.py:305-306 | so are the English keywords of the final evaluation and the AI estimate |
| SectionParser.VietnameseAssessmentKeywordsAreLabels | streamlit_app.py:300-304 | the Vietnamese keywords of the five assessment sections are trimmed, non-empty and marker-free |
| SectionParser.VietnameseClosingKeywordsAreLabels | streamlit_app.py:305-306 | so are the Vietnamese keywords of the final evaluation and the AI estimate |
| SectionParser.DefaultKeywordIsLabel | streamlit_app.py:299-307 | every keyword of the default map, in either language, can be written as a label |
| SectionParser.DefaultLabelOpensSection | streamlit_app.py:299-331 | with the default map, a label line for section k, in either language and however decorated, opens a section, and that section is k or an earlier one |
| SectionParser.FirstHeadingFrom | streamlit_app.py:319-331 | the section loop from position k on, stopping at the first match; characterised by `FirstHeadingFromSpec` |
| SectionParser.FirstHeading | streamlit_app.py:319-331 | the section loop over the whole map: a found section has a matching keyword; characterised by `FirstHeadingSpec` |
| SectionParser.FirstHeadingFromSpec | streamlit_app.py:319-331 | the search from section k returns the first matching section at or after k, and none iff no section from k on matches |
| SectionParser.FirstHeadingSpec | streamlit_app.py:319-331 | the heading a line opens is the first section in map order with a matching keyword, and there is none iff no section matches |
| SectionParser.FirstHeadingIs | streamlit_app.py:319-331 | a matching section with no match before it is the one found |
| SectionParser.HeadingContent | streamlit_app.py:325-327 | a line without `:` carries no content, and the content is always stripped |
| SectionParser.HeadingContentAfterColon | streamlit_app.py:327 | the content is `clean_line.split(':', 1)[1].strip()`, with `split` defined independently |
| SectionParser.Initial | streamlit_app.py:309-310 | the accumulator holds exactly the map's keys, each `""`, and no section is open |
| SectionParser.IsOpen | streamlit_app.py:333 | the truthiness of `current_section`: set and not the empty key; the body is the definition |
| SectionParser.Append | streamlit_app.py:329 | `parsed[key] += piece + " "`: that key gains exactly `piece + " "`, the key set and every other key's value are unchanged, and so every value only grows (`Grows`) |
| SectionParser.OpenSection | streamlit_app.py:324-329 | the cursor moves to the key, the key set is kept, the key gains `content + " "` only when the content is non-empty, every other value is unchanged, and values only grow |
| SectionParser.AppendShaped | streamlit_app.py:329 | appending a stripped, non-empty piece keeps a value shaped: empty, or starting with a non-space and ending in one space after a non-space |
| SectionParser.AppendAllShaped | streamlit_app.py:329 | the same, for the whole accumulator |
| SectionParser.Step | streamlit_app.py:315-334 | one turn of the line loop keeps the key set and only appends to values (`Grows`) |
| SectionParser.StepOk | streamlit_app.py:315-334 | one line keeps the key set, and the cursor always names a key |
| SectionParser.StepShaped | streamlit_app.py:315-334 | one line keeps every value shaped |
| SectionParser.ParseLines | streamlit_app.py:315-334 | the scan keeps the key set and the value shape, and every value only grows |
| SectionParser.Parse | streamlit_app.py:309-334 | the result has exactly the map's keys, and every value is `""` or starts with a non-space and ends in one space after a non-space |
| SectionParser.ParseResponse | streamlit_app.py:309-334 | the parsing code of `main` computes `Parse` |
| SectionParser.ScanLines | streamlit_app.py:309-334 | the loop over the lines computes the fold of `Step` from the initial state |
| SectionParser.ParseLinesUnfold | streamlit_app.py:315 | one turn of the line loop: the rest of the scan after line n |
| SectionParser.ScanLine | streamlit_app.py:316-334 | the body of the line loop, with its two nested loops and `break`s, computes `Step` |
| SectionParser.ScanKeywords | streamlit_app.py:322-330 | the keyword loop of one section reports a match exactly when `Matches` holds, and then opens the section with the line's content |
| SectionParser.StepBlank | streamlit_app.py:316-317 | a line that strips to nothing changes nothing |
| SectionParser.StepHeading | streamlit_app.py:319-331 | a heading line opens the first matching section |
| SectionParser.StepNoHeading | streamlit_app.py:333-334 | a non-heading line is appended to the open section, or dropped when none is open |
| SectionParser.HeadingLine | streamlit_app.py:319-331 | a line matching section i and no earlier section moves the cursor to i. Its content after the first `:` is appended to i alone, and only when non-empty; every other section is unchanged |
| SectionParser.ContinuationLine | streamlit_app.py:333-334 | a non-blank line matching no section appends exactly `line.strip() + " "` to the open section and changes nothing else; with no section open, nothing changes |
| SectionParser.ParseLinesAppend | streamlit_app.py:315 | scanning `a + b` is scanning `a`, then `b` from there |
| SectionParser.SplitAround | streamlit_app.py:312 | the lines of `a + "\n" + m + "\n" + b` are the lines of `a`, then `m`, then the lines of `b` |
| SectionParser.BlankLineIgnored | streamlit_app.py:312-317 | inserting a whitespace-only line anywhere in a response leaves the parse unchanged |
| SectionParser.NoHeadingsKeepState | streamlit_app.py:333 | before any section is open, non-heading lines change nothing |
| SectionParser.PreambleDropped | streamlit_app.py:310-334 | lines before the first heading are dropped: parsing `preamble + "\n" + rest` equals parsing `rest` |
| Text.TrimStart | streamlit_app.py:316 | `lstrip()` removes exactly a leading whitespace run and leaves a non-space first character |
| Text.TrimEnd | streamlit_app.py:316 | `rstrip()` removes exactly a trailing whitespace run and leaves a non-space last character |
| Text.Trim | streamlit_app.py:316 | `strip()` gives a stripped string, empty iff the input is all whitespace, and leaves stripped input unchanged |
| Text.TrimKeepsChars | streamlit_app.py:321 | stripping introduces no character |
| Text.TrimKeepsLeadingWord | streamlit_app.py:316-323 | a line starting with a stripped word still starts with it after `strip()` |
| Text.TrimDropsSpace | streamlit_app.py:316 | leading whitespace makes no difference to `strip()` |
| Text.TrimStartSpace | streamlit_app.py:316 | `lstrip()` skips a leading whitespace run whatever follows it |
| Text.TrimSlice | streamlit_app.py:316 | `strip()` keeps one slice of the string and cuts only whitespace before and after it |
| Text.TrimBounds | streamlit_app.py:316 | the slice `strip()` keeps of a string holding a stripped word starts before the word and ends after it |
| Text.TrimAroundWord | streamlit_app.py:316 | stripping a string that holds a stripped, non-empty word cuts only before and after that word |
| Text.WordSlice | streamlit_app.py:316 | a slice of `pre + word + rest` covering the word is a suffix of `pre`, the word, and a prefix of `rest` |
| Text.RemoveChars | streamlit_app.py:321 | `replace(c, '')` for each marker: never longer, and marker-free text is unchanged |
| Text.RemoveCharsMembers | streamlit_app.py:321 | nothing removed survives and nothing new appears |
| Text.RemoveCharsConcat | streamlit_app.py:321 | the removal works piece by piece over concatenation |
| Text.Lower | streamlit_app.py:321-323 | `lower()` keeps the length |
| Text.LowerKeepsBelowCapitals | streamlit_app.py:321 | lower-casing neither creates nor removes punctuation such as the markers |
| Text.LowerPrefix | streamlit_app.py:323 | lower-casing commutes with taking a prefix, which `startswith(kw.lower())` relies on |
| Text.LStripChar | streamlit_app.py:340 | `lstrip(c)` removes exactly a leading run of `c` |
| Text.IndexOf | streamlit_app.py:325-327 | the first occurrence of a character |
| Text.Split | streamlit_app.py:312 | `split('\n')` gives at least one piece |
| Text.SplitPieces | streamlit_app.py:312 | the pieces hold no separator, and joining them with it gives back the string |
| Text.SplitConcat | streamlit_app.py:312 | splitting `a + sep + b` splits `a` and `b` separately |
| Text.SplitNone | streamlit_app.py:312 | a string without the separator is one piece |
| Text.SplitJoin | streamlit_app.py:312 | splitting inverts joining on separator-free pieces |
| Text.SplitAfterFirst | streamlit_app.py:327 | `split(sep, 1)[1]` is everything after the first separator |
| Text.Take | streamlit_app.py:153 | `s[:n]` for n ≥ 0, clamped to the string; the body is the definition |
| Text.Drop | streamlit_app.py:153 | `s[n:]` for n ≥ 0, empty past the end; the body is the definition |
| Text.Slice | streamlit_app.py:131 | `s[i:j]` for 0 ≤ i, j, clamped to the string; characterised by `SliceClamped` |
| Text.SliceClamped | streamlit_app.py:149 | the slice cuts both bounds down to the length and is empty unless the lower bound is at most the upper, as Python's `s[i:j]` does |
| Text.StartsWith | streamlit_app.py:323 | `s.startswith(p)`; the body is the definition |
| Text.IsSpace | streamlit_app.py:316 | the code points `str.isspace` accepts, which `strip()` removes; the body is the definition |
| Text.LowerChar | streamlit_app.py:321-323 | the per-character step of `lower()`: a capital it knows becomes a higher code point, anything else stays |
| Text.CountConcat | streamlit_app.py:155 | newline counts add up over concatenation |
| ResultDisplay.Get | streamlit_app.py:338 | `parsed_data.get(key, "")`, also used at lines 358-359; the body is the definition |
| ResultDisplay.CleanSection | streamlit_app.py:338-340 | the cleaned section is stripped and no longer than the input |
| ResultDisplay.ShowSection | streamlit_app.py:337-342 | a line is shown iff the cleaned content is non-empty, and never for a missing key |
| ResultDisplay.SectionTitlesFollowMap | streamlit_app.py:344-355 | in either language the five `show_section` calls name the first five keys of the section map, in its order |
| ResultDisplay.ShowSections | streamlit_app.py:344-355 | at most one line per section title |
| ResultDisplay.NothingShown | streamlit_app.py:337-355 | when every section cleans to nothing, no line is shown |
| ResultDisplay.TrimShaped | streamlit_app.py:338 | stripping a value the parser built drops exactly its closing space |
| ResultDisplay.ShownSection | streamlit_app.py:337-342 | a parsed section not starting with `*` or `-` is shown as exactly its accumulated pieces without the closing space |
| ResultDisplay.CleanLabelled | streamlit_app.py:364 | the clean-up of the final evaluation and AI estimate gives a stripped string |
| ResultDisplay.FinalEvaluation | streamlit_app.py:358-365 | the final evaluation is shown iff its value is not all whitespace |
| ResultDisplay.ShownFinalEvaluation | streamlit_app.py:358-365 | a parsed final evaluation not starting with `*` or `:` is shown as exactly its pieces without the closing space |
| ResultDisplay.AiScore | streamlit_app.py:359-370 | the AI box is shown iff it was asked for and the value is not all whitespace |

## Left out

- The HTTP request to the grammar service is not modelled: `requests.post`, `raise_for_status`, `.json()`, the 30-second timeout, and the catch-all `except` that returns `[]`. Only the mapping loop is modelled, over already-decoded matches.
- The Streamlit page is not modelled: layout, widgets, session state, spinners, tables and the `st.markdown` calls. The display functions return the markdown line instead of rendering it.
- The language-model client, the prompt templates and the chain invocation are foreign library calls. So are `st.secrets` and the sample text banks.
- The `print(lines)` debug output of the parser is left out.
- Lower: Python's `lower()` covers all of Unicode. The model lower-cases only ASCII, the Latin-1 capitals, Ă Đ Ĩ Ũ Ơ Ư, and U+1EA0 to U+1EF8, which covers the capitals of Vietnamese. Other capitals are left as they are.
- Strings are sequences of Unicode scalar values, so lone surrogates, which a Python `str` can hold, are not modelled.
- RenderSimpleHighlight: for spans that are out of bounds, empty, overlapping or repeated, the result is only identified with the clamped-slice loop (`Highlight`). The shape, length and round-trip lemmas assume in-bounds, non-empty, non-overlapping spans.
- SortByOffsetDescending: does not state that records with equal offsets keep their original relative order, as Python's stable sort does. Order independence is proved only for distinct offsets.
- HighlightRoundTrip: requires text without `<`, because the source does not escape HTML in the essay.
- ShowSections: states only that at most one line is shown per title. Each line is described by `ShowSection`, and the empty case by `NothingShown`.
- The section map is a sequence of pairs, so a key could repeat, which a Python dictionary rules out. The first entry for a key wins the heading search.
- Offsets and lengths are natural numbers. Negative values from the service, which Python would slice from the end, are not modelled.
- DefaultLabelOpensSection: states that a label line opens its own section or an earlier one. In the default map no keyword, lower-cased, starts with an earlier section's keyword, so the section is always exactly its own; that comparison of the concrete strings is not proved.

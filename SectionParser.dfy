/**
 * The response section parser written inline in `main`: a single pass over the
 * lines of the model's answer, with a cursor on the section opened last and an
 * accumulator per section key that only ever grows by `piece + " "`.
 *
 * `Step`, `ParseLines` and `Parse` are the reference definition; `ParseResponse`
 * is the loop as the application runs it and is proved equal to `Parse`.
 */
module SectionParser {
  import opened Wrappers
  import opened Text

  /** A section key with its keywords, in the dictionary's insertion order. */
  type SectionMap = seq<(string, seq<string>)>

  /** The bilingual keyword map `main` builds. */
  const DefaultSectionMap: SectionMap := [
    ("Task Response", ["Task Response", "Phản hồi yêu cầu"]),
    ("Information Accuracy", ["Information Accuracy", "Độ chính xác thông tin"]),
    ("Idea Development", ["Idea Development", "Phát triển ý tưởng"]),
    ("Coherence", ["Coherence", "Sự mạch lạc"]),
    ("Summary", ["Summary", "Kết luận"]),
    ("Final Evaluation", ["Final Evaluation", "Đánh giá tổng quan"]),
    ("AI Plagiarism", ["AI Plagiarism", "Phát hiện AI"])
  ]

  function Keys(sm: SectionMap): set<string> {
    set p | p in sm :: p.0
  }

  /** The characters removed before comparing a line with the keywords. */
  const Markers: set<char> := {'*', '-', '#'}

  /** `clean_line.replace('*', '').replace('-', '').replace('#', '').strip().lower()`. */
  function NormalizeLine(clean: string): (r: string)
    ensures forall c :: c in Markers ==> c !in r
  {
    var stripped := Trim(RemoveChars(clean, Markers));
    RemoveCharsMembers(clean, Markers);
    TrimKeepsChars(RemoveChars(clean, Markers));
    LowerKeepsBelowCapitals(stripped);
    Lower(stripped)
  }

  /** Some keyword of the section, lower-cased, is a prefix of the normalised line. */
  predicate Matches(norm: string, keywords: seq<string>)
    decreases |keywords|
  {
    keywords != [] && (StartsWith(norm, Lower(keywords[0])) || Matches(norm, keywords[1..]))
  }

  /** `Matches` is `any(norm.startswith(kw.lower()) for kw in keywords)`. */
  lemma {:induction false} MatchesAny(norm: string, keywords: seq<string>)
    ensures Matches(norm, keywords) <==> exists kw :: kw in keywords && StartsWith(norm, Lower(kw))
    decreases |keywords|
  {
    if keywords != [] {
      MatchesAny(norm, keywords[1..]);
      if exists kw :: kw in keywords && StartsWith(norm, Lower(kw)) {
        var kw :| kw in keywords && StartsWith(norm, Lower(kw));
        if kw != keywords[0] {
          assert kw in keywords[1..];
        }
      }
    }
  }

  /** A keyword that can be written as a label: trimmed, non-empty, and free of markers. */
  predicate LabelKeyword(kw: string) {
    IsTrimmed(kw) && kw != [] && forall c :: c in Markers ==> c !in kw
  }

  /**
   * A line written as markers and whitespace (`- `, `**`, `### `), then one of the
   * section's keywords, then anything at all matches that section: the labels the
   * prompt asks for are recognised however they are decorated.
   */
  lemma LabelLineMatches(keywords: seq<string>, i: nat, pre: string, rest: string)
    requires i < |keywords| && LabelKeyword(keywords[i])
    requires forall c :: c in pre ==> c in Markers || IsSpace(c)
    ensures Matches(NormalizeLine(Trim(pre + keywords[i] + rest)), keywords)
  {
    var clean := Trim(pre + keywords[i] + rest);
    var tail := UnmarkLabel(pre, keywords[i], rest);
    assert NormalizeLine(clean) == Lower(Trim(RemoveChars(clean, Markers)));
    LeadingKeywordMatches(keywords, i, tail);
  }

  /** Removing the markers from a label line and stripping it leaves the keyword followed by what came after it. */
  lemma UnmarkLabel(pre: string, kw: string, rest: string) returns (tail: string)
    requires LabelKeyword(kw)
    requires forall c :: c in pre ==> c in Markers || IsSpace(c)
    ensures Trim(RemoveChars(Trim(pre + kw + rest), Markers)) == Trim(kw + tail)
  {
    var space;
    space, tail := CleanLabel(pre, kw, rest);
    TrimDropsSpace(space, kw, tail);
  }

  /** A line that starts with one of the keywords matches. */
  lemma LeadingKeywordMatches(keywords: seq<string>, i: nat, tail: string)
    requires i < |keywords| && LabelKeyword(keywords[i])
    ensures Matches(Lower(Trim(keywords[i] + tail)), keywords)
  {
    var kw := keywords[i];
    var stripped := Trim(kw + tail);
    TrimKeepsLeadingWord(kw, tail);
    LowerPrefix(stripped, |kw|);
    MatchesAny(Lower(stripped), keywords);
    assert kw in keywords;
  }

  /** Removing the markers from a stripped label line leaves whitespace, the keyword, and what followed it. */
  lemma CleanLabel(pre: string, kw: string, rest: string) returns (space: string, tail: string)
    requires LabelKeyword(kw)
    requires forall c :: c in pre ==> c in Markers || IsSpace(c)
    ensures AllSpace(space)
    ensures RemoveChars(Trim(pre + kw + rest), Markers) == space + kw + tail
  {
    var j, k := TrimAroundWord(pre, kw, rest);
    space := RemoveChars(pre[j..], Markers);
    tail := RemoveChars(rest[..k], Markers);
    RemoveCharsConcat(pre[j..] + kw, rest[..k], Markers);
    RemoveCharsConcat(pre[j..], kw, Markers);
    assert RemoveChars(kw, Markers) == kw;
    RemoveCharsMembers(pre[j..], Markers);
    forall n | 0 <= n < |space| ensures IsSpace(space[n]) {
      assert space[n] in space;
      assert space[n] in pre[j..];
      assert space[n] in pre;
    }
  }

  /** The English keyword of each of the five assessment sections of the default map can be written as a label. */
  lemma EnglishAssessmentKeywordsAreLabels()
    ensures forall k :: 0 <= k < 5 ==> LabelKeyword(DefaultSectionMap[k].1[0])
  {
  }

  /** So can the English keyword of the final evaluation and of the AI estimate. */
  lemma EnglishClosingKeywordsAreLabels()
    ensures forall k :: 5 <= k < |DefaultSectionMap| ==> LabelKeyword(DefaultSectionMap[k].1[0])
  {
  }

  /** The Vietnamese keyword of each of the five assessment sections can be written as a label. */
  lemma VietnameseAssessmentKeywordsAreLabels()
    ensures forall k :: 0 <= k < 5 ==> LabelKeyword(DefaultSectionMap[k].1[1])
  {
  }

  /** So can the Vietnamese keyword of the final evaluation and of the AI estimate. */
  lemma VietnameseClosingKeywordsAreLabels()
    ensures forall k :: 5 <= k < |DefaultSectionMap| ==> LabelKeyword(DefaultSectionMap[k].1[1])
  {
  }

  /** Every keyword of the default map can be written as a label. */
  lemma DefaultKeywordIsLabel(k: nat, n: nat)
    requires k < |DefaultSectionMap| && n < |DefaultSectionMap[k].1|
    ensures LabelKeyword(DefaultSectionMap[k].1[n])
  {
    assert |DefaultSectionMap[k].1| == 2;
    if n == 0 {
      EnglishAssessmentKeywordsAreLabels();
      EnglishClosingKeywordsAreLabels();
    } else {
      VietnameseAssessmentKeywordsAreLabels();
      VietnameseClosingKeywordsAreLabels();
    }
  }

  /**
   * With the default map, a label line for section `k`, in either language and
   * however decorated, opens section `k` or an earlier one.
   */
  lemma DefaultLabelOpensSection(k: nat, n: nat, pre: string, rest: string)
    requires k < |DefaultSectionMap| && n < |DefaultSectionMap[k].1|
    requires forall c :: c in pre ==> c in Markers || IsSpace(c)
    ensures var r := FirstHeading(DefaultSectionMap, NormalizeLine(Trim(pre + DefaultSectionMap[k].1[n] + rest)));
      r.Some? && r.value <= k
  {
    var norm := NormalizeLine(Trim(pre + DefaultSectionMap[k].1[n] + rest));
    DefaultKeywordIsLabel(k, n);
    LabelLineMatches(DefaultSectionMap[k].1, n, pre, rest);
    FirstHeadingSpec(DefaultSectionMap, norm);
  }

  /** The first section, from position `k` on, one of whose keywords the line starts with. */
  function FirstHeadingFrom(sm: SectionMap, norm: string, k: nat): (r: Option<nat>)
    requires k <= |sm|
    ensures r.Some? ==> k <= r.value < |sm|
    decreases |sm| - k
  {
    if k == |sm| then None
    else if Matches(norm, sm[k].1) then Some(k)
    else FirstHeadingFrom(sm, norm, k + 1)
  }

  /** The position of the section a normalised line opens, if any. */
  function FirstHeading(sm: SectionMap, norm: string): (r: Option<nat>)
    ensures r.Some? ==> r.value < |sm|
  {
    FirstHeadingFrom(sm, norm, 0)
  }

  lemma {:induction false} FirstHeadingFromSpec(sm: SectionMap, norm: string, k: nat)
    requires k <= |sm|
    ensures var r := FirstHeadingFrom(sm, norm, k);
      (r.Some? ==> Matches(norm, sm[r.value].1) && forall j :: k <= j < r.value ==> !Matches(norm, sm[j].1)) &&
      (r.None? <==> forall j :: k <= j < |sm| ==> !Matches(norm, sm[j].1))
    decreases |sm| - k
  {
    if k < |sm| && !Matches(norm, sm[k].1) {
      FirstHeadingFromSpec(sm, norm, k + 1);
    }
  }

  /**
   * A line opens the first section in map order that has a keyword it starts with:
   * `FirstHeading` finds a section exactly when one matches, and none before it does.
   */
  lemma FirstHeadingSpec(sm: SectionMap, norm: string)
    ensures var r := FirstHeading(sm, norm);
      (r.Some? ==> Matches(norm, sm[r.value].1) && forall j :: 0 <= j < r.value ==> !Matches(norm, sm[j].1)) &&
      (r.None? <==> forall j :: 0 <= j < |sm| ==> !Matches(norm, sm[j].1))
  {
    FirstHeadingFromSpec(sm, norm, 0);
  }

  /** The content a heading line carries: the trimmed text after its first `:`, or nothing. */
  function HeadingContent(clean: string): (r: string)
    ensures ':' !in clean ==> r == []
    ensures IsTrimmed(r)
  {
    if ':' in clean then Trim(clean[IndexOf(clean, ':') + 1..]) else []
  }

  /** The content is Python's `clean.split(':', 1)[1].strip()`: the rest after the first colon, trimmed. */
  lemma HeadingContentAfterColon(clean: string)
    requires ':' in clean
    ensures |Split(clean, ':')| >= 2
    ensures HeadingContent(clean) == Trim(Join(Split(clean, ':')[1..], ':'))
  {
    SplitAfterFirst(clean, ':');
    var after := clean[IndexOf(clean, ':') + 1..];
    assert Join(Split(clean, ':')[1..], ':') == after;
  }

  /** The parser's variables: `parsed_data` and `current_section`. */
  datatype ParserState = ParserState(parsed: map<string, string>, current: Option<string>)

  /** The accumulator holds exactly the map's keys and the cursor, once set, names one of them. */
  predicate StateOk(sm: SectionMap, st: ParserState) {
    st.parsed.Keys == Keys(sm) && (st.current.Some? ==> st.current.value in Keys(sm))
  }

  /** `parsed_data = {k: "" for k in section_map}` with `current_section = None`. */
  function Initial(sm: SectionMap): (st: ParserState)
    ensures StateOk(sm, st)
    ensures forall k :: k in st.parsed ==> st.parsed[k] == []
    ensures !IsOpen(st.current)
  {
    ParserState(map k | k in Keys(sm) :: "", None)
  }

  /** `if ... and current_section`: a cursor on the empty key is as good as none. */
  predicate IsOpen(current: Option<string>) {
    current.Some? && current.value != []
  }

  /** `parsed[key] += piece + " "`. */
  function Append(parsed: map<string, string>, key: string, piece: string): (r: map<string, string>)
    requires key in parsed
    ensures r.Keys == parsed.Keys
    ensures r[key] == parsed[key] + piece + " "
    ensures forall k :: k in parsed && k != key ==> r[k] == parsed[k]
    ensures Grows(parsed, r)
  {
    parsed[key := parsed[key] + piece + " "]
  }

  /** An accumulated value: empty, or starting with a non-space and ending in one space after a non-space. */
  predicate Shaped(v: string) {
    v == [] || (|v| >= 2 && v[|v| - 1] == ' ' && !IsSpace(v[|v| - 2]) && !IsSpace(v[0]))
  }

  predicate AllShaped(parsed: map<string, string>) {
    forall k :: k in parsed ==> Shaped(parsed[k])
  }

  /** Appending a trimmed, non-empty piece keeps a value shaped. */
  lemma AppendShaped(v: string, piece: string)
    requires Shaped(v) && IsTrimmed(piece) && piece != []
    ensures Shaped(v + piece + " ")
  {
    var w := v + piece + " ";
    assert w[|w| - 2] == piece[|piece| - 1];
    if v == [] {
      assert w[0] == piece[0];
    } else {
      assert w[0] == v[0];
    }
  }

  /** The accumulators only grow: every value of `before` is a prefix of the same key's value in `after`. */
  predicate Grows(before: map<string, string>, after: map<string, string>) {
    after.Keys == before.Keys && forall k :: k in before ==> before[k] <= after[k]
  }

  /** A heading line: the cursor moves to `key`, which receives the line's content if it has any. */
  function OpenSection(st: ParserState, key: string, content: string): (r: ParserState)
    requires key in st.parsed
    ensures r.current == Some(key)
    ensures r.parsed.Keys == st.parsed.Keys
    ensures r.parsed[key] == if content == [] then st.parsed[key] else st.parsed[key] + content + " "
    ensures forall k :: k in st.parsed && k != key ==> r.parsed[k] == st.parsed[k]
    ensures Grows(st.parsed, r.parsed)
  {
    ParserState(if content != [] then Append(st.parsed, key, content) else st.parsed, Some(key))
  }

  /** One line of the scan: it only ever appends to one accumulator. */
  function Step(sm: SectionMap, st: ParserState, line: string): (r: ParserState)
    requires StateOk(sm, st)
    ensures Grows(st.parsed, r.parsed)
  {
    var clean := Trim(line);
    if clean == [] then st
    else
      match FirstHeading(sm, NormalizeLine(clean))
      case Some(i) =>
        assert sm[i] in sm;
        OpenSection(st, sm[i].0, HeadingContent(clean))
      case None =>
        if IsOpen(st.current) then ParserState(Append(st.parsed, st.current.value, clean), st.current)
        else st
  }

  /** A step keeps the accumulator's keys and leaves the cursor on one of them. */
  lemma StepOk(sm: SectionMap, st: ParserState, line: string)
    requires StateOk(sm, st)
    ensures StateOk(sm, Step(sm, st, line))
  {
    var clean := Trim(line);
    if clean == [] {
      StepBlank(sm, st, line);
    } else {
      var found := FirstHeading(sm, NormalizeLine(clean));
      if found.Some? {
        StepHeading(sm, st, line, found.value);
      } else {
        StepNoHeading(sm, st, line);
      }
    }
  }

  /** Appending a trimmed, non-empty piece to one key keeps every value shaped. */
  lemma AppendAllShaped(parsed: map<string, string>, key: string, piece: string)
    requires AllShaped(parsed) && key in parsed && IsTrimmed(piece) && piece != []
    ensures AllShaped(Append(parsed, key, piece))
  {
    AppendShaped(parsed[key], piece);
  }

  /** Every append is a trimmed, non-empty piece followed by one space. */
  lemma StepShaped(sm: SectionMap, st: ParserState, line: string)
    requires StateOk(sm, st)
    ensures AllShaped(st.parsed) ==> AllShaped(Step(sm, st, line).parsed)
  {
    if AllShaped(st.parsed) {
      var clean := Trim(line);
      if clean == [] {
        StepBlank(sm, st, line);
      } else {
        var found := FirstHeading(sm, NormalizeLine(clean));
        if found.Some? {
          var k := found.value;
          StepHeading(sm, st, line, k);
          var content := HeadingContent(clean);
          if content != [] {
            AppendAllShaped(st.parsed, sm[k].0, content);
          }
        } else {
          StepNoHeading(sm, st, line);
          if IsOpen(st.current) {
            AppendAllShaped(st.parsed, st.current.value, clean);
          }
        }
      }
    }
  }

  /** The scan over a sequence of lines, from the state `st`. */
  function ParseLines(sm: SectionMap, st: ParserState, lines: seq<string>): (r: ParserState)
    requires StateOk(sm, st)
    ensures StateOk(sm, r)
    ensures AllShaped(st.parsed) ==> AllShaped(r.parsed)
    ensures Grows(st.parsed, r.parsed)
    decreases |lines|
  {
    if lines == [] then st
    else
      StepOk(sm, st, lines[0]);
      StepShaped(sm, st, lines[0]);
      ParseLines(sm, Step(sm, st, lines[0]), lines[1..])
  }

  /**
   * `parse(raw, section_map)`: the result holds exactly the map's keys, and every
   * value is empty or a run of trimmed pieces each closed by one space.
   */
  function Parse(raw: string, sm: SectionMap): (parsed: map<string, string>)
    ensures parsed.Keys == Keys(sm)
    ensures AllShaped(parsed)
  {
    ParseLines(sm, Initial(sm), Split(raw, '\n')).parsed
  }

  // ---------------------------------------------------------------------------
  // The loop as `main` runs it

  /** The parsing step of `main`: split the response into lines and scan them. */
  method ParseResponse(raw: string, sectionMap: SectionMap) returns (parsed: map<string, string>)
    ensures parsed == Parse(raw, sectionMap)
  {
    parsed := ScanLines(sectionMap, Split(raw, '\n'));
  }

  /** The loop over the lines: one pass, each line handled as `ScanLine` describes. */
  method ScanLines(sectionMap: SectionMap, lines: seq<string>) returns (parsed: map<string, string>)
    ensures parsed == ParseLines(sectionMap, Initial(sectionMap), lines).parsed
  {
    parsed := map k | k in Keys(sectionMap) :: "";
    var current: Option<string> := None;
    for n := 0 to |lines|
      invariant StateOk(sectionMap, ParserState(parsed, current))
      invariant ParseLines(sectionMap, ParserState(parsed, current), lines[n..]) ==
                ParseLines(sectionMap, Initial(sectionMap), lines)
    {
      ParseLinesUnfold(sectionMap, ParserState(parsed, current), lines, n);
      parsed, current := ScanLine(sectionMap, parsed, current, lines[n]);
    }
    assert lines[|lines|..] == [];
  }

  lemma ParseLinesUnfold(sm: SectionMap, st: ParserState, lines: seq<string>, n: nat)
    requires StateOk(sm, st) && n < |lines|
    ensures StateOk(sm, Step(sm, st, lines[n]))
    ensures ParseLines(sm, st, lines[n..]) == ParseLines(sm, Step(sm, st, lines[n]), lines[n + 1..])
  {
    StepOk(sm, st, lines[n]);
    assert lines[n..][0] == lines[n] && lines[n..][1..] == lines[n + 1..];
  }

  /**
   * The body of the loop over the lines: skip a blank line; otherwise look through
   * the sections and their keywords, leaving both loops at the first keyword the
   * normalised line starts with; failing that, append the line to the open section.
   */
  method ScanLine(sectionMap: SectionMap, parsed: map<string, string>, current: Option<string>, line: string)
    returns (parsed': map<string, string>, current': Option<string>)
    requires StateOk(sectionMap, ParserState(parsed, current))
    ensures ParserState(parsed', current') == Step(sectionMap, ParserState(parsed, current), line)
  {
    parsed', current' := parsed, current;
    var cleanLine := Trim(line);
    if cleanLine == [] {
      StepBlank(sectionMap, ParserState(parsed, current), line);
      return;
    }
    var isNewSection := false;
    var k := 0;
    while k < |sectionMap|
      invariant k <= |sectionMap| && !isNewSection
      invariant parsed' == parsed && current' == current
      invariant FirstHeadingFrom(sectionMap, NormalizeLine(cleanLine), k) ==
                FirstHeading(sectionMap, NormalizeLine(cleanLine))
    {
      var normLine := NormalizeLine(cleanLine);
      assert sectionMap[k] in sectionMap;
      parsed', current', isNewSection := ScanKeywords(sectionMap, k, cleanLine, normLine, parsed', current');
      if isNewSection {
        StepHeading(sectionMap, ParserState(parsed, current), line, k);
        break;
      }
      k := k + 1;
    }
    if !isNewSection {
      StepNoHeading(sectionMap, ParserState(parsed, current), line);
      if IsOpen(current') {
        parsed' := parsed'[current'.value := parsed'[current'.value] + cleanLine + " "];
      }
    }
  }

  /**
   * The loop over the keywords of section `k`: at the first keyword the normalised
   * line starts with, the cursor moves to `k`'s key and the content after the
   * line's first `:`, if any, is appended to it.
   */
  method ScanKeywords(sectionMap: SectionMap, k: nat, cleanLine: string, normLine: string,
                      parsed: map<string, string>, current: Option<string>)
    returns (parsed': map<string, string>, current': Option<string>, isNewSection: bool)
    requires k < |sectionMap| && sectionMap[k].0 in parsed
    ensures isNewSection == Matches(normLine, sectionMap[k].1)
    ensures isNewSection ==>
      ParserState(parsed', current') ==
      OpenSection(ParserState(parsed, current), sectionMap[k].0, HeadingContent(cleanLine))
    ensures !isNewSection ==> parsed' == parsed && current' == current
  {
    parsed', current', isNewSection := parsed, current, false;
    var keywords := sectionMap[k].1;
    var i := 0;
    while i < |keywords|
      invariant i <= |keywords| && !isNewSection
      invariant parsed' == parsed && current' == current
      invariant Matches(normLine, keywords[i..]) == Matches(normLine, keywords)
    {
      assert keywords[i..][0] == keywords[i] && keywords[i..][1..] == keywords[i + 1..];
      if StartsWith(normLine, Lower(keywords[i])) {
        current' := Some(sectionMap[k].0);
        isNewSection := true;
        if ':' in cleanLine {
          var contentPart := Trim(cleanLine[IndexOf(cleanLine, ':') + 1..]);
          if contentPart != [] {
            parsed' := parsed'[current'.value := parsed'[current'.value] + contentPart + " "];
          }
        }
        return;
      }
      i := i + 1;
    }
    assert keywords[|keywords|..] == [];
  }

  /** A section that matches, with none matching before it, is the one a line opens. */
  lemma FirstHeadingIs(sm: SectionMap, norm: string, k: nat)
    requires k < |sm| && Matches(norm, sm[k].1)
    requires forall j :: 0 <= j < k ==> !Matches(norm, sm[j].1)
    ensures FirstHeading(sm, norm) == Some(k)
  {
    FirstHeadingSpec(sm, norm);
  }

  lemma StepBlank(sm: SectionMap, st: ParserState, line: string)
    requires StateOk(sm, st) && Trim(line) == []
    ensures Step(sm, st, line) == st
  {
  }

  lemma StepHeading(sm: SectionMap, st: ParserState, line: string, k: nat)
    requires StateOk(sm, st) && Trim(line) != []
    requires FirstHeading(sm, NormalizeLine(Trim(line))) == Some(k)
    ensures k < |sm| && sm[k].0 in st.parsed
    ensures Step(sm, st, line) == OpenSection(st, sm[k].0, HeadingContent(Trim(line)))
  {
    assert sm[k] in sm;
  }

  lemma StepNoHeading(sm: SectionMap, st: ParserState, line: string)
    requires StateOk(sm, st) && Trim(line) != []
    requires FirstHeading(sm, NormalizeLine(Trim(line))) == None
    ensures IsOpen(st.current) ==>
      st.current.value in st.parsed &&
      Step(sm, st, line) == ParserState(Append(st.parsed, st.current.value, Trim(line)), st.current)
    ensures !IsOpen(st.current) ==> Step(sm, st, line) == st
  {
  }

  // ---------------------------------------------------------------------------
  // What one line does

  /**
   * A line whose normalised form starts with a keyword of section `i`, and with no
   * keyword of an earlier section, moves the cursor to `i`'s key and appends the
   * content after its first `:` (when there is any) to that key alone.
   */
  lemma HeadingLine(sm: SectionMap, st: ParserState, line: string, i: nat)
    requires StateOk(sm, st) && !AllSpace(line) && i < |sm|
    requires Matches(NormalizeLine(Trim(line)), sm[i].1)
    requires forall j :: 0 <= j < i ==> !Matches(NormalizeLine(Trim(line)), sm[j].1)
    ensures var r, key, content := Step(sm, st, line), sm[i].0, HeadingContent(Trim(line));
      key in st.parsed && key in r.parsed && r.current == Some(key) &&
      r.parsed[key] == (if content == [] then st.parsed[key] else st.parsed[key] + content + " ") &&
      (forall k :: k in st.parsed && k != key ==> k in r.parsed && r.parsed[k] == st.parsed[k])
  {
    FirstHeadingIs(sm, NormalizeLine(Trim(line)), i);
    StepHeading(sm, st, line, i);
    var key, content := sm[i].0, HeadingContent(Trim(line));
    assert Step(sm, st, line) == OpenSection(st, key, content);
    if content != [] {
      assert Step(sm, st, line).parsed == Append(st.parsed, key, content);
    }
  }

  /**
   * A non-blank line that starts with no keyword at all appends itself, trimmed, to
   * the open section and changes nothing else; with no section open it is dropped.
   */
  lemma ContinuationLine(sm: SectionMap, st: ParserState, line: string)
    requires StateOk(sm, st) && !AllSpace(line)
    requires forall j :: 0 <= j < |sm| ==> !Matches(NormalizeLine(Trim(line)), sm[j].1)
    ensures var r := Step(sm, st, line);
      r.current == st.current &&
      (IsOpen(st.current) ==>
         st.current.value in st.parsed &&
         r.parsed == st.parsed[st.current.value := st.parsed[st.current.value] + Trim(line) + " "]) &&
      (!IsOpen(st.current) ==> r.parsed == st.parsed)
  {
    FirstHeadingSpec(sm, NormalizeLine(Trim(line)));
    StepNoHeading(sm, st, line);
  }

  // ---------------------------------------------------------------------------
  // What a whole response does

  lemma {:induction false} ParseLinesAppend(sm: SectionMap, st: ParserState, a: seq<string>, b: seq<string>)
    requires StateOk(sm, st)
    ensures ParseLines(sm, st, a + b) == ParseLines(sm, ParseLines(sm, st, a), b)
    decreases |a|
  {
    if a == [] {
      assert a + b == b;
    } else {
      assert (a + b)[0] == a[0] && (a + b)[1..] == a[1..] + b;
      StepOk(sm, st, a[0]);
      ParseLinesAppend(sm, Step(sm, st, a[0]), a[1..], b);
    }
  }

  /** The lines of `a`, then `middle` as one line, then the lines of `b`. */
  lemma SplitAround(a: string, middle: string, b: string)
    requires '\n' !in middle
    ensures Split(a + "\n" + middle + "\n" + b, '\n') == Split(a, '\n') + ([middle] + Split(b, '\n'))
  {
    var t := middle + ['\n'] + b;
    assert a + "\n" + middle + "\n" + b == a + ['\n'] + t;
    SplitConcat(a, t, '\n');
    SplitConcat(middle, b, '\n');
    SplitNone(middle, '\n');
  }

  /** A line of whitespace between two parts of a response changes nothing. */
  lemma BlankLineIgnored(sm: SectionMap, a: string, blank: string, b: string)
    requires AllSpace(blank) && '\n' !in blank
    ensures Parse(a + "\n" + blank + "\n" + b, sm) == Parse(a + "\n" + b, sm)
  {
    var st := Initial(sm);
    var lsA, lsB := Split(a, '\n'), Split(b, '\n');
    SplitAround(a, blank, b);
    SplitConcat(a, b, '\n');
    ParseLinesAppend(sm, st, lsA, [blank] + lsB);
    ParseLinesAppend(sm, st, lsA, lsB);
    var mid := ParseLines(sm, st, lsA);
    StepBlank(sm, mid, blank);
    assert ([blank] + lsB)[0] == blank && ([blank] + lsB)[1..] == lsB;
  }

  /** No line of `lines` is a heading. */
  predicate NoHeadings(sm: SectionMap, lines: seq<string>) {
    forall n :: 0 <= n < |lines| ==>
      AllSpace(lines[n]) || forall j :: 0 <= j < |sm| ==> !Matches(NormalizeLine(Trim(lines[n])), sm[j].1)
  }

  /** Before any section is open, lines that are not headings leave the state as it is. */
  lemma {:induction false} NoHeadingsKeepState(sm: SectionMap, st: ParserState, lines: seq<string>)
    requires StateOk(sm, st) && !IsOpen(st.current) && NoHeadings(sm, lines)
    ensures ParseLines(sm, st, lines) == st
    decreases |lines|
  {
    if lines != [] {
      if AllSpace(lines[0]) {
        StepBlank(sm, st, lines[0]);
      } else {
        ContinuationLine(sm, st, lines[0]);
      }
      assert NoHeadings(sm, lines[1..]) by {
        forall n | 0 <= n < |lines[1..]| ensures lines[1..][n] == lines[n + 1] { }
      }
      NoHeadingsKeepState(sm, st, lines[1..]);
    }
  }

  /** Text in front of the first heading is dropped: the result is that of the rest alone. */
  lemma PreambleDropped(sm: SectionMap, preamble: string, rest: string)
    requires NoHeadings(sm, Split(preamble, '\n'))
    ensures Parse(preamble + "\n" + rest, sm) == Parse(rest, sm)
  {
    var st := Initial(sm);
    SplitConcat(preamble, rest, '\n');
    ParseLinesAppend(sm, st, Split(preamble, '\n'), Split(rest, '\n'));
    NoHeadingsKeepState(sm, st, Split(preamble, '\n'));
  }
}

/**
 * What `main` shows of the parsed sections: each of the five assessment sections
 * with its leading `*`/`-` markers trimmed away, the final evaluation and, when
 * asked for, the AI-detection estimate. The Streamlit calls are left out; each
 * function returns the markdown line it would hand to `st.markdown`, or `None`
 * when nothing is shown.
 */
module ResultDisplay {
  import opened Wrappers
  import opened Text
  import opened SectionParser

  /** `parsed_data.get(key, "")`. */
  function Get(parsed: map<string, string>, key: string): string {
    if key in parsed then parsed[key] else []
  }

  /** `content.strip()`, then `.lstrip('*').lstrip('-').strip()`. */
  function CleanSection(v: string): (r: string)
    ensures IsTrimmed(r) && |r| <= |v|
  {
    Trim(LStripChar(LStripChar(Trim(v), '*'), '-'))
  }

  /** `show_section(title, key)`: the line shown for one section, if its cleaned content is not empty. */
  function ShowSection(parsed: map<string, string>, title: string, key: string): (r: Option<string>)
    ensures r.Some? <==> CleanSection(Get(parsed, key)) != []
    ensures key !in parsed ==> r.None?
  {
    var content := CleanSection(Get(parsed, key));
    if content != [] then Some("**" + title + ":** " + content) else None
  }

  /** The titles `main` shows for the five assessment sections, per display language. */
  function SectionTitles(vietsub: bool): seq<(string, string)> {
    if vietsub then
      [("Phản hồi yêu cầu", "Task Response"), ("Độ chính xác thông tin", "Information Accuracy"),
       ("Phát triển ý tưởng", "Idea Development"), ("Sự mạch lạc", "Coherence"),
       ("Kết luận", "Summary")]
    else
      [("Task Response", "Task Response"), ("Information Accuracy", "Information Accuracy"),
       ("Idea Development", "Idea Development"), ("Coherence", "Coherence"),
       ("Summary", "Summary")]
  }

  /** In either language the five titles name the first five sections of the default map, in its order. */
  lemma SectionTitlesFollowMap(vietsub: bool)
    ensures |SectionTitles(vietsub)| == 5
    ensures forall i :: 0 <= i < 5 ==> SectionTitles(vietsub)[i].1 == DefaultSectionMap[i].0
  {
  }

  /** The `show_section` calls in order, keeping the lines actually shown. */
  function ShowSections(parsed: map<string, string>, titles: seq<(string, string)>): (lines: seq<string>)
    ensures |lines| <= |titles|
    decreases |titles|
  {
    if titles == [] then []
    else
      var rest := ShowSections(parsed, titles[1..]);
      match ShowSection(parsed, titles[0].0, titles[0].1)
      case Some(line) => [line] + rest
      case None => rest
  }

  /** When no section has anything left after the clean-up, nothing is shown. */
  lemma {:induction false} NothingShown(parsed: map<string, string>, titles: seq<(string, string)>)
    requires forall n :: 0 <= n < |titles| ==> CleanSection(Get(parsed, titles[n].1)) == []
    ensures ShowSections(parsed, titles) == []
    decreases |titles|
  {
    if titles != [] {
      forall n | 0 <= n < |titles[1..]| ensures CleanSection(Get(parsed, titles[1..][n].1)) == [] {
        assert titles[1..][n] == titles[n + 1];
      }
      NothingShown(parsed, titles[1..]);
    }
  }

  /** `value.lstrip('*').lstrip(":").strip()`, the clean-up of the final evaluation and the AI estimate. */
  function CleanLabelled(v: string): (r: string)
    ensures IsTrimmed(r) && |r| <= |v|
  {
    Trim(LStripChar(LStripChar(v, '*'), ':'))
  }

  /** The final-evaluation heading, shown whenever the stripped value is not empty. */
  function FinalEvaluation(parsed: map<string, string>): (r: Option<string>)
    ensures r.None? <==> AllSpace(Get(parsed, "Final Evaluation"))
  {
    var finalEval := Trim(Get(parsed, "Final Evaluation"));
    if finalEval != [] then Some("### Final Evaluation: :blue[" + CleanLabelled(finalEval) + "]") else None
  }

  /** The AI-detection box, shown only when it was asked for and the stripped value is not empty. */
  function AiScore(parsed: map<string, string>, checkAi: bool): (r: Option<string>)
    ensures r.Some? <==> checkAi && !AllSpace(Get(parsed, "AI Plagiarism"))
  {
    var aiScore := Trim(Get(parsed, "AI Plagiarism"));
    if checkAi && aiScore != [] then
      Some("<div class=\"ai-score-box\">⚠️ AI Detection: " + CleanLabelled(aiScore) + "</div>")
    else None
  }

  // ---------------------------------------------------------------------------
  // From the parser to the page

  /** Stripping a value the parser accumulated drops exactly its closing space. */
  lemma TrimShaped(v: string)
    requires Shaped(v) && v != []
    ensures IsTrimmed(v[..|v| - 1]) && v[..|v| - 1] != []
    ensures Trim(v) == v[..|v| - 1]
  {
    var u := v[..|v| - 1];
    assert u[0] == v[0] && u[|u| - 1] == v[|v| - 2];
    assert TrimStart(v) == v;
    assert v[..|v| - 1] == u;
    assert TrimEnd(u) == u;
    assert TrimEnd(v) == u;
  }

  /**
   * A section the parser filled, whose content does not itself start with a
   * marker, is shown as the pieces it accumulated without the closing space.
   */
  lemma ShownSection(parsed: map<string, string>, title: string, key: string)
    requires key in parsed && Shaped(parsed[key]) && parsed[key] != []
    requires parsed[key][0] != '*' && parsed[key][0] != '-'
    ensures var v := parsed[key];
      ShowSection(parsed, title, key) == Some("**" + title + ":** " + v[..|v| - 1])
  {
    var v := parsed[key];
    var u := v[..|v| - 1];
    TrimShaped(v);
    assert u[0] == v[0];
    assert LStripChar(u, '*') == u;
    assert LStripChar(u, '-') == u;
  }

  /** Likewise for the final evaluation, whose content must not start with `*` or `:`. */
  lemma ShownFinalEvaluation(parsed: map<string, string>)
    requires "Final Evaluation" in parsed
    requires var v := parsed["Final Evaluation"]; Shaped(v) && v != [] && v[0] != '*' && v[0] != ':'
    ensures var v := parsed["Final Evaluation"];
      FinalEvaluation(parsed) == Some("### Final Evaluation: :blue[" + v[..|v| - 1] + "]")
  {
    var v := parsed["Final Evaluation"];
    var u := v[..|v| - 1];
    TrimShaped(v);
    assert u[0] == v[0];
    assert LStripChar(u, '*') == u;
    assert LStripChar(u, ':') == u;
  }
}

/**
 * The language-model side of the report: parsing a model's markdown reply
 * into its five sections, and the per-component loop that builds the
 * summaries the web page shows.
 */
module OllamaFunctions {
  import opened Wrappers
  import opened Strings
  import opened Tables
  import opened Seqs

  // ---------------------------------------------------------------------
  // Section headers
  // ---------------------------------------------------------------------

  /** The five sections of a reply; the source keys them 'summary', 'dev', 'test', 'impact_desc', 'impact'. */
  datatype Section = Summary | Dev | Test | ImpactDesc | Impact

  /** The lower-case text a header line must start with (after strip and lower). */
  function Marker(s: Section): string {
    match s
    case Summary => "## summary"
    case Dev => "## recommendations for developers"
    case Test => "## recommendations for testers"
    case ImpactDesc => "## potential customer impact"
    case Impact => "## impact level"
  }

  /** The section a line opens, or None for a text line. */
  function HeaderOf(line: string): Option<Section> {
    Classify(Lower(Strip(line)))
  }

  /** The marker tests on a stripped, lower-cased line, in the source's order. */
  function Classify(lin: string): Option<Section> {
    if Marker(Summary) <= lin then Some(Summary)
    else if Marker(Dev) <= lin then Some(Dev)
    else if Marker(Test) <= lin then Some(Test)
    else if Marker(ImpactDesc) <= lin then Some(ImpactDesc)
    else if Marker(Impact) <= lin then Some(Impact)
    else None
  }

  /** No line can start with two different markers: they disagree at index 3, or at 23 for the two recommendation headers. */
  lemma MarkersExclusive(a: Section, b: Section, lin: string)
    requires a != b && Marker(a) <= lin
    ensures !(Marker(b) <= lin)
  {
    assert lin[3] == Marker(a)[3];
    if a in {Dev, Test} && b in {Dev, Test} {
      assert lin[23] == Marker(a)[23];
    }
  }

  /** The order of the tests does not matter: a line opens section `s` exactly when it starts with that section's marker. */
  lemma HeaderIffMarker(lin: string, s: Section)
    ensures Classify(lin) == Some(s) <==> Marker(s) <= lin
  {
    if Marker(s) <= lin {
      forall t | t != s ensures !(Marker(t) <= lin) { MarkersExclusive(s, t, lin); }
    }
  }

  /**
   * The structure of a reply depends on which lines are headers and of which
   * section, and on nothing else; the functions below take that classification
   * as the parameter `kind` (the parser passes `HeaderOf`).
   */
  type Kind = string -> Option<Section>

  predicate HeaderFree(kind: Kind, lines: seq<string>) {
    forall i :: 0 <= i < |lines| ==> kind(lines[i]).None?
  }

  // ---------------------------------------------------------------------
  // What a reply means: each section is the text under its last header
  // ---------------------------------------------------------------------

  /** The index of the last header line in `lines`, if any. */
  function LastHeader(kind: Kind, lines: seq<string>): (r: Option<nat>)
    ensures r.Some? ==> r.value < |lines| && kind(lines[r.value]).Some? && HeaderFree(kind, lines[r.value + 1..])
    ensures r.None? ==> HeaderFree(kind, lines)
  {
    if lines == [] then None
    else if kind(lines[|lines| - 1]).Some? then Some(|lines| - 1)
    else
      var r := LastHeader(kind, lines[..|lines| - 1]);
      assert forall i :: 0 <= i < |lines| - 1 ==> lines[..|lines| - 1][i] == lines[i];
      r
  }

  /** The index of the last header line that opens section `s`, if any. */
  function LastHeaderOf(kind: Kind, lines: seq<string>, s: Section): (r: Option<nat>)
    ensures r.Some? ==> r.value < |lines| && kind(lines[r.value]) == Some(s)
    ensures r.Some? ==> forall k :: r.value < k < |lines| ==> kind(lines[k]) != Some(s)
    ensures r.None? ==> forall k :: 0 <= k < |lines| ==> kind(lines[k]) != Some(s)
  {
    if lines == [] then None
    else if kind(lines[|lines| - 1]) == Some(s) then Some(|lines| - 1)
    else
      var r := LastHeaderOf(kind, lines[..|lines| - 1], s);
      assert forall i :: 0 <= i < |lines| - 1 ==> lines[..|lines| - 1][i] == lines[i];
      r
  }

  /** The index of the first header at or after `from`, or `|lines|` when there is none. */
  function NextHeader(kind: Kind, lines: seq<string>, from: nat): (k: nat)
    requires from <= |lines|
    ensures from <= k <= |lines|
    ensures k < |lines| ==> kind(lines[k]).Some?
    ensures forall m :: from <= m < k ==> !kind(lines[m]).Some?
    decreases |lines| - from
  {
    if from == |lines| || kind(lines[from]).Some? then from else NextHeader(kind, lines, from + 1)
  }

  /**
   * The lines gathered for the header at index `j`: the text lines after it up
   * to the next header, preceded by all lines before it when it is the first
   * header of the reply (text before any header is never discarded).
   */
  function Block(kind: Kind, lines: seq<string>, j: nat): (b: seq<string>)
    requires j < |lines|
    ensures HeaderFree(kind, b)
  {
    var pre := if HeaderFree(kind, lines[..j]) then lines[..j] else [];
    var body := lines[j + 1..NextHeader(kind, lines, j + 1)];
    assert forall i :: 0 <= i < |body| ==> body[i] == lines[j + 1 + i];
    pre + body
  }

  /** The text of section `s`: empty when no header opens it, else its last block joined and stripped. */
  function SectionText(kind: Kind, lines: seq<string>, s: Section): string {
    match LastHeaderOf(kind, lines, s)
    case None => ""
    case Some(j) => Strip(Join("\n", Block(kind, lines, j)))
  }

  // ---------------------------------------------------------------------
  // Impact rating
  // ---------------------------------------------------------------------

  const RatingWords: seq<string> := ["HIGH", "MEDIUM", "LOW"]
  const DefaultRating: string := "MEDIUM"

  /** The first of `words` that occurs in `text`, if any. */
  function FirstContained(words: seq<string>, text: string): (r: Option<string>)
    ensures r.Some? ==> r.value in words && Contains(text, r.value)
    ensures r.None? ==> forall w :: w in words ==> !Contains(text, w)
  {
    if words == [] then None
    else if Contains(text, words[0]) then Some(words[0])
    else FirstContained(words[1..], text)
  }

  /** The rating of an impact-level section: the first of HIGH, MEDIUM, LOW it contains, else MEDIUM. */
  function Rating(impact: string): string {
    FirstContained(RatingWords, impact).GetOr(DefaultRating)
  }

  /** The rating is always one of the three levels, and HIGH wins over MEDIUM, which wins over LOW. */
  lemma RatingPriority(impact: string)
    ensures Rating(impact) in RatingWords
    ensures Rating(impact) == "HIGH" <==> Contains(impact, "HIGH")
    ensures Rating(impact) == "LOW" <==> Contains(impact, "LOW") && !Contains(impact, "HIGH") && !Contains(impact, "MEDIUM")
    ensures Rating(impact) == "MEDIUM" <==> !Contains(impact, "HIGH") && (Contains(impact, "MEDIUM") || !Contains(impact, "LOW"))
  {
    assert RatingWords[1..] == ["MEDIUM", "LOW"];
    assert RatingWords[1..][1..] == ["LOW"];
    assert RatingWords[1..][1..][1..] == [];
    if !Contains(impact, "HIGH") {
      assert FirstContained(RatingWords, impact) == FirstContained(["MEDIUM", "LOW"], impact);
      if !Contains(impact, "MEDIUM") {
        assert FirstContained(["MEDIUM", "LOW"], impact) == FirstContained(["LOW"], impact);
      }
    }
  }

  /** The words are matched case-sensitively: a section written all in lower case always rates MEDIUM. */
  lemma {:induction false} LowerCaseRatesMedium(impact: string)
    requires Lower(impact) == impact
    ensures Rating(impact) == DefaultRating
  {
    forall w, i | w in RatingWords ensures !OccursAt(impact, w, i) {
      assert 'A' <= w[0] <= 'Z';
      if 0 <= i && i + |w| <= |impact| {
        assert Lower(impact)[i] == LowerChar(impact[i]);
        assert impact[i] != w[0];
        assert impact[i..i + |w|][0] == impact[i];
      }
    }
    RatingPriority(impact);
  }

  /** The rating loop of the parser: the first word found ends the search. */
  method ExtractRating(impact: string) returns (rating: string)
    ensures rating == Rating(impact)
  {
    rating := DefaultRating;
    for i := 0 to |RatingWords|
      invariant FirstContained(RatingWords, impact) == FirstContained(RatingWords[i..], impact)
      invariant rating == DefaultRating
    {
      if Contains(impact, RatingWords[i]) {
        rating := RatingWords[i];
        break;
      }
      assert RatingWords[i..][1..] == RatingWords[i + 1..];
    }
  }

  // ---------------------------------------------------------------------
  // The parser
  // ---------------------------------------------------------------------

  /** The five values `parse_llm_markdown` returns. */
  datatype Parsed = Parsed(summary: string, dev: string, test: string, impactDesc: string, rating: string)

  /** What a reply parses to, stated section by section. */
  function Parse(md: string): Parsed {
    var lines := SplitLines(md);
    Parsed(SectionText(HeaderOf, lines, Summary), SectionText(HeaderOf, lines, Dev), SectionText(HeaderOf, lines, Test),
           SectionText(HeaderOf, lines, ImpactDesc), Rating(SectionText(HeaderOf, lines, Impact)))
  }

  /** The section opened by the last header seen so far. */
  function Current(kind: Kind, lines: seq<string>): Option<Section> {
    match LastHeader(kind, lines)
    case None => None
    case Some(j) => kind(lines[j])
  }

  /** The lines buffered so far for the current section (all lines while no header has been seen). */
  function Open(kind: Kind, lines: seq<string>): seq<string> {
    match LastHeader(kind, lines)
    case None => lines
    case Some(j) => Block(kind, lines, j)
  }

  /** The parser's state after reading `lines`: every section but the current one is final. */
  ghost predicate Scanned(kind: Kind, lines: seq<string>, current: Option<Section>, buff: seq<string>, sections: map<Section, string>) {
    && (forall s: Section :: s in sections)
    && current == Current(kind, lines)
    && buff == Open(kind, lines)
    && (forall s :: Some(s) != current ==> sections[s] == SectionText(kind, lines, s))
  }

  /** `parse_llm_markdown`: scans the reply's lines into sections, then rates the impact-level section. */
  method ParseLlmMarkdown(md: string) returns (r: Parsed)
    ensures r == Parse(md)
  {
    var sections := ScanSections(SplitLines(md));
    var rating := ExtractRating(sections[Impact]);
    r := Parsed(sections[Summary], sections[Dev], sections[Test], sections[ImpactDesc], rating);
  }

  /** The line loop of `parse_llm_markdown`: one pass, flushing the buffer into the open section at each header. */
  method ScanSections(lines: seq<string>) returns (sections: map<Section, string>)
    ensures forall s :: s in sections && sections[s] == SectionText(HeaderOf, lines, s)
  {
    sections := map[Summary := "", Dev := "", Test := "", ImpactDesc := "", Impact := ""];
    var current: Option<Section> := None;
    var buff: seq<string> := [];
    assert forall s: Section :: s in sections by {
      forall s: Section ensures s in sections { match s case Summary => case Dev => case Test => case ImpactDesc => case Impact => }
    }
    for i := 0 to |lines|
      invariant Scanned(HeaderOf, lines[..i], current, buff, sections)
    {
      var line := lines[i];
      var header := HeaderOf(line);
      ghost var prefix := lines[..i];
      PrefixStep(lines, i);
      if header.Some? {
        ScanHeader(HeaderOf, prefix, line, current, buff, sections);
        if current.Some? {
          sections := sections[current.value := Strip(Join("\n", buff))];
          buff := [];
        }
        current := header;
      } else {
        ScanText(HeaderOf, prefix, line, current, buff, sections);
        buff := buff + [line];
      }
    }
    assert lines[..|lines|] == lines;
    if current.Some? {
      CurrentSectionText(HeaderOf, lines);
      sections := sections[current.value := Strip(Join("\n", buff))];
    }
  }

  // ---------------------------------------------------------------------
  // Proof of the parser loop
  // ---------------------------------------------------------------------

  /** `NextHeader` is the only index with its two defining properties. */
  lemma NextHeaderUnique(kind: Kind, lines: seq<string>, from: nat, k: nat)
    requires from <= k <= |lines|
    requires k < |lines| ==> kind(lines[k]).Some?
    requires forall m :: from <= m < k ==> kind(lines[m]).None?
    ensures NextHeader(kind, lines, from) == k
  {
  }

  /** `LastHeaderOf` is the only index with its defining properties. */
  lemma LastHeaderOfUnique(kind: Kind, lines: seq<string>, s: Section, j: nat)
    requires j < |lines| && kind(lines[j]) == Some(s)
    requires forall k :: j < k < |lines| ==> kind(lines[k]) != Some(s)
    ensures LastHeaderOf(kind, lines, s) == Some(j)
  {
  }

  /** The last header is also the last header of its own section. */
  lemma CurrentSectionText(kind: Kind, lines: seq<string>)
    requires Current(kind, lines).Some?
    ensures SectionText(kind, lines, Current(kind, lines).value) == Strip(Join("\n", Open(kind, lines)))
  {
    var j := LastHeader(kind, lines).value;
    forall k | j < k < |lines| ensures kind(lines[k]) != kind(lines[j]) {
      assert lines[j + 1..][k - j - 1] == lines[k];
    }
    LastHeaderOfUnique(kind, lines, Current(kind, lines).value, j);
  }

  /** Appending a line leaves a block alone when a later header already closes it. */
  lemma BlockAppend(kind: Kind, lines: seq<string>, x: string, j: nat)
    requires j < |lines| && NextHeader(kind, lines, j + 1) < |lines|
    ensures Block(kind, lines + [x], j) == Block(kind, lines, j)
  {
    var l2 := lines + [x];
    var n := NextHeader(kind, lines, j + 1);
    assert forall m :: j + 1 <= m <= n ==> l2[m] == lines[m];
    NextHeaderUnique(kind, l2, j + 1, n);
    assert l2[..j] == lines[..j];
    assert l2[j + 1..n] == lines[j + 1..n];
  }

  /** Appending a line to the last block extends it by that line when the line is text. */
  lemma BlockAppendText(kind: Kind, lines: seq<string>, x: string, j: nat)
    requires j < |lines| && NextHeader(kind, lines, j + 1) == |lines| && kind(x).None?
    ensures Block(kind, lines + [x], j) == Block(kind, lines, j) + [x]
  {
    var l2 := lines + [x];
    assert forall m :: j + 1 <= m < |lines| ==> l2[m] == lines[m];
    NextHeaderUnique(kind, l2, j + 1, |l2|);
    assert l2[..j] == lines[..j];
    assert l2[j + 1..|l2|] == lines[j + 1..] + [x];
  }

  /** Appending a header closes the last block without changing it. */
  lemma BlockAppendHeader(kind: Kind, lines: seq<string>, x: string, j: nat)
    requires j < |lines| && NextHeader(kind, lines, j + 1) == |lines| && kind(x).Some?
    ensures Block(kind, lines + [x], j) == Block(kind, lines, j)
  {
    var l2 := lines + [x];
    assert forall m :: j + 1 <= m <= |lines| ==> l2[m] == if m < |lines| then lines[m] else x;
    NextHeaderUnique(kind, l2, j + 1, |lines|);
    assert l2[..j] == lines[..j];
    assert l2[j + 1..|lines|] == lines[j + 1..];
  }

  lemma LastHeaderAppend(kind: Kind, lines: seq<string>, x: string)
    ensures LastHeader(kind, lines + [x]) == if kind(x).Some? then Some(|lines|) else LastHeader(kind, lines)
    ensures forall s :: LastHeaderOf(kind, lines + [x], s) == if kind(x) == Some(s) then Some(|lines|) else LastHeaderOf(kind, lines, s)
  {
    assert (lines + [x])[..|lines|] == lines;
  }

  /** A section other than the current one keeps its text when a line is appended. */
  lemma SectionTextAppend(kind: Kind, lines: seq<string>, x: string, s: Section)
    requires Some(s) != Current(kind, lines) && kind(x) != Some(s)
    ensures SectionText(kind, lines + [x], s) == SectionText(kind, lines, s)
  {
    LastHeaderAppend(kind, lines, x);
    match LastHeaderOf(kind, lines, s)
    case None =>
    case Some(js) =>
      var j := LastHeader(kind, lines).value;
      assert js < j;
      assert NextHeader(kind, lines, js + 1) <= j;
      BlockAppend(kind, lines, x, js);
  }

  /** The loop step for a text line. */
  lemma ScanText(kind: Kind, lines: seq<string>, x: string, current: Option<Section>, buff: seq<string>, sections: map<Section, string>)
    requires Scanned(kind, lines, current, buff, sections) && kind(x).None?
    ensures Scanned(kind, lines + [x], current, buff + [x], sections)
  {
    var l2 := lines + [x];
    LastHeaderAppend(kind, lines, x);
    match LastHeader(kind, lines)
    case None =>
    case Some(j) =>
      assert l2[j] == lines[j];
      forall m | j + 1 <= m < |lines| ensures kind(lines[m]).None? {
        assert lines[j + 1..][m - j - 1] == lines[m];
      }
      NextHeaderUnique(kind, lines, j + 1, |lines|);
      BlockAppendText(kind, lines, x, j);
    forall s | Some(s) != current ensures sections[s] == SectionText(kind, l2, s) {
      SectionTextAppend(kind, lines, x, s);
    }
  }

  /** At a header, the section opened by the previous header receives the buffered lines. */
  lemma FlushCurrent(kind: Kind, lines: seq<string>, x: string)
    requires Current(kind, lines).Some? && kind(x).Some? && kind(x) != Current(kind, lines)
    ensures SectionText(kind, lines + [x], Current(kind, lines).value) == Strip(Join("\n", Open(kind, lines)))
  {
    var j := LastHeader(kind, lines).value;
    var cur := Current(kind, lines).value;
    LastHeaderAppend(kind, lines, x);
    LastIsLastOfItsSection(kind, lines);
    assert LastHeaderOf(kind, lines + [x], cur) == Some(j);
    LastBlockRunsToEnd(kind, lines);
    BlockAppendHeader(kind, lines, x, j);
    assert Block(kind, lines + [x], j) == Open(kind, lines);
  }

  /** The last header of all is the last header of its own section. */
  lemma LastIsLastOfItsSection(kind: Kind, lines: seq<string>)
    requires LastHeader(kind, lines).Some?
    ensures LastHeaderOf(kind, lines, kind(lines[LastHeader(kind, lines).value]).value) == LastHeader(kind, lines)
  {
    var j := LastHeader(kind, lines).value;
    forall k | j < k < |lines| ensures kind(lines[k]) != kind(lines[j]) {
      assert lines[j + 1..][k - j - 1] == lines[k];
    }
    LastHeaderOfUnique(kind, lines, kind(lines[j]).value, j);
  }

  /** The block of the last header runs to the end of the lines. */
  lemma LastBlockRunsToEnd(kind: Kind, lines: seq<string>)
    requires LastHeader(kind, lines).Some?
    ensures NextHeader(kind, lines, LastHeader(kind, lines).value + 1) == |lines|
  {
    var j := LastHeader(kind, lines).value;
    forall m | j + 1 <= m < |lines| ensures kind(lines[m]).None? {
      assert lines[j + 1..][m - j - 1] == lines[m];
    }
    NextHeaderUnique(kind, lines, j + 1, |lines|);
  }

  /** After a header, the buffer holds the text before it if it is the first header, and nothing otherwise. */
  lemma OpenAfterHeader(kind: Kind, lines: seq<string>, x: string)
    requires kind(x).Some?
    ensures Current(kind, lines + [x]) == kind(x)
    ensures Open(kind, lines + [x]) == if Current(kind, lines).Some? then [] else lines
  {
    var l2 := lines + [x];
    LastHeaderAppend(kind, lines, x);
    assert l2[|lines|] == x;
    assert l2[..|lines|] == lines;
    assert l2[|lines| + 1..NextHeader(kind, l2, |lines| + 1)] == [];
  }

  /** The loop step for a header line: the open section is flushed and the new one opened. */
  lemma ScanHeader(kind: Kind, lines: seq<string>, x: string, current: Option<Section>, buff: seq<string>, sections: map<Section, string>)
    requires Scanned(kind, lines, current, buff, sections) && kind(x).Some?
    ensures Scanned(kind, lines + [x], kind(x),
                    if current.Some? then [] else buff,
                    if current.Some? then sections[current.value := Strip(Join("\n", buff))] else sections)
  {
    OpenAfterHeader(kind, lines, x);
    var sections2 := if current.Some? then sections[current.value := Strip(Join("\n", buff))] else sections;
    forall s | Some(s) != kind(x) ensures sections2[s] == SectionText(kind, lines + [x], s) {
      ScanHeaderSection(kind, lines, x, current, buff, sections, s);
    }
  }

  /** One section's text after a header line. */
  lemma ScanHeaderSection(kind: Kind, lines: seq<string>, x: string, current: Option<Section>, buff: seq<string>,
                          sections: map<Section, string>, s: Section)
    requires Scanned(kind, lines, current, buff, sections) && kind(x).Some? && Some(s) != kind(x)
    ensures (if current.Some? then sections[current.value := Strip(Join("\n", buff))] else sections)[s]
         == SectionText(kind, lines + [x], s)
  {
    if current == Some(s) {
      FlushCurrent(kind, lines, x);
    } else {
      SectionTextAppend(kind, lines, x, s);
    }
  }

  // ---------------------------------------------------------------------
  // Properties of the parser
  // ---------------------------------------------------------------------

  /** A reply with no header line yields four empty sections and the default rating MEDIUM. */
  lemma NoHeaderDefaults(md: string)
    requires HeaderFree(HeaderOf, SplitLines(md))
    ensures Parse(md) == Parsed("", "", "", "", DefaultRating)
  {
    var lines := SplitLines(md);
    forall s ensures SectionText(HeaderOf, lines, s) == "" {
      assert LastHeaderOf(HeaderOf, lines, s) == None by {
        if LastHeaderOf(HeaderOf, lines, s).Some? {
          assert HeaderOf(lines[LastHeaderOf(HeaderOf, lines, s).value]).Some?;
        }
      }
    }
    RatingPriority("");
  }

  /** How `before + [h] + rest` is indexed. */
  lemma SplitAtHeader(before: seq<string>, h: string, rest: seq<string>)
    ensures var lines := before + [h] + rest;
      && lines[..|before|] == before
      && lines[|before|] == h
      && forall k :: |before| < k < |lines| ==> lines[k] == rest[k - |before| - 1]
  {
  }

  /** Where the last header of `s` sits when the reply is `before`, a header `h` of `s`, then lines with no header of `s`. */
  lemma LastHeaderAt(kind: Kind, before: seq<string>, h: string, rest: seq<string>, s: Section)
    requires kind(h) == Some(s)
    requires forall k :: 0 <= k < |rest| ==> kind(rest[k]) != Some(s)
    ensures LastHeaderOf(kind, before + [h] + rest, s) == Some(|before|)
  {
    SplitAtHeader(before, h, rest);
    LastHeaderOfUnique(kind, before + [h] + rest, s, |before|);
  }

  /** The block under that header: the lines of `rest` up to its first header. */
  lemma BlockAt(kind: Kind, before: seq<string>, h: string, rest: seq<string>)
    ensures Block(kind, before + [h] + rest, |before|)
         == (if HeaderFree(kind, before) then before else []) + rest[..NextHeader(kind, rest, 0)]
  {
    var lines := before + [h] + rest;
    var j := |before|;
    var n := NextHeader(kind, rest, 0);
    SplitAtHeader(before, h, rest);
    NextHeaderUnique(kind, lines, j + 1, j + 1 + n);
    assert lines[j + 1..j + 1 + n] == rest[..n];
  }

  /**
   * Text before the first header is not discarded: it is kept at the head of
   * the first section's text.
   */
  lemma PreambleKept(kind: Kind, preamble: seq<string>, h: string, rest: seq<string>, s: Section)
    requires HeaderFree(kind, preamble) && kind(h) == Some(s)
    requires forall k :: 0 <= k < |rest| ==> kind(rest[k]) != Some(s)
    ensures SectionText(kind, preamble + [h] + rest, s) == Strip(Join("\n", preamble + rest[..NextHeader(kind, rest, 0)]))
  {
    LastHeaderAt(kind, preamble, h, rest, s);
    BlockAt(kind, preamble, h, rest);
  }

  /**
   * A section that has several headers takes the text under its last one,
   * whatever came before that header.
   */
  lemma LastHeaderWins(kind: Kind, before: seq<string>, h: string, rest: seq<string>, s: Section)
    requires !HeaderFree(kind, before) && kind(h) == Some(s)
    requires forall k :: 0 <= k < |rest| ==> kind(rest[k]) != Some(s)
    ensures SectionText(kind, before + [h] + rest, s) == Strip(Join("\n", rest[..NextHeader(kind, rest, 0)]))
  {
    LastHeaderAt(kind, before, h, rest, s);
    BlockAt(kind, before, h, rest);
    assert [] + rest[..NextHeader(kind, rest, 0)] == rest[..NextHeader(kind, rest, 0)];
  }

  // ---------------------------------------------------------------------
  // Prompts
  // ---------------------------------------------------------------------

  const OverallSystemRole: string := "You are a helpful assistant software QA lead."
  const ComponentSystemRole: string := "You are a helpful software QA expert."

  /** The fixed text of the overall prompt; the table of all bugs follows it. */
  const OverallPromptHead: string :=
    "\n"
    + "        Given these bug reports found below, write a concise overall summary of key recurring issues and their impact across all components.\n"
    + "        List main issue areas as bullet points, provide a one-paragraph customer impact summary, and note notable trends. Use markdown formatting.\n"
    + "        Please follow this format exactly. Example:\n"
    + "        ## Summary\n"
    + "        - Example bullet 1 (grouped issue)\n"
    + "        - Example bullet 2\n"
    + "\n"
    + "        ## Recommendations for Developers\n"
    + "        - Example dev rec 1\n"
    + "        - Example dev rec 2\n"
    + "\n"
    + "        ## Recommendations for Testers\n"
    + "        - Example tester rec 1\n"
    + "\n"
    + "        ## Potential Customer Impact\n"
    + "        Short sentence.\n"
    + "\n"
    + "        ## Impact Level\n"
    + "        Impact: HIGH\n"
    + "\n"
    + "\n"
    + "        "

  /** The heading the component prompt asks the model to write for each section. */
  function PromptHeading(s: Section): string {
    match s
    case Summary => "## Summary"
    case Dev => "## Recommendations for Developers"
    case Test => "## Recommendations for Testers"
    case ImpactDesc => "## Potential Customer Impact"
    case Impact => "## Impact Level"
  }

  /** What the component prompt asks the model to write under each heading. */
  function PromptPlaceholder(s: Section): string {
    match s
    case Summary => "(bulleted list)"
    case Dev => "(bulleted list)"
    case Test => "(bulleted list)"
    case ImpactDesc => "(one or two sentences)"
    case Impact => "(Write: Impact: HIGH/MEDIUM/LOW)"
  }

  function FormatBlock(s: Section): string {
    PromptHeading(s) + "\n" + PromptPlaceholder(s) + "\n\n"
  }

  /** The prompt for one component, ending with that component's bug table. */
  function ComponentPrompt(component: string, issues: string): string {
    "Given the following bug reports for the '" + component + "' component:\n"
    + "1. Summarize the key findings and recurring issues as a bullet list, grouping similar reports together. Try to do it in less bullets, with a maximum of 5 concise bullet points.\n"
    + "2. Provide separate bulleted recommendations for developers.\n"
    + "3. Provide separate bulleted recommendations for testers.\n"
    + "4. Add a one or two sentence potential customer impact description.\n"
    + "5. Rate the customer impact as HIGH, MEDIUM, or LOW, depending on how much a customer can be affected. HIGH means that the customers can no longer use the software, MEDIUM means that their usage will be heavily impeded but still doable, while LOW means that it will be a minor annoyance.\n"
    + "Respond in Markdown format, use clear section markers, do not ever respond in any other way:\n"
    + FormatBlock(Summary) + FormatBlock(Dev) + FormatBlock(Test) + FormatBlock(ImpactDesc) + FormatBlock(Impact)
    + issues
  }

  /** The prompt and the parser agree: each heading the prompt asks for is read back as the header of its own section. */
  lemma PromptHeadingsParse(s: Section)
    ensures HeaderOf(PromptHeading(s)) == Some(s)
  {
    var h := PromptHeading(s);
    assert !IsSpace(h[0]) && !IsSpace(h[|h| - 1]);
    StripOfTrimmed(h);
    LowerHeading(s);
    HeaderIffMarker(Marker(s), s);
  }

  lemma LowerHeading(s: Section)
    ensures Lower(PromptHeading(s)) == Marker(s)
  {
    match s
    case Summary => LowerSummaryHeading();
    case Dev => LowerDevHeading();
    case Test => LowerTestHeading();
    case ImpactDesc => LowerImpactDescHeading();
    case Impact => LowerImpactHeading();
  }

  lemma LowerSummaryHeading()
    ensures Lower("## Summary") == "## summary"
  {
  }

  lemma LowerDevHeading()
    ensures Lower("## Recommendations for Developers") == "## recommendations for developers"
  {
  }

  lemma LowerTestHeading()
    ensures Lower("## Recommendations for Testers") == "## recommendations for testers"
  {
  }

  lemma LowerImpactDescHeading()
    ensures Lower("## Potential Customer Impact") == "## potential customer impact"
  {
  }

  lemma LowerImpactHeading()
    ensures Lower("## Impact Level") == "## impact level"
  {
  }


  /** A model that copies the impact placeholder verbatim is rated HIGH, since HIGH is the first word the rating looks for. */
  lemma EchoedPlaceholderRatesHigh()
    ensures Rating(PromptPlaceholder(Impact)) == "HIGH"
  {
    assert OccursAt(PromptPlaceholder(Impact), "HIGH", 16);
    RatingPriority(PromptPlaceholder(Impact));
  }

  // ---------------------------------------------------------------------
  // The summary table
  // ---------------------------------------------------------------------

  /**
   * The calls the loop makes into code outside the model: a chat request
   * (model name, system message, user message) answered with the reply's
   * content, markdown-to-HTML conversion, and `DataFrame.to_string(index=False)`.
   */
  type Chat = (string, string, string) -> string
  type Markdown = string -> string
  type Render = Frame -> string

  /** One entry of the summaries list. */
  datatype ComponentSummary = ComponentSummary(
    component: string, summary: string, devRecs: string, testRecs: string, impactDesc: string, impact: string)

  /** The entry for one component, built from the model's reply to the component prompt. */
  function ComponentRecord(component: string, reply: string, markdown: Markdown): (r: ComponentSummary)
    ensures r.component == component
    ensures r.impact in RatingWords
  {
    var p := Parse(reply);
    RatingPriority(SectionText(HeaderOf, SplitLines(reply), Impact));
    ComponentSummary(component, markdown(p.summary), markdown(p.dev), markdown(p.test), markdown(p.impactDesc), p.rating)
  }

  /** How the prompt for a component is written from its name and its rendered bug table. */
  type PromptFor = (string, string) -> string

  /** The model's reply for one component's bug table. */
  function ComponentReply(component: string, df: Frame, model: string, chat: Chat, render: Render, prompt: PromptFor): string {
    chat(model, ComponentSystemRole, prompt(component, render(df)))
  }

  /**
   * The summaries for `dfs` in order, skipping empty frames. The loop always
   * writes its prompts with `ComponentPrompt`; the prompt is a parameter here
   * so that the properties below visibly hold whatever the prompt says.
   */
  function Summaries(dfs: seq<(string, Frame)>, model: string, chat: Chat, markdown: Markdown, render: Render, prompt: PromptFor)
    : seq<ComponentSummary>
  {
    if dfs == [] then []
    else
      var (component, df) := dfs[|dfs| - 1];
      Summaries(dfs[..|dfs| - 1], model, chat, markdown, render, prompt)
        + (if df.Empty() then [] else [ComponentRecord(component, ComponentReply(component, df, model, chat, render, prompt), markdown)])
  }

  /** The names of the non-empty frames, in order. */
  function NonEmptyNames(dfs: seq<(string, Frame)>): seq<string> {
    if dfs == [] then []
    else NonEmptyNames(dfs[..|dfs| - 1]) + (if dfs[|dfs| - 1].1.Empty() then [] else [dfs[|dfs| - 1].0])
  }

  /** There is exactly one summary per non-empty component, in the dictionary's order, each rated HIGH, MEDIUM or LOW. */
  lemma {:induction false} SummariesCoverNonEmpty(dfs: seq<(string, Frame)>, model: string, chat: Chat, markdown: Markdown,
                                                  render: Render, prompt: PromptFor)
    ensures |Summaries(dfs, model, chat, markdown, render, prompt)| == |NonEmptyNames(dfs)|
    ensures forall k :: 0 <= k < |NonEmptyNames(dfs)| ==>
              Summaries(dfs, model, chat, markdown, render, prompt)[k].component == NonEmptyNames(dfs)[k]
              && Summaries(dfs, model, chat, markdown, render, prompt)[k].impact in RatingWords
  {
    if dfs != [] {
      SummariesCoverNonEmpty(dfs[..|dfs| - 1], model, chat, markdown, render, prompt);
    }
  }

  /** One more component extends the summaries by at most its own entry. */
  lemma SummariesStep(dfs: seq<(string, Frame)>, i: nat, model: string, chat: Chat, markdown: Markdown, render: Render, prompt: PromptFor)
    requires i < |dfs|
    ensures Summaries(dfs[..i + 1], model, chat, markdown, render, prompt)
         == Summaries(dfs[..i], model, chat, markdown, render, prompt)
            + (if dfs[i].1.Empty() then []
               else [ComponentRecord(dfs[i].0, ComponentReply(dfs[i].0, dfs[i].1, model, chat, render, prompt), markdown)])
  {
    assert dfs[..i + 1][..i] == dfs[..i];
  }

  lemma RecordOfParsed(component: string, reply: string, parsed: Parsed, markdown: Markdown)
    requires parsed == Parse(reply)
    ensures ComponentRecord(component, reply, markdown)
         == ComponentSummary(component, markdown(parsed.summary), markdown(parsed.dev), markdown(parsed.test),
                             markdown(parsed.impactDesc), parsed.rating)
  {
  }

  /** The body of the per-component loop: prompt, chat, parse, and convert the four texts to HTML. */
  method SummarizeComponent(component: string, df: Frame, model: string, chat: Chat, markdown: Markdown, render: Render)
    returns (entry: ComponentSummary)
    ensures entry == ComponentRecord(component, ComponentReply(component, df, model, chat, render, ComponentPrompt), markdown)
  {
    var componentIssues := render(df);
    var prompt := ComponentPrompt(component, componentIssues);
    var summaryResp := chat(model, ComponentSystemRole, prompt);
    var parsed := ParseLlmMarkdown(summaryResp);
    RecordOfParsed(component, summaryResp, parsed, markdown);
    var summaryHtml := markdown(parsed.summary);
    var devHtml := markdown(parsed.dev);
    var testHtml := markdown(parsed.test);
    var impactDescHtml := markdown(parsed.impactDesc);
    entry := ComponentSummary(component, summaryHtml, devHtml, testHtml, impactDescHtml, parsed.rating);
  }

  /** `generate_summary_table`: one chat for the overall text, then one per non-empty component. */
  method GenerateSummaryTable(allBugs: Frame, componentDfs: seq<(string, Frame)>, model: string,
                              chat: Chat, markdown: Markdown, render: Render)
    returns (overallText: string, summaries: seq<ComponentSummary>)
    ensures overallText == markdown(chat(model, OverallSystemRole, OverallPromptHead + render(allBugs)))
    ensures summaries == Summaries(componentDfs, model, chat, markdown, render, ComponentPrompt)
  {
    summaries := [];
    var allBugsText := render(allBugs);
    var overallPrompt := OverallPromptHead + allBugsText;
    var response := chat(model, OverallSystemRole, overallPrompt);
    overallText := markdown(response);
    for i := 0 to |componentDfs|
      invariant summaries == Summaries(componentDfs[..i], model, chat, markdown, render, ComponentPrompt)
    {
      var (component, df) := componentDfs[i];
      SummariesStep(componentDfs, i, model, chat, markdown, render, ComponentPrompt);
      if df.Empty() {
        continue;
      }
      var entry := SummarizeComponent(component, df, model, chat, markdown, render);
      summaries := summaries + [entry];
    }
    assert componentDfs[..|componentDfs|] == componentDfs;
  }
}

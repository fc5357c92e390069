/**
 * The markdown the feature formatter writes, as lines. behave's model objects become
 * plain datatypes; each `*Lines` function is the list of lines one formatter method
 * writes, every line ended by a newline in the output.
 */
module FeatureText {
  import opened Wrappers
  import opened Strings

  datatype Step = Step(keyword: string, name: string, text: string)

  datatype Table = Table(headings: seq<string>, rows: seq<seq<string>>)

  datatype Examples = Examples(name: string, table: Table)

  datatype Scenario =
    | Scenario(name: string, tags: seq<string>, steps: seq<Step>)
    | ScenarioOutline(name: string, tags: seq<string>, steps: seq<Step>, examples: seq<Examples>)

  datatype Background = Background(steps: seq<Step>)

  datatype Feature = Feature(
    name: string,
    tags: seq<string>,
    description: seq<string>,
    background: Option<Background>,
    scenarios: seq<Scenario>)

  /** The `step_highlight` mapping in its order: a pattern and the code language of blocks whose step name it matches. */
  type Highlights = seq<(string, string)>

  /** A regular-expression search, `re.compile(pattern).search(text)` being found. */
  type Matcher = (string, string) -> bool

  // ---------------------------------------------------------------------------
  // `_strip_dots`

  /** `line[2:] if line == '.' or line.startswith('. ') else line`; the slice of `'.'` is empty. */
  function StripDot(line: string): string
  {
    if line == "." then ""
    else if StartsWith(line, ". ") then line[2..]
    else line
  }

  /** Leading dots that protect markdown in feature text are removed, line by line. */
  function StripDots(lines: seq<string>): (r: seq<string>)
    ensures |r| == |lines|
    ensures forall i :: 0 <= i < |lines| && lines[i] == "." ==> r[i] == ""
    ensures forall i :: 0 <= i < |lines| && StartsWith(lines[i], ". ") ==> r[i] == lines[i][2..]
    ensures forall i :: 0 <= i < |lines| && lines[i] != "." && !StartsWith(lines[i], ". ") ==> r[i] == lines[i]
  {
    seq(|lines|, i requires 0 <= i < |lines| => StripDot(lines[i]))
  }

  // ---------------------------------------------------------------------------
  // `re.sub(r'"([^"]*)"', r'"`\1`"', name)`

  /** Each double-quoted piece of text, left to right, wrapped in backticks inside its quotes. */
  function QuoteAsCode(s: string): string
    decreases |s|
  {
    if s == [] then []
    else if s[0] != '"' then [s[0]] + QuoteAsCode(s[1..])
    else match IndexOf(s[1..], '"')
      case None => s
      case Some(k) => "\"`" + s[1..k + 1] + "`\"" + QuoteAsCode(s[k + 2..])
  }

  // ---------------------------------------------------------------------------
  // `_guess_code_language`

  /** The index of the first highlight whose pattern matches `name`. */
  function FirstMatch(highlights: Highlights, matches: Matcher, name: string): (r: Option<nat>)
    ensures r.Some? ==> r.value < |highlights| && matches(highlights[r.value].0, name)
    ensures r.Some? ==> forall j :: 0 <= j < r.value ==> !matches(highlights[j].0, name)
    ensures r.None? <==> forall j :: 0 <= j < |highlights| ==> !matches(highlights[j].0, name)
  {
    if highlights == [] then None
    else match FirstMatch(highlights[..|highlights| - 1], matches, name)
      case Some(j) => Some(j)
      case None =>
        if matches(highlights[|highlights| - 1].0, name) then Some(|highlights| - 1) else None
  }

  function CodeLanguage(highlights: Highlights, matches: Matcher, name: string): string
  {
    match FirstMatch(highlights, matches, name)
    case None => ""
    case Some(i) => highlights[i].1
  }

  // ---------------------------------------------------------------------------
  // Lines

  /** The lines joined, each followed by a newline. */
  function Unlines(lines: seq<string>): string
  {
    if lines == [] then "" else Unlines(lines[..|lines| - 1]) + lines[|lines| - 1] + "\n"
  }

  lemma UnlinesSnoc(lines: seq<string>, line: string)
    ensures Unlines(lines + [line]) == Unlines(lines) + line + "\n"
  {
    assert (lines + [line])[..|lines|] == lines;
  }

  lemma {:induction false} UnlinesAppend(a: seq<string>, b: seq<string>)
    ensures Unlines(a + b) == Unlines(a) + Unlines(b)
    decreases |b|
  {
    if b == [] {
      assert a + b == a;
    } else {
      var c := a + b;
      assert c[..|c| - 1] == a + b[..|b| - 1];
      UnlinesAppend(a, b[..|b| - 1]);
    }
  }

  /** What has been written after `start`, followed by more lines, reads as all the lines after `start`. */
  lemma WrittenAppend(start: string, lines: seq<string>, more: seq<string>)
    ensures start + Unlines(lines) + Unlines(more) == start + Unlines(lines + more)
  {
    UnlinesAppend(lines, more);
  }

  /** `'<!-- Generated from ' + filename + ' -->\n'` then `'\n'`. */
  function HeaderLines(filename: string): seq<string>
  {
    ["<!-- Generated from " + filename + " -->", ""]
  }

  function AtTags(tags: seq<string>): (r: seq<string>)
    ensures |r| == |tags| && forall i :: 0 <= i < |tags| ==> r[i] == "@" + tags[i]
  {
    seq(|tags|, i requires 0 <= i < |tags| => "@" + tags[i])
  }

  /** The tag note written when there are tags. */
  function CalloutLines(tags: seq<string>): seq<string>
  {
    if tags == [] then [] else ["!!! note", "    " + Join(" ", AtTags(tags)), ""]
  }

  /** A step's text as a fenced code block after a blank line, or nothing when there is no text. */
  function TextBlockLines(language: string, text: string): seq<string>
  {
    if text == "" then [] else ["", "```" + language, text, "```"]
  }

  function StepLines(highlights: Highlights, matches: Matcher, step: Step): seq<string>
  {
    ["**" + step.keyword + "** " + QuoteAsCode(step.name) + "  "] +
    TextBlockLines(CodeLanguage(highlights, matches, step.name), step.text)
  }

  function StepsLines(highlights: Highlights, matches: Matcher, steps: seq<Step>): seq<string>
  {
    if steps == [] then []
    else StepsLines(highlights, matches, steps[..|steps| - 1]) + StepLines(highlights, matches, steps[|steps| - 1])
  }

  lemma StepsLinesPrefix(highlights: Highlights, matches: Matcher, steps: seq<Step>, i: nat)
    requires i < |steps|
    ensures StepsLines(highlights, matches, steps[..i + 1]) ==
      StepsLines(highlights, matches, steps[..i]) + StepLines(highlights, matches, steps[i])
  {
    assert steps[..i + 1][..i] == steps[..i];
  }

  function HeaderRow(headings: seq<string>): string
  {
    "|" + Join("|", headings) + "|"
  }

  function SeparatorRow(columns: nat): string
  {
    Repeat("|--", columns) + "|"
  }

  function Backticked(cells: seq<string>): (r: seq<string>)
    ensures |r| == |cells| && forall i :: 0 <= i < |cells| ==> r[i] == "`" + cells[i] + "`"
  {
    seq(|cells|, i requires 0 <= i < |cells| => "`" + cells[i] + "`")
  }

  function CellsRow(cells: seq<string>): string
  {
    "|" + Join("|", Backticked(cells)) + "|"
  }

  function RowsLines(rows: seq<seq<string>>): (r: seq<string>)
    ensures |r| == |rows| && forall i :: 0 <= i < |rows| ==> r[i] == CellsRow(rows[i])
  {
    seq(|rows|, i requires 0 <= i < |rows| => CellsRow(rows[i]))
  }

  /**
   * The line before an examples table. Python reads the source expression as
   * `('#### Examples' + f': {name}') if name else ''`, so an unnamed table gets an empty line.
   */
  function ExamplesHeading(name: string): string
  {
    if name != "" then "#### Examples" + ": " + name else ""
  }

  /** The heading line, the header row and the separator row of an examples table. */
  function TableHeadLines(examples: Examples): seq<string>
  {
    [ExamplesHeading(examples.name), HeaderRow(examples.table.headings), SeparatorRow(|examples.table.headings|)]
  }

  function ExamplesLines(examples: Examples): seq<string>
  {
    var t := examples.table;
    TableHeadLines(examples) + RowsLines(t.rows) + [""]
  }

  function AllExamplesLines(all: seq<Examples>): seq<string>
  {
    if all == [] then [] else AllExamplesLines(all[..|all| - 1]) + ExamplesLines(all[|all| - 1])
  }

  function ScenarioLines(highlights: Highlights, matches: Matcher, scenario: Scenario): seq<string>
  {
    ["### " + scenario.name] + CalloutLines(scenario.tags) + StepsLines(highlights, matches, scenario.steps) + [""] +
    if scenario.ScenarioOutline? then AllExamplesLines(scenario.examples) else []
  }

  function ScenariosLines(highlights: Highlights, matches: Matcher, scenarios: seq<Scenario>): seq<string>
  {
    if scenarios == [] then []
    else ScenariosLines(highlights, matches, scenarios[..|scenarios| - 1]) + ScenarioLines(highlights, matches, scenarios[|scenarios| - 1])
  }

  function BackgroundLines(highlights: Highlights, matches: Matcher, background: Background): seq<string>
  {
    ["## Background", ""] + StepsLines(highlights, matches, background.steps)
  }

  /** The title, the tag note and the description of a feature, then a blank line. */
  function FeatureHeadLines(feature: Feature): seq<string>
  {
    ["# " + feature.name] + CalloutLines(feature.tags) + StripDots(feature.description) + [""]
  }

  function FeatureLines(highlights: Highlights, matches: Matcher, feature: Feature): seq<string>
  {
    FeatureHeadLines(feature) +
    (match feature.background
     case None => []
     case Some(b) => BackgroundLines(highlights, matches, b)) +
    ["## Scenarios"] + ScenariosLines(highlights, matches, feature.scenarios)
  }
}

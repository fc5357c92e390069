/**
 * The behave formatter that writes one markdown page per feature file: `uri` starts a
 * page in the output buffer, `feature` writes the whole feature into it (background,
 * scenarios, steps and example tables), and `eof` stores the page under the feature's
 * path in `rendered_features`.
 */
module FeatureFormat {
  import opened Wrappers
  import opened Strings
  import opened FeatureText

  class FeatureFormatter {
    /** `_step_highlight_regexes`, in mapping order, and the search the compiled patterns do. */
    const highlights: Highlights
    const matches: Matcher
    /** `_filename` */
    var filename: string
    /** The contents written so far to `_output`. */
    var output: string
    /** `rendered_features`: the finished page of each feature file. */
    var rendered: map<string, string>

    constructor (highlights: Highlights, matches: Matcher)
      ensures this.highlights == highlights && this.matches == matches
      ensures filename == "" && output == "" && rendered == map[]
    {
      this.highlights := highlights;
      this.matches := matches;
      filename := "";
      output := "";
      rendered := map[];
    }

    /** `self._output.write(line + '\n')`, after `lines` were written since `start`. */
    method WriteLine(ghost start: string, ghost lines: seq<string>, line: string)
      requires output == start + Unlines(lines)
      modifies this
      ensures output == start + Unlines(lines + [line])
      ensures filename == old(filename) && rendered == old(rendered)
    {
      output := output + line + "\n";
      UnlinesSnoc(lines, line);
    }

    method Uri(filename: string)
      modifies this
      ensures this.filename == filename && output == Unlines(HeaderLines(filename))
      ensures rendered == old(rendered)
    {
      this.filename := filename;
      output := "";
      var line := "<!-- Generated from " + filename + " -->";
      WriteLine("", [], line);
      WriteLine("", [line], "");
    }

    method Eof()
      modifies this
      ensures rendered == old(rendered)[filename := output]
      ensures forall k :: k in old(rendered) && k != filename ==> k in rendered && rendered[k] == old(rendered)[k]
      ensures filename == old(filename) && output == old(output)
    {
      rendered := rendered[filename := output];
    }

    /** The tag note, written the same way for a feature and for a scenario. */
    method WriteTags(tags: seq<string>)
      modifies this
      ensures output == old(output) + Unlines(CalloutLines(tags))
      ensures filename == old(filename) && rendered == old(rendered)
    {
      if tags != [] {
        var start := output;
        var line := "    " + Join(" ", AtTags(tags));
        WriteLine(start, [], "!!! note");
        assert [] + ["!!! note"] == ["!!! note"];
        WriteLine(start, ["!!! note"], line);
        assert ["!!! note"] + [line] == ["!!! note", line];
        WriteLine(start, ["!!! note", line], "");
        assert ["!!! note", line] + [""] == CalloutLines(tags);
      }
    }

    method Feature(feature: Feature)
      modifies this
      ensures output == old(output) + Unlines(FeatureLines(highlights, matches, feature))
      ensures filename == old(filename) && rendered == old(rendered)
    {
      ghost var start := output;
      FeatureHead(feature);
      ghost var lines := FeatureHeadLines(feature);
      if feature.background.Some? {
        var background := feature.background.value;
        FormatBackground(background);
        WrittenAppend(start, lines, BackgroundLines(highlights, matches, background));
        lines := lines + BackgroundLines(highlights, matches, background);
      } else {
        assert lines + [] == lines;
      }
      WriteLine(start, lines, "## Scenarios");
      lines := lines + ["## Scenarios"];
      FormatScenarios(feature.scenarios);
      WrittenAppend(start, lines, ScenariosLines(highlights, matches, feature.scenarios));
    }

    /** The first part of `feature`: title, tag note, description and a blank line. */
    method FeatureHead(feature: Feature)
      modifies this
      ensures output == old(output) + Unlines(FeatureHeadLines(feature))
      ensures filename == old(filename) && rendered == old(rendered)
    {
      ghost var start := output;
      WriteLine(start, [], "# " + feature.name);
      WriteTags(feature.tags);
      WrittenAppend(start, ["# " + feature.name], CalloutLines(feature.tags));
      ghost var lines := ["# " + feature.name] + CalloutLines(feature.tags);
      var description := StripDots(feature.description);
      WriteLines(description);
      WrittenAppend(start, lines, description);
      WriteLine(start, lines + description, "");
    }

    /** The loop writing the description lines, each with its newline. */
    method WriteLines(lines: seq<string>)
      modifies this
      ensures output == old(output) + Unlines(lines)
      ensures filename == old(filename) && rendered == old(rendered)
    {
      ghost var start := output;
      for i := 0 to |lines|
        invariant output == start + Unlines(lines[..i])
        invariant filename == old(filename) && rendered == old(rendered)
      {
        WriteLine(start, lines[..i], lines[i]);
        assert lines[..i] + [lines[i]] == lines[..i + 1];
      }
      assert lines[..|lines|] == lines;
    }

    /** The `for scenario in feature.scenarios: self.format_scenario(scenario)` loop. */
    method FormatScenarios(scenarios: seq<Scenario>)
      modifies this
      ensures output == old(output) + Unlines(ScenariosLines(highlights, matches, scenarios))
      ensures filename == old(filename) && rendered == old(rendered)
    {
      ghost var start := output;
      for i := 0 to |scenarios|
        invariant output == start + Unlines(ScenariosLines(highlights, matches, scenarios[..i]))
        invariant filename == old(filename) && rendered == old(rendered)
      {
        ghost var done := ScenariosLines(highlights, matches, scenarios[..i]);
        FormatScenario(scenarios[i]);
        assert scenarios[..i + 1][..i] == scenarios[..i];
        WrittenAppend(start, done, ScenarioLines(highlights, matches, scenarios[i]));
      }
      assert scenarios[..|scenarios|] == scenarios;
    }

    method FormatBackground(background: Background)
      modifies this
      ensures output == old(output) + Unlines(BackgroundLines(highlights, matches, background))
      ensures filename == old(filename) && rendered == old(rendered)
    {
      ghost var start := output;
      WriteLine(start, [], "## Background");
      WriteLine(start, ["## Background"], "");
      FormatSteps(background.steps);
      WrittenAppend(start, ["## Background", ""], StepsLines(highlights, matches, background.steps));
    }

    /** The `for step in ...steps: self.format_step(step)` loops. */
    method FormatSteps(steps: seq<Step>)
      modifies this
      ensures output == old(output) + Unlines(StepsLines(highlights, matches, steps))
      ensures filename == old(filename) && rendered == old(rendered)
    {
      ghost var start := output;
      for i := 0 to |steps|
        invariant output == start + Unlines(StepsLines(highlights, matches, steps[..i]))
        invariant filename == old(filename) && rendered == old(rendered)
      {
        ghost var done := StepsLines(highlights, matches, steps[..i]);
        FormatStep(steps[i]);
        StepsLinesPrefix(highlights, matches, steps, i);
        WrittenAppend(start, done, StepLines(highlights, matches, steps[i]));
      }
      assert steps[..|steps|] == steps;
    }

    method FormatScenario(scenario: Scenario)
      modifies this
      ensures output == old(output) + Unlines(ScenarioLines(highlights, matches, scenario))
      ensures filename == old(filename) && rendered == old(rendered)
    {
      ghost var start := output;
      WriteLine(start, [], "### " + scenario.name);
      WriteTags(scenario.tags);
      WrittenAppend(start, ["### " + scenario.name], CalloutLines(scenario.tags));
      ghost var lines := ["### " + scenario.name] + CalloutLines(scenario.tags);
      FormatSteps(scenario.steps);
      WrittenAppend(start, lines, StepsLines(highlights, matches, scenario.steps));
      lines := lines + StepsLines(highlights, matches, scenario.steps);
      WriteLine(start, lines, "");
      lines := lines + [""];
      if scenario.ScenarioOutline? {
        FormatAllExamples(scenario.examples);
        WrittenAppend(start, lines, AllExamplesLines(scenario.examples));
      } else {
        assert lines + [] == lines;
      }
    }

    /** The `for examples in scenario.examples` loop of an outline. */
    method FormatAllExamples(all: seq<Examples>)
      modifies this
      ensures output == old(output) + Unlines(AllExamplesLines(all))
      ensures filename == old(filename) && rendered == old(rendered)
    {
      ghost var start := output;
      for i := 0 to |all|
        invariant output == start + Unlines(AllExamplesLines(all[..i]))
        invariant filename == old(filename) && rendered == old(rendered)
      {
        ghost var done := AllExamplesLines(all[..i]);
        FormatExamples(all[i]);
        assert all[..i + 1][..i] == all[..i];
        WrittenAppend(start, done, ExamplesLines(all[i]));
      }
      assert all[..|all|] == all;
    }

    /** One examples table: its heading line, header row, separator, rows and a blank line. */
    method FormatExamples(examples: Examples)
      modifies this
      ensures output == old(output) + Unlines(ExamplesLines(examples))
      ensures filename == old(filename) && rendered == old(rendered)
    {
      ghost var start := output;
      var t := examples.table;
      var heading := if examples.name != "" then "#### Examples" + ": " + examples.name else "";
      WriteLine(start, [], heading);
      WriteLine(start, [heading], "|" + Join("|", t.headings) + "|");
      WriteLine(start, [heading, HeaderRow(t.headings)], Repeat("|--", |t.headings|) + "|");
      ghost var lines := [heading, HeaderRow(t.headings), SeparatorRow(|t.headings|)];
      assert [] + [heading] + [HeaderRow(t.headings)] + [SeparatorRow(|t.headings|)] == TableHeadLines(examples);
      WriteRows(t.rows);
      WrittenAppend(start, lines, RowsLines(t.rows));
      WriteLine(start, lines + RowsLines(t.rows), "");
    }

    /** The `for row in examples.table` loop: each row's cells in backticks between bars. */
    method WriteRows(rows: seq<seq<string>>)
      modifies this
      ensures output == old(output) + Unlines(RowsLines(rows))
      ensures filename == old(filename) && rendered == old(rendered)
    {
      ghost var start := output;
      for i := 0 to |rows|
        invariant output == start + Unlines(RowsLines(rows[..i]))
        invariant filename == old(filename) && rendered == old(rendered)
      {
        var row := rows[i];
        WriteLine(start, RowsLines(rows[..i]), "|" + Join("|", Backticked(row)) + "|");
        assert RowsLines(rows[..i]) + [CellsRow(row)] == RowsLines(rows[..i + 1]);
      }
      assert rows[..|rows|] == rows;
    }

    /** `_guess_code_language`: the language of the first pattern that matches the step name, or none. */
    method GuessCodeLanguage(stepName: string) returns (language: string)
      ensures language == CodeLanguage(highlights, matches, stepName)
    {
      for i := 0 to |highlights|
        invariant forall j :: 0 <= j < i ==> !matches(highlights[j].0, stepName)
      {
        var (pattern, lang) := highlights[i];
        if matches(pattern, stepName) {
          return lang;
        }
      }
      return "";
    }

    method FormatStep(step: Step)
      modifies this
      ensures output == old(output) + Unlines(StepLines(highlights, matches, step))
      ensures filename == old(filename) && rendered == old(rendered)
    {
      ghost var start := output;
      var name := QuoteAsCode(step.name);
      var line := "**" + step.keyword + "** " + name + "  ";
      WriteLine(start, [], line);
      assert [] + [line] == [line];
      if step.text != "" {
        var blockFormat := GuessCodeLanguage(step.name);
        WriteTextBlock(start, [line], blockFormat, step.text);
      } else {
        assert [line] + TextBlockLines(CodeLanguage(highlights, matches, step.name), step.text) == [line];
      }
    }

    /** The blank line, the opening fence with the block's language, the text and the closing fence. */
    method WriteTextBlock(ghost start: string, ghost lines: seq<string>, language: string, text: string)
      requires output == start + Unlines(lines) && text != ""
      modifies this
      ensures output == start + Unlines(lines + TextBlockLines(language, text))
      ensures filename == old(filename) && rendered == old(rendered)
    {
      var fence := "```" + language;
      WriteLine(start, lines, "");
      WriteLine(start, lines + [""], fence);
      WriteLine(start, lines + [""] + [fence], text);
      WriteLine(start, lines + [""] + [fence] + [text], "```");
      assert lines + [""] + [fence] + [text] + ["```"] == lines + TextBlockLines(language, text);
    }
  }
}

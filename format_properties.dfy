/**
 * What the markdown the formatter writes means: description lines lose exactly their
 * protecting dots, quoted step text becomes inline code that can be read back, the
 * highlight language is the first match, tables and tag notes split back into their
 * cells and tags, and the page splits back into its lines.
 */
module FormatProperties {
  import opened Wrappers
  import opened Strings
  import opened FeatureText

  // ---------------------------------------------------------------------------
  // `_strip_dots`

  /** A description line protected by a leading `. `. */
  function Protected(lines: seq<string>): (r: seq<string>)
    ensures |r| == |lines| && forall i :: 0 <= i < |lines| ==> r[i] == ". " + lines[i]
  {
    seq(|lines|, i requires 0 <= i < |lines| => ". " + lines[i])
  }

  /** Protecting every line with `. ` and stripping the dots gives the lines back. */
  lemma StripDotsProtected(lines: seq<string>)
    ensures StripDots(Protected(lines)) == lines
  {
    var p := Protected(lines);
    forall i | 0 <= i < |lines|
      ensures StripDots(p)[i] == lines[i]
    {
      assert StartsWith(p[i], ". ");
      assert p[i][2..] == lines[i];
    }
  }

  /** Lines that do not start with a dot are never changed. */
  lemma StripDotsKeepsUndotted(lines: seq<string>)
    requires forall i :: 0 <= i < |lines| ==> lines[i] == [] || lines[i][0] != '.'
    ensures StripDots(lines) == lines
  {
    forall i | 0 <= i < |lines|
      ensures StripDots(lines)[i] == lines[i]
    {
      assert lines[i] != ".";
      assert !StartsWith(lines[i], ". ");
    }
  }

  // ---------------------------------------------------------------------------
  // Quoted step text as inline code

  /** Text without double quotes is left as it is. */
  lemma {:induction false} QuoteAsCodeNoQuotes(s: string)
    requires '"' !in s
    ensures QuoteAsCode(s) == s
    decreases |s|
  {
    if s != [] {
      QuoteAsCodeNoQuotes(s[1..]);
    }
  }

  /** Text outside quotes is copied one character at a time. */
  lemma QuoteAsCodeOther(c: char, s: string)
    requires c != '"'
    ensures QuoteAsCode([c] + s) == [c] + QuoteAsCode(s)
  {
    assert ([c] + s)[1..] == s;
  }

  /** A quoted piece `"x"` becomes `` "`x`" ``, and the text after it is rewritten in turn. */
  lemma QuoteAsCodeQuoted(x: string, rest: string)
    requires '"' !in x
    ensures QuoteAsCode("\"" + x + "\"" + rest) == "\"`" + x + "`\"" + QuoteAsCode(rest)
  {
    var s := "\"" + x + "\"" + rest;
    assert s[1..] == x + ['"'] + rest;
    IndexOfAfter(x, '"', rest);
    assert s[1..|x| + 1] == x;
    assert s[|x| + 2..] == rest;
  }

  /** A quote with no closing quote after it leaves the rest of the text as it is. */
  lemma QuoteAsCodeUnclosed(rest: string)
    requires '"' !in rest
    ensures QuoteAsCode("\"" + rest) == "\"" + rest
  {
    assert ("\"" + rest)[1..] == rest;
  }

  /** Reading inline code in quotes back as the quoted text. */
  function UnquoteCode(s: string): string
    decreases |s|
  {
    if s == [] then []
    else if s[0] != '"' then [s[0]] + UnquoteCode(s[1..])
    else match IndexOf(s[1..], '"')
      case None => s
      case Some(k) =>
        var c := s[1..k + 1];
        if |c| >= 2 && c[0] == '`' && c[|c| - 1] == '`' then "\"" + c[1..|c| - 1] + "\"" + UnquoteCode(s[k + 2..])
        else "\"" + c + "\"" + UnquoteCode(s[k + 2..])
  }

  /** The rewrite loses nothing: reading the code back gives the step name. */
  lemma {:induction false} UnquoteQuoteAsCode(s: string)
    ensures UnquoteCode(QuoteAsCode(s)) == s
    decreases |s|
  {
    if s == [] {
    } else if s[0] != '"' {
      UnquoteQuoteAsCode(s[1..]);
      var t := QuoteAsCode(s);
      assert t == [s[0]] + QuoteAsCode(s[1..]);
      assert t[1..] == QuoteAsCode(s[1..]);
      assert [s[0]] + s[1..] == s;
    } else {
      match IndexOf(s[1..], '"')
      case None =>
      case Some(k) =>
        var x, rest := s[1..k + 1], s[k + 2..];
        assert s[1..][..k] == x;
        assert s == "\"" + x + "\"" + rest;
        UnquoteQuoted(x, QuoteAsCode(rest));
        UnquoteQuoteAsCode(rest);
    }
  }

  lemma UnquoteQuoted(x: string, rest: string)
    requires '"' !in x
    ensures UnquoteCode("\"`" + x + "`\"" + rest) == "\"" + x + "\"" + UnquoteCode(rest)
  {
    var t := "\"`" + x + "`\"" + rest;
    var a := "`" + x + "`";
    assert t[1..] == a + ['"'] + rest;
    IndexOfAfter(a, '"', rest);
    assert t[1..|a| + 1] == a;
    assert t[|a| + 2..] == rest;
    assert a[1..|a| - 1] == x;
  }

  /** The rewrite adds no double quote and removes none. */
  lemma {:induction false} QuoteAsCodeCountsQuotes(s: string)
    ensures Count(QuoteAsCode(s), '"') == Count(s, '"')
    decreases |s|
  {
    if s == [] {
    } else if s[0] != '"' {
      QuoteAsCodeCountsQuotes(s[1..]);
      CountAppend([s[0]], QuoteAsCode(s[1..]), '"');
      CountAppend([s[0]], s[1..], '"');
      assert [s[0]] + s[1..] == s;
    } else {
      match IndexOf(s[1..], '"')
      case None =>
      case Some(k) =>
        var x, rest := s[1..k + 1], s[k + 2..];
        assert s[1..][..k] == x;
        assert s == "\"" + x + "\"" + rest;
        QuoteAsCodeQuoted(x, rest);
        QuoteAsCodeCountsQuotes(rest);
        QuotedCounts(x);
        CountAppend("\"" + x + "\"", rest, '"');
        CountAppend("\"`" + x + "`\"", QuoteAsCode(rest), '"');
    }
  }

  /** Both forms of a quoted piece hold exactly its two quotes. */
  lemma QuotedCounts(x: string)
    requires '"' !in x
    ensures Count("\"" + x + "\"", '"') == 2
    ensures Count("\"`" + x + "`\"", '"') == 2
  {
    CountOfFree(x, '"');
    CountOfFree("`" + x + "`", '"');
    CountAppend("\"" + x, "\"", '"');
    CountAppend("\"", x, '"');
    CountAppend("\"" + ("`" + x + "`"), "\"", '"');
    CountAppend("\"", "`" + x + "`", '"');
    assert "\"`" + x + "`\"" == "\"" + ("`" + x + "`") + "\"";
  }

  // ---------------------------------------------------------------------------
  // `_guess_code_language`

  /** The language is that of the first pattern that matches, or empty when none does. */
  lemma CodeLanguageIsFirstMatch(highlights: Highlights, matches: Matcher, name: string)
    ensures forall i ::
      (0 <= i < |highlights| && matches(highlights[i].0, name) && forall j :: 0 <= j < i ==> !matches(highlights[j].0, name)) ==>
      CodeLanguage(highlights, matches, name) == highlights[i].1
    ensures (forall j :: 0 <= j < |highlights| ==> !matches(highlights[j].0, name)) ==>
      CodeLanguage(highlights, matches, name) == ""
  {
  }

  // ---------------------------------------------------------------------------
  // Tables and tag notes

  lemma {:induction false} JoinSnoc(sep: string, items: seq<string>, last: string)
    requires |items| >= 1
    ensures Join(sep, items + [last]) == Join(sep, items) + sep + last
    decreases |items|
  {
    var all := items + [last];
    if |items| == 1 {
      assert all[1..] == [last];
    } else {
      assert all[1..] == items[1..] + [last];
      JoinSnoc(sep, items[1..], last);
    }
  }

  /** A bar before and after the joined items is a join with an empty item at each end. */
  lemma Bars(items: seq<string>)
    requires |items| >= 1
    ensures "|" + Join("|", items) + "|" == Join("|", [""] + items + [""])
  {
    var inner := [""] + items;
    assert inner[1..] == items;
    JoinSnoc("|", inner, "");
  }

  /** The header row splits on its bars back into the headings, between two empty ends. */
  lemma HeaderRowSplits(headings: seq<string>)
    requires |headings| >= 1 && forall i :: 0 <= i < |headings| ==> '|' !in headings[i]
    ensures Split(HeaderRow(headings), '|') == [""] + headings + [""]
  {
    Bars(headings);
    SplitJoin([""] + headings + [""], '|');
  }

  /** A row splits on its bars back into its cells, each in backticks, between two empty ends. */
  lemma CellsRowSplits(cells: seq<string>)
    requires |cells| >= 1 && forall i :: 0 <= i < |cells| ==> '|' !in cells[i]
    ensures Split(CellsRow(cells), '|') == [""] + Backticked(cells) + [""]
  {
    var b := Backticked(cells);
    forall i | 0 <= i < |cells|
      ensures '|' !in b[i]
    {
      assert b[i] == "`" + cells[i] + "`";
    }
    Bars(b);
    SplitJoin([""] + b + [""], '|');
  }

  lemma {:induction false} SeparatorBars(n: nat)
    ensures Count(SeparatorRow(n), '|') == n + 1
  {
    if n > 0 {
      SeparatorBars(n - 1);
      assert SeparatorRow(n) == "|--" + SeparatorRow(n - 1);
      CountAppend("|--", SeparatorRow(n - 1), '|');
    }
  }

  lemma {:induction false} JoinBars(items: seq<string>)
    requires |items| >= 1 && forall i :: 0 <= i < |items| ==> '|' !in items[i]
    ensures Count(Join("|", items), '|') == |items| - 1
    decreases |items|
  {
    CountOfFree(items[0], '|');
    if |items| > 1 {
      JoinBars(items[1..]);
      CountAppend(items[0] + "|", Join("|", items[1..]), '|');
      CountAppend(items[0], "|", '|');
    }
  }

  lemma {:induction false} CountOfFree(s: string, c: char)
    requires c !in s
    ensures Count(s, c) == 0
    decreases |s|
  {
    if s != [] {
      CountOfFree(s[1..], c);
    }
  }

  /** The separator row has exactly as many columns as the header row. */
  lemma SeparatorMatchesHeader(headings: seq<string>)
    requires |headings| >= 1 && forall i :: 0 <= i < |headings| ==> '|' !in headings[i]
    ensures Count(SeparatorRow(|headings|), '|') == Count(HeaderRow(headings), '|') == |headings| + 1
  {
    SeparatorBars(|headings|);
    JoinBars(headings);
    CountAppend("|" + Join("|", headings), "|", '|');
    CountAppend("|", Join("|", headings), '|');
  }

  /** The tag line of a note is four spaces and then the tags, each with an `@`, that split back on single spaces. */
  lemma TagLineSplits(tags: seq<string>)
    requires |tags| >= 1 && forall i :: 0 <= i < |tags| ==> ' ' !in tags[i]
    ensures |CalloutLines(tags)| == 3 && CalloutLines(tags)[0] == "!!! note" && CalloutLines(tags)[2] == ""
    ensures StartsWith(CalloutLines(tags)[1], "    ")
    ensures Split(CalloutLines(tags)[1][4..], ' ') == AtTags(tags)
  {
    var at := AtTags(tags);
    forall i | 0 <= i < |tags|
      ensures ' ' !in at[i]
    {
      assert at[i] == "@" + tags[i];
    }
    var line := CalloutLines(tags)[1];
    assert line[4..] == Join(" ", at);
    SplitJoin(at, ' ');
  }

  /** An examples table's first line is empty exactly when the table has no name, and otherwise names it. */
  lemma ExamplesHeadingNamesTable(name: string)
    ensures ExamplesHeading(name) == "" <==> name == ""
    ensures name != "" ==> StartsWith(ExamplesHeading(name), "#### Examples: ") && ExamplesHeading(name)[15..] == name
  {
  }

  // ---------------------------------------------------------------------------
  // Pages

  /** Each line followed by a newline is the lines, and an empty rest, joined by newlines. */
  lemma {:induction false} UnlinesIsJoin(lines: seq<string>)
    ensures Unlines(lines) == Join("\n", lines + [""])
    decreases |lines|
  {
    if lines != [] {
      var init, last := lines[..|lines| - 1], lines[|lines| - 1];
      UnlinesIsJoin(init);
      assert lines == init + [last];
      JoinSnoc("\n", init + [last], "");
      if init != [] {
        JoinSnoc("\n", init, last);
        JoinSnoc("\n", init, "");
      } else {
        assert init + [""] == [""];
      }
    }
  }

  /** A page without newlines inside its lines splits on newlines back into its lines, and an empty rest. */
  lemma UnlinesSplits(lines: seq<string>)
    requires forall i :: 0 <= i < |lines| ==> '\n' !in lines[i]
    ensures Split(Unlines(lines), '\n') == lines + [""]
  {
    UnlinesIsJoin(lines);
    SplitJoin(lines + [""], '\n');
  }
}
